/** Failure-carrying result types shared by the whole model.

    The source signals failure in two ways: by raising (a Python exception,
    modelled as `Failure(e)` of a `Result`) and by returning `None` (modelled
    as `None` of an `Option`). */
module Common {

  datatype Option<+T> = None | Some(value: T)

  /** The exceptions the modelled code raises, one variant per raise site. */
  datatype Error =
    | MissingColumn(column: string)  // ValueError("CSV missing 'geom'")
    | DataNotRetrieved               // ValueError("Ensure prior data is retrieved")
    | CoordinatesNotSet              // ValueError("Store coordinates not set")
    | DivisionByZero                 // ZeroDivisionError from i / num_samples
    | StateUnbound                   // UnboundLocalError on `state`
    | TooFewPoints                   // a LineString built from a single point

  datatype Result<+T> = Success(value: T) | Failure(error: Error)
}
