/** Line-of-sight sampling along a linear feature.

    Both visibility scripts walk a feature at the normalised parameters
    `i / num_samples` for `i in range(num_samples + 1)` and test the sightline
    from the store to each sample point. This module defines that walk once;
    the reducers in modules Traffic and Sidewalk interpret its result. */
module Sampling {
  import opened Common
  import opened Seqs
  import opened Geometry

  /** The normalised position `i / n` of sample `i` of `n`. */
  function Parameter(i: int, n: int): real
    requires n != 0
  {
    i as real / n as real
  }

  /** The parameters the loop `for i in range(n + 1): ... i / n` visits.
      With `n == 0` the first iteration divides by zero; with `n < 0` the
      range is empty and nothing is divided. */
  function Parameters(n: int): (r: Result<seq<real>>)
    ensures r.Failure? <==> n == 0
    ensures r.Failure? ==> r.error == DivisionByZero
    ensures n < 0 ==> r == Success([])
    ensures n > 0 ==> r.Success? && |r.value| == n + 1
    ensures n > 0 ==> forall k :: 0 <= k <= n ==> r.value[k] == Parameter(k, n)
    ensures n > 0 ==> r.value[0] == 0.0 && r.value[n] == 1.0
    ensures n > 0 ==> forall k :: 0 <= k < |r.value| ==> 0.0 <= r.value[k] <= 1.0
    ensures n > 0 ==> forall a, b :: 0 <= a < b < |r.value| ==> r.value[a] < r.value[b]
  {
    if n == 0 then Failure(DivisionByZero)
    else if n < 0 then Success([])
    else
      var ps := seq(n + 1, i requires 0 <= i <= n => Parameter(i, n));
      assert forall a, b :: 0 <= a < b <= n ==> ps[a] < ps[b] by {
        forall a, b | 0 <= a < b <= n
          ensures ps[a] < ps[b]
        {
          ParameterIncreasing(a, b, n);
        }
      }
      assert ps[n] == 1.0 by {
        assert n as real / n as real == 1.0;
      }
      Success(ps)
  }

  lemma ParameterIncreasing(a: int, b: int, n: int)
    requires 0 <= a < b && n > 0
    ensures Parameter(a, n) < Parameter(b, n)
  {
    assert (b - a) as real / n as real > 0.0;
    assert Parameter(b, n) - Parameter(a, n) == (b - a) as real / n as real;
  }

  /** The point of sample `i` of `n` on `path`. */
  function SamplePoint(o: Oracle, path: seq<Point>, i: int, n: int): Point
    requires n != 0
  {
    o.interpolate(path, Parameter(i, n))
  }

  /** Sample `i` lies at the `i`-th of the parameters the loop visits. */
  lemma SampleAtParameter(o: Oracle, path: seq<Point>, i: int, n: int)
    requires 0 <= i <= n && n > 0
    ensures Parameters(n).Success? && i < |Parameters(n).value|
    ensures SamplePoint(o, path, i, n) == o.interpolate(path, Parameters(n).value[i])
  {
  }

  /** The points of the samples listed in `indices`: the vertices of
      `LineString(visible_points)`. */
  function SamplePoints(o: Oracle, path: seq<Point>, indices: seq<int>, n: int): (r: seq<Point>)
    requires n != 0
    ensures |r| == |indices|
    ensures forall k :: 0 <= k < |r| ==> r[k] == SamplePoint(o, path, indices[k], n)
  {
    seq(|indices|, k requires 0 <= k < |indices| => SamplePoint(o, path, indices[k], n))
  }

  /** "Sample `i` is visible" as a predicate on sample indices. */
  function SampleVisible(o: Oracle, store: Point, path: seq<Point>, obstacles: seq<Shape>,
                         tolerance: real, n: int): int -> bool
    requires n != 0
  {
    i => Visible(o, store, SamplePoint(o, path, i, n), obstacles, tolerance)
  }

  /** The indices `i` in `0..n` whose sightline is clear of every obstacle
      grown by `tolerance`, in the order the loop visits them. */
  function VisibleIndices(o: Oracle, store: Point, path: seq<Point>, obstacles: seq<Shape>,
                          tolerance: real, n: int): (r: seq<int>)
    requires n > 0
    ensures |r| <= n + 1
    ensures forall i :: i in r <==>
              0 <= i <= n && Visible(o, store, SamplePoint(o, path, i, n), obstacles, tolerance)
    ensures forall a, b :: 0 <= a < b < |r| ==> r[a] < r[b]
  {
    var p := SampleVisible(o, store, path, obstacles, tolerance, n);
    FilterRangeMembers(0, n + 1, p);
    FilterRangeIncreasing(0, n + 1, p);
    Filter(Range(0, n + 1), p)
  }

  /** With no obstacles every one of the `n + 1` samples is visible. */
  lemma AllVisibleWithoutObstacles(o: Oracle, store: Point, path: seq<Point>, tolerance: real, n: int)
    requires n > 0
    ensures VisibleIndices(o, store, path, [], tolerance, n) == Range(0, n + 1)
  {
    var p := SampleVisible(o, store, path, [], tolerance, n);
    FilterAll(Range(0, n + 1), p);
  }

  /** Every sample visible against obstacles grown by `tolerance` is also
      visible against the bare obstacles, when buffering can only block more. */
  lemma VisibleIndicesUnbuffered(o: Oracle, store: Point, path: seq<Point>, obstacles: seq<Shape>,
                                 tolerance: real, n: int)
    requires n > 0
    requires BufferMonotone(o, tolerance)
    ensures forall i :: i in VisibleIndices(o, store, path, obstacles, tolerance, n) ==>
              i in VisibleIndices(o, store, path, obstacles, 0.0, n)
  {
    forall i | i in VisibleIndices(o, store, path, obstacles, tolerance, n)
      ensures i in VisibleIndices(o, store, path, obstacles, 0.0, n)
    {
      VisibleUnbuffered(o, store, SamplePoint(o, path, i, n), obstacles, tolerance);
    }
  }
}
