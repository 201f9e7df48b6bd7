/** The `SidewalkVisibility` class of sidewalk_visibility.py: footways near
    the store, a two-pass visibility test per footway, and the pedestrian
    exposure score.

    The network fetches are parameters: the buildings `osmnx` returned, the
    Overpass answer for footways, and the Overpass answer for amenities
    that `fetch_pedestrian_density` counts. */
module Sidewalk {
  import opened Common
  import opened Seqs
  import opened Geometry
  import opened Selection
  import opened Sampling
  import opened Overpass

  /** `num_samples` of both passes: 51 sample points per footway. */
  const NumSamples: int := 50

  /** Obstacles are grown by 50 cm in the first pass. */
  const Buffer: real := 0.5

  /** Divisor normalising a footway's contribution to the score. */
  const Normalisation: real := 10.0

  /** `fetch_obstacles`: the fetched buildings minus every one that meets
      the store point. There is no guard on the coordinates here. */
  function FetchObstacles(o: Oracle, lat: real, lon: real, fetched: seq<Shape>): (r: seq<Shape>)
    ensures forall k :: 0 <= k < |r| ==> !o.covers(r[k], GeoPoint(lat, lon))
    ensures forall k :: 0 <= k < |fetched| && !o.covers(fetched[k], GeoPoint(lat, lon)) ==> fetched[k] in r
    ensures IsSubseq(r, fetched)
    ensures |r| + Count(fetched, Covering(o, GeoPoint(lat, lon))) == |fetched|
  {
    ExcludeStoreBuilding(o, fetched, GeoPoint(lat, lon))
  }

  /** `fetch_street_segments` after the request: one line per element with
      a `geometry`, nodes as `(lon, lat)`; no lines unless the status is 200. */
  function FetchStreetSegments(response: Response): (r: seq<seq<Point>>)
    ensures response.status != 200 ==> r == []
    ensures response.status == 200 ==> |r| == |Filter(response.elements, Defined(LineOf))|
    ensures response.status == 200 ==> forall k :: 0 <= k < |r| ==>
              var e := Filter(response.elements, Defined(LineOf))[k];
              e.Way? && e.geometry.Some? && |r[k]| == |e.geometry.value| &&
              forall v :: 0 <= v < |r[k]| ==> r[k][v] == GeoPoint(e.geometry.value[v].lat, e.geometry.value[v].lon)
  {
    var r := StreetSegments(response);
    assert response.status == 200 ==> forall k :: 0 <= k < |r| ==>
      LineOf(Filter(response.elements, Defined(LineOf))[k]) == Some(r[k]);
    r
  }

  /** Sample `i` of a footway clears every obstacle grown by `tolerance`. */
  predicate ClearAt(o: Oracle, store: Point, segment: seq<Point>, obstacles: seq<Shape>, tolerance: real, i: int)
  {
    Visible(o, store, SamplePoint(o, segment, i, NumSamples), obstacles, tolerance)
  }

  /** No sample of the footway clears the obstacles grown by `tolerance`. */
  ghost predicate NoneClear(o: Oracle, store: Point, segment: seq<Point>, obstacles: seq<Shape>, tolerance: real)
  {
    forall i :: 0 <= i <= NumSamples ==> !ClearAt(o, store, segment, obstacles, tolerance, i)
  }

  /** `r` holds exactly the samples that clear the obstacles grown by
      `tolerance`. */
  ghost predicate ClearSamples(r: seq<int>, o: Oracle, store: Point, segment: seq<Point>, obstacles: seq<Shape>,
                               tolerance: real)
  {
    forall i :: i in r <==> 0 <= i <= NumSamples && ClearAt(o, store, segment, obstacles, tolerance, i)
  }

  /** One sampling pass over a footway: the clear samples, in sample order. */
  function Pass(o: Oracle, segment: seq<Point>, store: Point, obstacles: seq<Shape>, tolerance: real): (r: seq<int>)
    ensures ClearSamples(r, o, store, segment, obstacles, tolerance)
    ensures Increasing(r)
  {
    VisibleIndices(o, store, segment, obstacles, tolerance, NumSamples)
  }

  /** A pass is empty exactly when no sample clears. */
  lemma PassEmpty(o: Oracle, segment: seq<Point>, store: Point, obstacles: seq<Shape>, tolerance: real)
    ensures Pass(o, segment, store, obstacles, tolerance) == [] <==> NoneClear(o, store, segment, obstacles, tolerance)
  {
    var r := Pass(o, segment, store, obstacles, tolerance);
    if r != [] {
      assert r[0] in r;
    }
  }

  /** `is_segment_visible`, as the indices of the samples whose points make
      up the returned line. The buffered pass decides as soon as it finds a
      visible sample, even a single one; otherwise the unbuffered pass's
      samples are appended to the (empty) list of the first, so they make
      up the whole result; when neither pass finds one the result is `None`. */
  function IsSegmentVisible(o: Oracle, segment: seq<Point>, store: Point, obstacles: seq<Shape>)
    : (r: Option<seq<int>>)
    ensures r.None? <==> Pass(o, segment, store, obstacles, Buffer) == [] && Pass(o, segment, store, obstacles, 0.0) == []
    ensures Pass(o, segment, store, obstacles, Buffer) != [] ==> r == Some(Pass(o, segment, store, obstacles, Buffer))
    ensures Pass(o, segment, store, obstacles, Buffer) == [] && r.Some? ==> r.value == Pass(o, segment, store, obstacles, 0.0)
  {
    var first := Pass(o, segment, store, obstacles, Buffer);
    if |first| > 0 then
      Some(first)
    else
      var all := first + Pass(o, segment, store, obstacles, 0.0);
      if |all| > 0 then Some(all) else None
  }

  /** The result of `is_segment_visible` sample by sample: `None` exactly
      when no sample is clear in either pass; otherwise a non-empty,
      increasing list holding the samples clear with the buffer when there
      are any, and the samples clear without it when there are not. */
  lemma SegmentVisibleSamples(o: Oracle, segment: seq<Point>, store: Point, obstacles: seq<Shape>)
    ensures var r := IsSegmentVisible(o, segment, store, obstacles);
            && (r.None? <==> NoneClear(o, store, segment, obstacles, Buffer) && NoneClear(o, store, segment, obstacles, 0.0))
            && (r.Some? ==> |r.value| > 0 && Increasing(r.value))
            && (!NoneClear(o, store, segment, obstacles, Buffer) ==>
                  r.Some? && ClearSamples(r.value, o, store, segment, obstacles, Buffer))
            && (NoneClear(o, store, segment, obstacles, Buffer) && r.Some? ==>
                  ClearSamples(r.value, o, store, segment, obstacles, 0.0))
  {
    PassEmpty(o, segment, store, obstacles, Buffer);
    PassEmpty(o, segment, store, obstacles, 0.0);
  }

  /** When buffering can only block more, the fallback never loses a sample
      the buffered pass saw, and a footway is dropped exactly when no
      sightline clears even the bare obstacles. */
  lemma FallbackOnlyAdds(o: Oracle, segment: seq<Point>, store: Point, obstacles: seq<Shape>)
    requires BufferMonotone(o, Buffer)
    ensures IsSegmentVisible(o, segment, store, obstacles).None? <==> NoneClear(o, store, segment, obstacles, 0.0)
    ensures forall i :: 0 <= i <= NumSamples && ClearAt(o, store, segment, obstacles, Buffer, i) ==>
              IsSegmentVisible(o, segment, store, obstacles).Some? &&
              i in IsSegmentVisible(o, segment, store, obstacles).value
  {
    SegmentVisibleSamples(o, segment, store, obstacles);
    forall i | 0 <= i <= NumSamples && ClearAt(o, store, segment, obstacles, Buffer, i)
      ensures ClearAt(o, store, segment, obstacles, 0.0, i)
    {
      VisibleUnbuffered(o, store, SamplePoint(o, segment, i, NumSamples), obstacles, Buffer);
    }
  }

  /** With no obstacles the first pass sees all 51 samples. */
  lemma NoObstaclesAllSamples(o: Oracle, segment: seq<Point>, store: Point)
    ensures IsSegmentVisible(o, segment, store, []) == Some(Range(0, NumSamples + 1))
  {
    AllVisibleWithoutObstacles(o, store, segment, Buffer, NumSamples);
  }

  /** The deciding pass kept exactly one sample, so the line
      `is_segment_visible` builds from the visible points has a single point. */
  predicate SingleSample(o: Oracle, segment: seq<Point>, store: Point, obstacles: seq<Shape>)
  {
    var v := IsSegmentVisible(o, segment, store, obstacles);
    v.Some? && |v.value| == 1
  }

  /** The visible length of a footway, with a single visible sample counted
      as a point of no length: `None` when no sample is visible, 0 for a
      single sample, otherwise the length of the line through the visible
      samples. */
  function VisibleLength(o: Oracle, segment: seq<Point>, store: Point, obstacles: seq<Shape>): (r: Option<real>)
    ensures r.None? <==> IsSegmentVisible(o, segment, store, obstacles).None?
    ensures SingleSample(o, segment, store, obstacles) ==> r == Some(0.0)
    ensures r.Some? && !SingleSample(o, segment, store, obstacles) ==>
              r.value == o.length(SamplePoints(o, segment, IsSegmentVisible(o, segment, store, obstacles).value, NumSamples))
    ensures LengthsNonNegative(o) && r.Some? ==> r.value >= 0.0
  {
    match IsSegmentVisible(o, segment, store, obstacles)
    case None => None
    case Some(indices) =>
      if |indices| == 1 then Some(0.0)
      else Some(o.length(SamplePoints(o, segment, indices, NumSamples)))
  }

  /** The length of the line `is_segment_visible` returns, as written: the
      line cannot be built from a single point, so that case raises;
      `None` when no sample is visible. Where it does not raise, it
      measures what `VisibleLength` does. */
  function VisibleLengthAsWritten(o: Oracle, segment: seq<Point>, store: Point, obstacles: seq<Shape>)
    : (r: Result<Option<real>>)
    ensures r.Failure? <==> SingleSample(o, segment, store, obstacles)
    ensures r.Failure? ==> r.error == TooFewPoints
    ensures r.Success? ==> r.value == VisibleLength(o, segment, store, obstacles)
    ensures r == Success(None) <==> IsSegmentVisible(o, segment, store, obstacles).None?
    ensures r.Success? && r.value.Some? ==>
              r.value.value == o.length(SamplePoints(o, segment, IsSegmentVisible(o, segment, store, obstacles).value, NumSamples))
  {
    match IsSegmentVisible(o, segment, store, obstacles)
    case None => Success(None)
    case Some(indices) =>
      if |indices| == 1 then Failure(TooFewPoints)
      else Success(Some(o.length(SamplePoints(o, segment, indices, NumSamples))))
  }

  /** A footway of which only the first sample has a clear sightline makes
      the code as written raise. The footway runs from `(0, 0)` to `(1, 0)`
      and is seen from `(0, -1)`; the obstacle is a point at `(0.51, 0)`.
      Grown by 0.5 it reaches every sample point but the one at `x = 0`,
      which lies 0.51 away. `CrashOracle` stands for that geometry: it
      blocks exactly the sightlines that do not end at `x = 0`. */
  lemma SingleSampleCrash()
    ensures IsSegmentVisible(CrashOracle(), CrashFootway(), CrashStore(), CrashObstacles()) == Some([0])
    ensures VisibleLengthAsWritten(CrashOracle(), CrashFootway(), CrashStore(), CrashObstacles()) == Failure(TooFewPoints)
    ensures VisibleLength(CrashOracle(), CrashFootway(), CrashStore(), CrashObstacles()) == Some(0.0)
  {
    var r := Pass(CrashOracle(), CrashFootway(), CrashStore(), CrashObstacles(), Buffer);
    forall i | 0 <= i <= NumSamples
      ensures ClearAt(CrashOracle(), CrashStore(), CrashFootway(), CrashObstacles(), Buffer, i) <==> i == 0
    {
      CrashSampleClear(i);
    }
    OnlyZero(r);
    assert SingleSample(CrashOracle(), CrashFootway(), CrashStore(), CrashObstacles());
  }

  /** In the crash scenario only sample 0 clears the buffered obstacle. */
  lemma CrashSampleClear(i: int)
    requires 0 <= i <= NumSamples
    ensures ClearAt(CrashOracle(), CrashStore(), CrashFootway(), CrashObstacles(), Buffer, i) <==> i == 0
  {
    var p := SamplePoint(CrashOracle(), CrashFootway(), i, NumSamples);
    assert p == Point(Parameter(i, NumSamples), 0.0);
    assert Parameter(i, NumSamples) == 0.0 <==> i == 0;
  }

  function CrashFootway(): seq<Point>
  {
    [Point(0.0, 0.0), Point(1.0, 0.0)]
  }

  function CrashStore(): Point
  {
    Point(0.0, -1.0)
  }

  function CrashObstacles(): seq<Shape>
  {
    [PointShape(Point(0.51, 0.0))]
  }

  /** An oracle whose footway runs along the x axis and which blocks every
      sightline except the one ending at `x = 0`, whatever the shape: the
      answers the geometry of `SingleSampleCrash` gives for its obstacle. */
  function CrashOracle(): (o: Oracle)
    ensures forall path, t :: o.interpolate(path, t) == Point(t, 0.0)
    ensures forall a, b, s, t :: o.blocks(a, b, s, t) <==> b.x != 0.0
  {
    Oracle((path: seq<Point>, p: Point) => 0.0,
           (s: Shape, p: Point) => false,
           (path: seq<Point>, t: real) => Point(t, 0.0),
           (a: Point, b: Point, s: Shape, t: real) => b.x != 0.0,
           (pts: seq<Point>) => 0.0)
  }

  /** An increasing sequence holding 0 and nothing else is `[0]`. */
  lemma OnlyZero(r: seq<int>)
    requires Increasing(r)
    requires forall i :: i in r <==> i == 0
    ensures r == [0]
  {
    assert 0 in r;
    forall k | 0 <= k < |r|
      ensures r[k] == 0
    {
      assert r[k] in r;
    }
    IncreasingWithin(r, 0, 0);
  }

  /** The visible lengths of a list of footways, one entry per footway. */
  function VisibleLengths(o: Oracle, segments: seq<seq<Point>>, store: Point, obstacles: seq<Shape>)
    : (r: seq<Option<real>>)
    ensures |r| == |segments|
    ensures forall k :: 0 <= k < |r| ==> r[k] == VisibleLength(o, segments[k], store, obstacles)
  {
    seq(|segments|, k requires 0 <= k < |segments| => VisibleLength(o, segments[k], store, obstacles))
  }

  /** The measuring part of the loop of `calculate_visibility_score`, as
      written: the first footway with a single visible sample raises;
      otherwise every footway's visible length, in order. */
  function LengthsAsWritten(o: Oracle, segments: seq<seq<Point>>, store: Point, obstacles: seq<Shape>)
    : (r: Result<seq<Option<real>>>)
    ensures r.Failure? <==> exists k :: 0 <= k < |segments| && SingleSample(o, segments[k], store, obstacles)
    ensures r.Failure? ==> r.error == TooFewPoints
    ensures r.Success? ==> |r.value| == |segments|
    ensures r.Success? ==> forall k :: 0 <= k < |segments| ==> r.value[k] == VisibleLength(o, segments[k], store, obstacles)
  {
    if |segments| == 0 then Success([])
    else
      match VisibleLengthAsWritten(o, segments[0], store, obstacles)
      case Failure(e) => Failure(e)
      case Success(l) =>
        var rest := LengthsAsWritten(o, segments[1..], store, obstacles);
        assert forall k :: 1 <= k < |segments| ==> segments[k] == segments[1..][k - 1];
        match rest
        case Failure(e) => Failure(e)
        case Success(ls) => Success([l] + ls)
  }

  predicate NonNegative(lengths: seq<Option<real>>)
  {
    forall k :: 0 <= k < |lengths| && lengths[k].Some? ==> lengths[k].value >= 0.0
  }

  /** `fetch_pedestrian_density` once its answer is in: the number of
      elements on status 200, and 0 for any other status. */
  function PedestrianDensity(response: Response): (d: nat)
    ensures response.status == 200 ==> d == |response.elements|
    ensures response.status != 200 ==> d == 0
  {
    if response.status == 200 then |response.elements| else 0
  }

  /** `t * count / 10` with a whole `count`, spelled as `count` additions
      of `t / 10`. */
  function Scaled(t: real, count: nat): real
  {
    if count == 0 then 0.0 else Scaled(t, count - 1) + t / Normalisation
  }

  lemma {:induction false} ScaledIsProduct(t: real, count: nat)
    ensures Scaled(t, count) == t * count as real / Normalisation
  {
    if count > 0 {
      ScaledIsProduct(t, count - 1);
      assert t * count as real == t * (count - 1) as real + t;
    }
  }

  lemma {:induction false} ScaledAdditive(a: real, b: real, count: nat)
    ensures Scaled(a + b, count) == Scaled(a, count) + Scaled(b, count)
  {
    if count > 0 {
      ScaledAdditive(a, b, count - 1);
    }
  }

  lemma {:induction false} ScaledNonNegative(t: real, count: nat)
    ensures t >= 0.0 ==> Scaled(t, count) >= 0.0
    ensures t == 0.0 ==> Scaled(t, count) == 0.0
  {
    if count > 0 {
      ScaledNonNegative(t, count - 1);
    }
  }

  /** Sum of the lengths that are present. */
  function Total(lengths: seq<Option<real>>): real
  {
    if |lengths| == 0 then 0.0
    else (match lengths[0] case None => 0.0 case Some(l) => l) + Total(lengths[1..])
  }

  /** The accumulation loop of `calculate_visibility_score`: each footway
      that is not `None` adds `length * density / 10`; a `None` adds nothing. */
  function Accumulate(lengths: seq<Option<real>>, density: nat): real
  {
    if |lengths| == 0 then 0.0
    else
      match lengths[0]
      case None => Accumulate(lengths[1..], density)
      case Some(l) => Scaled(l, density) + Accumulate(lengths[1..], density)
  }

  /** Non-negative lengths have a non-negative total. */
  lemma {:induction false} TotalNonNegative(lengths: seq<Option<real>>)
    ensures NonNegative(lengths) ==> Total(lengths) >= 0.0
  {
    if |lengths| > 0 {
      TotalNonNegative(lengths[1..]);
    }
  }

  /** The accumulated score is the total visible length scaled by the
      density and the normalisation constant. */
  lemma {:induction false} AccumulateIsScaledTotal(lengths: seq<Option<real>>, density: nat)
    ensures Accumulate(lengths, density) == Scaled(Total(lengths), density)
  {
    if |lengths| == 0 {
      ScaledNonNegative(0.0, density);
    } else {
      AccumulateIsScaledTotal(lengths[1..], density);
      match lengths[0]
      case None =>
        assert Total(lengths) == Total(lengths[1..]);
      case Some(l) =>
        ScaledAdditive(l, Total(lengths[1..]), density);
    }
  }

  /** The score adds up over a split of the footway list. */
  lemma {:induction false} AccumulateAdditive(a: seq<Option<real>>, b: seq<Option<real>>, density: nat)
    ensures Accumulate(a + b, density) == Accumulate(a, density) + Accumulate(b, density)
  {
    if |a| == 0 {
      assert a + b == b;
    } else {
      assert (a + b)[1..] == a[1..] + b;
      assert (a + b)[0] == a[0];
      AccumulateAdditive(a[1..], b, density);
    }
  }

  /** The score over a list of footway lengths: 0 for an empty list,
      otherwise the accumulation loop. It is the total length scaled by the
      density, never negative for non-negative lengths, and 0 for a zero
      density. */
  function Score(lengths: seq<Option<real>>, density: nat): (r: real)
    ensures r == Scaled(Total(lengths), density)
    ensures |lengths| == 0 ==> r == 0.0
    ensures density == 0 ==> r == 0.0
    ensures NonNegative(lengths) ==> r >= 0.0
  {
    AccumulateIsScaledTotal(lengths, density);
    TotalNonNegative(lengths);
    ScaledNonNegative(Total(lengths), density);
    if |lengths| == 0 then 0.0 else Accumulate(lengths, density)
  }

  /** The visible length of every footway of the answer, measured from the
      store against the fetched buildings minus the store's own. */
  function FootwayLengths(o: Oracle, lat: real, lon: real, fetched: seq<Shape>, footways: Response)
    : (r: seq<Option<real>>)
    ensures |r| == |FetchStreetSegments(footways)|
    ensures forall k :: 0 <= k < |r| ==>
              r[k] == VisibleLength(o, FetchStreetSegments(footways)[k], GeoPoint(lat, lon),
                                    FetchObstacles(o, lat, lon, fetched))
    ensures LengthsNonNegative(o) ==> NonNegative(r)
  {
    VisibleLengths(o, FetchStreetSegments(footways), GeoPoint(lat, lon), FetchObstacles(o, lat, lon, fetched))
  }

  /** `calculate_visibility_score` without the final rounding: 0 when no
      footway was decoded; otherwise, for every footway with a visible part,
      its length times the pedestrian density over 10. */
  function CalculateVisibilityScore(o: Oracle, lat: real, lon: real, fetched: seq<Shape>,
                                    footways: Response, amenities: Response): (r: real)
    ensures footways.status != 200 ==> r == 0.0
    ensures amenities.status != 200 ==> r == 0.0
    ensures LengthsNonNegative(o) ==> r >= 0.0
    ensures r == Scaled(Total(FootwayLengths(o, lat, lon, fetched, footways)), PedestrianDensity(amenities))
  {
    Score(FootwayLengths(o, lat, lon, fetched, footways), PedestrianDensity(amenities))
  }

  /** Some footway of the answer has a single visible sample. */
  ghost predicate SomeSingleSample(o: Oracle, lat: real, lon: real, fetched: seq<Shape>, footways: Response)
  {
    exists k :: 0 <= k < |FetchStreetSegments(footways)| &&
      SingleSample(o, FetchStreetSegments(footways)[k], GeoPoint(lat, lon), FetchObstacles(o, lat, lon, fetched))
  }

  /** `calculate_visibility_score` as written, without the final rounding:
      it raises as soon as a footway has a single visible sample, and
      otherwise computes the score `CalculateVisibilityScore` does. */
  function CalculateVisibilityScoreAsWritten(o: Oracle, lat: real, lon: real, fetched: seq<Shape>,
                                             footways: Response, amenities: Response): (r: Result<real>)
    ensures r.Failure? <==> SomeSingleSample(o, lat, lon, fetched, footways)
    ensures r.Failure? ==> r.error == TooFewPoints
    ensures r.Success? ==> r.value == CalculateVisibilityScore(o, lat, lon, fetched, footways, amenities)
  {
    var lengths := LengthsAsWritten(o, FetchStreetSegments(footways), GeoPoint(lat, lon),
                                    FetchObstacles(o, lat, lon, fetched));
    match lengths
    case Failure(e) => Failure(e)
    case Success(ls) =>
      assert ls == FootwayLengths(o, lat, lon, fetched, footways);
      Success(Score(ls, PedestrianDensity(amenities)))
  }
}
