/** The `TrafficVisibility` class of traffic_visibility.py: road segments
    from a traffic dataset, the store's obstacles, and the truncation
    reducer that keeps the visible part of each road segment.

    The object's mutable fields become a `Session` value threaded through
    the operations. */
module Traffic {
  import opened Common
  import opened Seqs
  import opened Geometry
  import opened Selection
  import opened Sampling

  /** Tolerance of the sightline test: obstacles are grown by 10 cm. */
  const Tolerance: real := 0.1

  /** The fields of a `TrafficVisibility` object. */
  datatype Session = Session(
    lat: Option<real>,
    lon: Option<real>,
    gdf: Option<seq<Feature>>,
    obstacles: seq<Shape>)

  /** `TrafficVisibility(lat, lon)`: no dataset read, no obstacles fetched. */
  function Init(lat: Option<real>, lon: Option<real>): (s: Session)
    ensures s.lat == lat && s.lon == lon
    ensures s.gdf.None? && s.obstacles == []
  {
    Session(lat, lon, None, [])
  }

  /** A CSV file as pandas reads it: its header, and its rows with the WKT
      of the `geom` column already parsed into `path`. */
  datatype Table = Table(header: seq<string>, rows: seq<Feature>)

  /** `read_data`: fails when the CSV has no `geom` column; otherwise the
      rows become the session's dataset, without a `geom` column. */
  function ReadData(s: Session, t: Table): (r: Result<Session>)
    ensures r.Failure? <==> "geom" !in t.header
    ensures r.Failure? ==> r.error == MissingColumn("geom")
    ensures r.Success? ==> r.value.lat == s.lat && r.value.lon == s.lon
    ensures r.Success? ==> r.value.obstacles == s.obstacles
    ensures r.Success? ==> r.value.gdf.Some? && |r.value.gdf.value| == |t.rows|
    ensures r.Success? ==> forall k :: 0 <= k < |t.rows| ==>
              r.value.gdf.value[k].path == t.rows[k].path
              && "geom" !in r.value.gdf.value[k].columns
    ensures r.Success? ==> forall k :: 0 <= k < |t.rows| ==>
              r.value.gdf.value[k].columns == t.rows[k].columns - {"geom"}
  {
    if "geom" !in t.header then Failure(MissingColumn("geom"))
    else
      var gdf := seq(|t.rows|, k requires 0 <= k < |t.rows| =>
                   Feature(t.rows[k].path, t.rows[k].columns - {"geom"}));
      Success(s.(gdf := Some(gdf)))
  }

  /** `nearby_data`: raises unless the store coordinates and the dataset are
      all set; otherwise the dataset's features within `radius` metres of
      the store, bound included, in dataset order. */
  function NearbyData(o: Oracle, s: Session, radius: real): (r: Result<seq<Feature>>)
    ensures r.Failure? <==> s.lat.None? || s.lon.None? || s.gdf.None?
    ensures r.Failure? ==> r.error == DataNotRetrieved
    ensures r.Success? ==> forall k :: 0 <= k < |r.value| ==>
              o.distance(r.value[k].path, GeoPoint(s.lat.value, s.lon.value)) <= radius
    ensures r.Success? ==> forall k ::
              (0 <= k < |s.gdf.value| &&
               o.distance(s.gdf.value[k].path, GeoPoint(s.lat.value, s.lon.value)) <= radius) ==>
              s.gdf.value[k] in r.value
    ensures r.Success? ==> forall f: Feature ::
              o.distance(f.path, GeoPoint(s.lat.value, s.lon.value)) <= radius ==>
              multiset(r.value)[f] == multiset(s.gdf.value)[f]
    ensures r.Success? ==> IsSubseq(r.value, s.gdf.value)
  {
    if s.lat.None? || s.lon.None? || s.gdf.None? then Failure(DataNotRetrieved)
    else Success(WithinRadius(o, s.gdf.value, GeoPoint(s.lat.value, s.lon.value), radius))
  }

  /** Reading a dataset into a session whose coordinates are set makes
      `nearby_data` succeed. */
  lemma ReadThenNearby(o: Oracle, s: Session, t: Table, radius: real)
    requires s.lat.Some? && s.lon.Some?
    requires "geom" in t.header
    ensures ReadData(s, t).Success?
    ensures NearbyData(o, ReadData(s, t).value, radius).Success?
  {
  }

  /** Python truthiness of an optional coordinate: `None` and `0.0` are false. */
  predicate Truthy(c: Option<real>)
  {
    c.Some? && c.value != 0.0
  }

  /** `fetch_obstacles`: raises unless both coordinates are truthy, so a
      coordinate of exactly 0 counts as unset; otherwise the fetched
      buildings minus every one that meets the store point. */
  function FetchObstacles(o: Oracle, s: Session, fetched: seq<Shape>): (r: Result<Session>)
    ensures r.Failure? <==> s.lat.None? || s.lon.None? || s.lat.value == 0.0 || s.lon.value == 0.0
    ensures r.Failure? ==> r.error == CoordinatesNotSet
    ensures r.Success? ==> r.value.lat == s.lat && r.value.lon == s.lon && r.value.gdf == s.gdf
    ensures r.Success? ==> forall k :: 0 <= k < |r.value.obstacles| ==>
              !o.covers(r.value.obstacles[k], GeoPoint(s.lat.value, s.lon.value))
    ensures r.Success? ==> forall k ::
              (0 <= k < |fetched| && !o.covers(fetched[k], GeoPoint(s.lat.value, s.lon.value))) ==>
              fetched[k] in r.value.obstacles
    ensures r.Success? ==> IsSubseq(r.value.obstacles, fetched)
    ensures r.Success? ==>
              |r.value.obstacles| + Count(fetched, Covering(o, GeoPoint(s.lat.value, s.lon.value))) == |fetched|
  {
    if !Truthy(s.lat) || !Truthy(s.lon) then Failure(CoordinatesNotSet)
    else
      var store := GeoPoint(s.lat.value, s.lon.value);
      Success(s.(obstacles := ExcludeStoreBuilding(o, fetched, store)))
  }

  /** `is_point_visible`: the sightline from the store to the sample meets
      none of the obstacles grown by 10 cm. */
  function IsPointVisible(o: Oracle, store: Point, sample: Point, obstacles: seq<Shape>): (r: bool)
    ensures r <==> forall k :: 0 <= k < |obstacles| ==> !o.blocks(store, sample, obstacles[k], 0.1)
  {
    Visible(o, store, sample, obstacles, Tolerance)
  }

  /** The truncation reducer for one road segment: the line through its
      visible samples, in sample order, when more than one sample is
      visible; nothing otherwise. */
  function Truncate(o: Oracle, store: Point, obstacles: seq<Shape>, n: int, segment: Feature)
    : (r: Option<seq<Point>>)
    requires n > 0
    ensures r.Some? <==> (exists i, j ::
              && 0 <= i < j <= n
              && IsPointVisible(o, store, SamplePoint(o, segment.path, i, n), obstacles)
              && IsPointVisible(o, store, SamplePoint(o, segment.path, j, n), obstacles))
    ensures r.Some? ==> |r.value| >= 2
    ensures r.Some? ==>
              r.value == SamplePoints(o, segment.path, VisibleIndices(o, store, segment.path, obstacles, Tolerance, n), n)
  {
    var idx := VisibleIndices(o, store, segment.path, obstacles, Tolerance, n);
    assert |idx| > 1 ==> idx[0] < idx[1] && idx[0] in idx && idx[1] in idx;
    assert |idx| <= 1 ==> forall i, j :: i in idx && j in idx ==> i == j;
    if |idx| > 1 then Some(SamplePoints(o, segment.path, idx, n)) else None
  }

  function Truncation(o: Oracle, store: Point, obstacles: seq<Shape>, n: int): Feature -> Option<seq<Point>>
    requires n > 0
  {
    seg => Truncate(o, store, obstacles, n, seg)
  }

  /** `filter_visible_segments` (`num_samples` defaults to 50): one
      truncated line per road segment that has more than one visible
      sample, in segment order. The first sample of the first segment
      divides by `num_samples`, so `num_samples == 0` raises unless there
      are no segments; a negative `num_samples` samples nothing and keeps
      nothing. */
  function FilterVisibleSegments(o: Oracle, segments: seq<Feature>, store: Point, obstacles: seq<Shape>, n: int)
    : (r: Result<seq<seq<Point>>>)
    ensures r.Failure? <==> n == 0 && |segments| > 0
    ensures r.Failure? ==> r.error == DivisionByZero
    ensures n < 0 ==> r == Success([])
    ensures r.Success? ==> |r.value| <= |segments|
    ensures r.Success? ==> forall k :: 0 <= k < |r.value| ==> |r.value[k]| >= 2
    ensures n > 0 ==> r.Success? && |r.value| == |Filter(segments, Defined(Truncation(o, store, obstacles, n)))|
    ensures n > 0 ==> forall k :: 0 <= k < |r.value| ==>
              Truncate(o, store, obstacles, n, Filter(segments, Defined(Truncation(o, store, obstacles, n)))[k])
              == Some(r.value[k])
  {
    if |segments| == 0 then Success([])
    else if n == 0 then Failure(DivisionByZero)
    else if n < 0 then Success([])
    else
      var f := Truncation(o, store, obstacles, n);
      var lines := FilterMap(segments, f);
      FilterMapAligned(segments, f);
      assert forall k :: 0 <= k < |lines| ==> |lines[k]| >= 2 by {
        forall k | 0 <= k < |lines|
          ensures |lines[k]| >= 2
        {
          var q := Filter(segments, Defined(f));
          assert f(q[k]) == Some(lines[k]);
        }
      }
      Success(lines)
  }

  /** With no obstacles every road segment is kept whole: each yields the
      line through all `n + 1` of its samples. */
  lemma NoObstaclesKeepsEverySegment(o: Oracle, segments: seq<Feature>, store: Point, n: int)
    requires n > 0
    ensures FilterVisibleSegments(o, segments, store, [], n).Success?
    ensures |FilterVisibleSegments(o, segments, store, [], n).value| == |segments|
    ensures forall k :: 0 <= k < |segments| ==>
              FilterVisibleSegments(o, segments, store, [], n).value[k]
              == SamplePoints(o, segments[k].path, Range(0, n + 1), n)
  {
    var f := Truncation(o, store, [], n);
    forall k | 0 <= k < |segments|
      ensures f(segments[k]) == Some(SamplePoints(o, segments[k].path, Range(0, n + 1), n))
    {
      AllVisibleWithoutObstacles(o, store, segments[k].path, Tolerance, n);
    }
    FilterAll(segments, Defined(f));
    FilterMapAligned(segments, f);
  }
}
