/** Planar geometry as seen by the visibility engine.

    The source delegates every geometric computation to a geometry library
    after projecting to Web Mercator (EPSG:3857). Those computations are
    floating-point library calls, so here they are the fields of an
    `Oracle`: total functions the rest of the model is parameterised by,
    each understood to work in the projected plane, in metres, except
    `covers`, which the source applies to unprojected shapes. */
module Geometry {

  /** A coordinate pair as the geometry library stores it: `x` first. Which
      of longitude or latitude sits in `x` is decided by the caller; the
      source is not consistent about it (see module Overpass). */
  datatype Point = Point(x: real, y: real)

  /** A geographic position as the source builds it for the store,
      `Point(longitude, latitude)`: longitude in `x`, as EPSG:4326 is read
      by the geometry library. */
  function GeoPoint(lat: real, lon: real): (p: Point)
    ensures p.x == lon && p.y == lat
  {
    Point(lon, lat)
  }

  /** An obstacle geometry: a building footprint or a tree. */
  datatype Shape =
    | Polygon(ring: seq<Point>)
    | PointShape(at: Point)

  /** A row of the traffic dataset: its polyline and its other columns. */
  datatype Feature = Feature(path: seq<Point>, columns: map<string, string>)

  datatype Oracle = Oracle(
    /** Minimum planar distance from a polyline to a point. */
    distance: (seq<Point>, Point) -> real,
    /** `shape.intersects(point)`, on the unprojected EPSG:4326 shapes and
        store point, as the store-building masks call it. */
    covers: (Shape, Point) -> bool,
    /** `line.interpolate(t, normalized=True)`: the point a fraction `t` of
        the way along a polyline. */
    interpolate: (seq<Point>, real) -> Point,
    /** `LineString([a, b]).intersects(shape.buffer(tolerance))`, where a
        tolerance of 0 stands for the unbuffered shape. */
    blocks: (Point, Point, Shape, real) -> bool,
    /** `LineString(points).length`. */
    length: seq<Point> -> real
  )

  /** Lengths are never negative. */
  ghost predicate LengthsNonNegative(o: Oracle)
  {
    forall pts :: o.length(pts) >= 0.0
  }

  /** A sightline that meets a shape also meets that shape grown by
      `tolerance`: buffering can only block more. */
  ghost predicate BufferMonotone(o: Oracle, tolerance: real)
  {
    forall a, b, s :: o.blocks(a, b, s, 0.0) ==> o.blocks(a, b, s, tolerance)
  }

  /** `not any(sightline.intersects(obs.buffer(tolerance)) for obs in obstacles)`:
      no obstacle, grown by `tolerance`, meets the sightline from `store` to `p`. */
  function Visible(o: Oracle, store: Point, p: Point, obstacles: seq<Shape>, tolerance: real): (r: bool)
    ensures r <==> forall k :: 0 <= k < |obstacles| ==> !o.blocks(store, p, obstacles[k], tolerance)
  {
    if |obstacles| == 0 then true
    else !o.blocks(store, p, obstacles[0], tolerance) && Visible(o, store, p, obstacles[1..], tolerance)
  }

  /** Removing the buffer never hides a point that was visible with it. */
  lemma VisibleUnbuffered(o: Oracle, store: Point, p: Point, obstacles: seq<Shape>, tolerance: real)
    requires BufferMonotone(o, tolerance)
    requires Visible(o, store, p, obstacles, tolerance)
    ensures Visible(o, store, p, obstacles, 0.0)
  {
  }
}
