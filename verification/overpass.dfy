/** Decoding of an Overpass API answer that has already been received.

    The answer is a list of elements. A `node` carries an id, a position and
    optional tags; a `way` carries the ids of its nodes (`out body`) or the
    positions of its nodes (`out geom`). The HTTP request itself is not part
    of this model: the decoders take the status code and element list. */
module Overpass {
  import opened Common
  import opened Seqs
  import opened Geometry

  /** One entry of a way's `geometry` list. */
  datatype GeoNode = GeoNode(lat: real, lon: real)

  /** An element of `data["elements"]`, by its `type`. A node without
      `tags` has the empty map. */
  datatype Element =
    | Node(id: int, lat: real, lon: real, tags: map<string, string>)
    | Way(id: int, nodes: Option<seq<int>>, geometry: Option<seq<GeoNode>>)
    | Other(kind: string)

  datatype Response = Response(status: int, elements: seq<Element>)

  /** Which coordinate a decoded point stores first. */
  datatype AxisOrder =
    | LatLon  // `(lat, lon)`: latitude in `x`
    | LonLat  // `(lon, lat)`: longitude in `x`, as `GeoPoint` does

  function Place(lat: real, lon: real, order: AxisOrder): (p: Point)
    ensures order == LonLat ==> p == GeoPoint(lat, lon)
    ensures order == LatLon ==> p.x == lat && p.y == lon
  {
    match order
    case LatLon => Point(lat, lon)
    case LonLat => Point(lon, lat)
  }

  /** `elements[k]` is a node with id `id` and no later element is. */
  ghost predicate LastNodeWithId(elements: seq<Element>, k: int, id: int)
    requires 0 <= k < |elements|
  {
    && elements[k].Node?
    && elements[k].id == id
    && forall j :: k < j < |elements| ==> !(elements[j].Node? && elements[j].id == id)
  }

  /** Some element of `elements` is a node with id `id`. */
  ghost predicate HasNode(elements: seq<Element>, id: int)
  {
    exists k :: 0 <= k < |elements| && elements[k].Node? && elements[k].id == id
  }

  /** `m` binds exactly the node ids of `elements`, each to the position of
      the last node carrying it. */
  ghost predicate IsNodeTable(elements: seq<Element>, order: AxisOrder, m: map<int, Point>)
  {
    && (forall id :: id in m <==> HasNode(elements, id))
    && (forall k, id :: 0 <= k < |elements| && LastNodeWithId(elements, k, id) ==>
          id in m && m[id] == Place(elements[k].lat, elements[k].lon, order))
  }

  /** `{node["id"]: (node["lat"], node["lon"]) for node in elements if
      node["type"] == "node"}`: the ids of all nodes, each bound to the
      position of the last node carrying it (a later key overwrites an
      earlier one in a dict comprehension). */
  function NodeTable(elements: seq<Element>, order: AxisOrder): (m: map<int, Point>)
    ensures IsNodeTable(elements, order, m)
    decreases |elements|
  {
    if |elements| == 0 then map[]
    else
      var init := elements[..|elements| - 1];
      var last := elements[|elements| - 1];
      var m := NodeTable(init, order);
      var m' := if last.Node? then m[last.id := Place(last.lat, last.lon, order)] else m;
      NodeTableStep(elements, order, m, m');
      m'
  }

  /** Adding the last element to the table of all the others. */
  lemma NodeTableStep(elements: seq<Element>, order: AxisOrder, m: map<int, Point>, m': map<int, Point>)
    requires |elements| > 0
    requires IsNodeTable(elements[..|elements| - 1], order, m)
    requires var last := elements[|elements| - 1];
             m' == if last.Node? then m[last.id := Place(last.lat, last.lon, order)] else m
    ensures IsNodeTable(elements, order, m')
  {
    var init := elements[..|elements| - 1];
    var n := |elements| - 1;
    var last := elements[n];
    assert forall k :: 0 <= k < |init| ==> init[k] == elements[k];
    forall id
      ensures id in m' <==> HasNode(elements, id)
    {
      if HasNode(init, id) {
        var k :| 0 <= k < |init| && init[k].Node? && init[k].id == id;
        assert elements[k] == init[k];
      }
      if HasNode(elements, id) && !(last.Node? && last.id == id) {
        var k :| 0 <= k < |elements| && elements[k].Node? && elements[k].id == id;
        assert k < n;
        assert init[k] == elements[k];
      }
    }
    forall k, id | 0 <= k < |elements| && LastNodeWithId(elements, k, id)
      ensures id in m' && m'[id] == Place(elements[k].lat, elements[k].lon, order)
    {
      if k < n {
        assert !(last.Node? && last.id == id);
        assert LastNodeWithId(init, k, id);
      }
    }
  }

  function Lookup(table: map<int, Point>): int -> Option<Point>
  {
    id => if id in table then Some(table[id]) else None
  }

  function Known(table: map<int, Point>): int -> bool
  {
    id => id in table
  }

  /** `[nodes[i] for i in ids if i in nodes]`: the known ids resolved, in
      order; unknown ids are dropped without notice. */
  function Resolve(ids: seq<int>, table: map<int, Point>): (r: seq<Point>)
    ensures |r| == |Filter(ids, Known(table))|
    ensures forall k :: 0 <= k < |r| ==>
              Filter(ids, Known(table))[k] in table && r[k] == table[Filter(ids, Known(table))[k]]
    ensures (forall k :: 0 <= k < |ids| ==> ids[k] !in table) ==> r == []
  {
    FilterMapAligned(ids, Lookup(table));
    FilterCongruent(ids, Known(table), Defined(Lookup(table)));
    FilterMap(ids, Lookup(table))
  }

  /** The building a way with `nodes` becomes: the polygon through its
      resolved nodes, or nothing when none resolves. */
  function BuildingOf(table: map<int, Point>, e: Element): (r: Option<Shape>)
    ensures r.Some? <==> e.Way? && e.nodes.Some? && exists k :: 0 <= k < |e.nodes.value| && e.nodes.value[k] in table
    ensures r.Some? ==> r.value == Polygon(Resolve(e.nodes.value, table))
  {
    if e.Way? && e.nodes.Some? then
      var coords := Resolve(e.nodes.value, table);
      if |coords| > 0 then
        assert Filter(e.nodes.value, Known(table))[0] in e.nodes.value;
        Some(Polygon(coords))
      else
        None
    else None
  }

  /** `element.get("tags", {}).get("natural") == "tree"` on a node. */
  predicate IsTree(e: Element)
  {
    e.Node? && "natural" in e.tags && e.tags["natural"] == "tree"
  }

  /** The tree a node tagged `natural=tree` becomes: a point at its position. */
  function TreeOf(order: AxisOrder, e: Element): (r: Option<Shape>)
    ensures r.Some? <==> IsTree(e)
    ensures r.Some? ==> r.value == PointShape(Place(e.lat, e.lon, order))
  {
    if IsTree(e) then Some(PointShape(Place(e.lat, e.lon, order))) else None
  }

  function BuildingFrom(table: map<int, Point>): Element -> Option<Shape>
  {
    e => BuildingOf(table, e)
  }

  function TreeFrom(order: AxisOrder): Element -> Option<Shape>
  {
    e => TreeOf(order, e)
  }

  /** The buildings of the decoding loop: the k-th is the building of the
      k-th element that yields one. */
  function Buildings(elements: seq<Element>, order: AxisOrder): (r: seq<Shape>)
    ensures Aligned(Filter(elements, Defined(BuildingFrom(NodeTable(elements, order)))), r,
                    BuildingFrom(NodeTable(elements, order)))
  {
    FilterMapAligned(elements, BuildingFrom(NodeTable(elements, order)));
    FilterMap(elements, BuildingFrom(NodeTable(elements, order)))
  }

  /** The trees of the decoding loop: the k-th is the tree of the k-th
      tree node. */
  function Trees(elements: seq<Element>, order: AxisOrder): (r: seq<Shape>)
    ensures Aligned(Filter(elements, IsTree), r, TreeFrom(order))
  {
    FilterMapAligned(elements, TreeFrom(order));
    FilterCongruent(elements, IsTree, Defined(TreeFrom(order)));
    FilterMap(elements, TreeFrom(order))
  }

  /** `r` is the buildings of `elements` followed by its trees. */
  ghost predicate BuildingsThenTrees(r: seq<Shape>, elements: seq<Element>, order: AxisOrder)
  {
    && |Buildings(elements, order)| <= |r|
    && r[..|Buildings(elements, order)|] == Buildings(elements, order)
    && r[|Buildings(elements, order)|..] == Trees(elements, order)
  }

  /** The loop of `get_obstructions` and the concatenation after it: all
      buildings, in element order, followed by all trees, in element order. */
  function Obstructions(elements: seq<Element>, order: AxisOrder): (r: seq<Shape>)
    ensures |r| == |Buildings(elements, order)| + |Trees(elements, order)|
    ensures forall k :: 0 <= k < |Buildings(elements, order)| ==> r[k].Polygon?
    ensures forall k :: |Buildings(elements, order)| <= k < |r| ==> r[k].PointShape?
    ensures BuildingsThenTrees(r, elements, order)
  {
    BuildingsArePolygons(elements, order);
    TreesArePoints(elements, order);
    Buildings(elements, order) + Trees(elements, order)
  }

  lemma BuildingsArePolygons(elements: seq<Element>, order: AxisOrder)
    ensures forall k :: 0 <= k < |Buildings(elements, order)| ==> Buildings(elements, order)[k].Polygon?
  {
    var f := BuildingFrom(NodeTable(elements, order));
    var b := FilterMap(elements, f);
    FilterMapAligned(elements, f);
    var q := Filter(elements, Defined(f));
    forall k | 0 <= k < |b|
      ensures b[k].Polygon?
    {
      assert f(q[k]) == Some(b[k]);
    }
  }

  lemma TreesArePoints(elements: seq<Element>, order: AxisOrder)
    ensures forall k :: 0 <= k < |Trees(elements, order)| ==> Trees(elements, order)[k].PointShape?
  {
    var f := TreeFrom(order);
    var t := FilterMap(elements, f);
    FilterMapAligned(elements, f);
    var q := Filter(elements, Defined(f));
    forall k | 0 <= k < |t|
      ensures t[k].PointShape?
    {
      assert f(q[k]) == Some(t[k]);
    }
  }

  predicate IsWay(e: Element)
  {
    e.Way?
  }

  /** Buildings come only from ways, trees only from tree nodes: there are
      at most as many buildings as ways and exactly as many trees as tree
      nodes. */
  lemma ObstructionCounts(elements: seq<Element>, order: AxisOrder)
    ensures |Buildings(elements, order)| <= Count(elements, IsWay)
    ensures |Trees(elements, order)| == Count(elements, IsTree)
    ensures |Obstructions(elements, order)| <= Count(elements, IsWay) + Count(elements, IsTree)
  {
    FilterMapBound(elements, BuildingFrom(NodeTable(elements, order)), IsWay);
    FilterMapAligned(elements, TreeFrom(order));
    FilterPartition(elements, Defined(TreeFrom(order)));
    CountCongruent(elements, Defined(TreeFrom(order)), IsTree);
  }

  /** `[(node["lon"], node["lat"]) for node in element["geometry"]]`. */
  function LineOf(e: Element): (r: Option<seq<Point>>)
    ensures r.Some? <==> e.Way? && e.geometry.Some?
    ensures r.Some? ==> |r.value| == |e.geometry.value|
    ensures r.Some? ==> forall k :: 0 <= k < |r.value| ==>
              r.value[k] == GeoPoint(e.geometry.value[k].lat, e.geometry.value[k].lon)
  {
    if e.Way? && e.geometry.Some? then
      var g := e.geometry.value;
      Some(seq(|g|, k requires 0 <= k < |g| => GeoPoint(g[k].lat, g[k].lon)))
    else None
  }

  /** The decoding in `fetch_street_segments`: on status 200, one line per
      element that has a `geometry`, in element order; any other status
      gives no lines. */
  function StreetSegments(response: Response): (r: seq<seq<Point>>)
    ensures response.status != 200 ==> r == []
    ensures response.status == 200 ==>
              |r| == |Filter(response.elements, Defined(LineOf))|
    ensures response.status == 200 ==> forall k :: 0 <= k < |r| ==>
              LineOf(Filter(response.elements, Defined(LineOf))[k]) == Some(r[k])
  {
    if response.status == 200 then
      FilterMapAligned(response.elements, LineOf);
      FilterMap(response.elements, LineOf)
    else []
  }
}
