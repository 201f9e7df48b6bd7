/** The `StoreVisibility` class of aStoreVisualizer.py: the earlier script
    that selects nearby road segments and decodes nearby buildings and trees
    from an Overpass answer. Unlike module Traffic, its guards print and
    return `None` instead of raising. */
module StoreVisibility {
  import opened Common
  import opened Seqs
  import opened Geometry
  import opened Selection
  import opened Overpass

  /** The fields of a `StoreVisibility` object that the modelled methods read. */
  datatype Session = Session(lat: Option<real>, lon: Option<real>, gdf: Option<seq<Feature>>)

  /** `nearby_data`: `None` unless the store coordinates and the dataset are
      all set; otherwise the features within `radius` metres of the store,
      bound included, in dataset order. */
  function NearbyData(o: Oracle, s: Session, radius: real): (r: Option<seq<Feature>>)
    ensures r.None? <==> s.lat.None? || s.lon.None? || s.gdf.None?
    ensures r.Some? ==> forall k :: 0 <= k < |r.value| ==>
              o.distance(r.value[k].path, GeoPoint(s.lat.value, s.lon.value)) <= radius
    ensures r.Some? ==> forall k ::
              (0 <= k < |s.gdf.value| &&
               o.distance(s.gdf.value[k].path, GeoPoint(s.lat.value, s.lon.value)) <= radius) ==>
              s.gdf.value[k] in r.value
    ensures r.Some? ==> forall f: Feature ::
              o.distance(f.path, GeoPoint(s.lat.value, s.lon.value)) <= radius ==>
              multiset(r.value)[f] == multiset(s.gdf.value)[f]
    ensures r.Some? ==> IsSubseq(r.value, s.gdf.value)
  {
    if s.lat.None? || s.lon.None? || s.gdf.None? then None
    else Some(WithinRadius(o, s.gdf.value, GeoPoint(s.lat.value, s.lon.value), radius))
  }

  /** `get_obstructions` as written: positions decoded as `(lat, lon)`. */
  function GetObstructionsAsWritten(s: Session, elements: seq<Element>): (r: Option<seq<Shape>>)
    ensures r.None? <==> s.lat.None? || s.lon.None?
    ensures r.Some? ==> forall k :: 0 <= k < |elements| && IsTree(elements[k]) ==>
              PointShape(Point(elements[k].lat, elements[k].lon)) in r.value
    ensures r.Some? ==> BuildingsThenTrees(r.value, elements, LatLon)
  {
    if s.lat.None? || s.lon.None? then None
    else
      TreesPlaced(elements, LatLon);
      Some(Obstructions(elements, LatLon))
  }

  /** A tree node at latitude 40.72, longitude -73.99 shows the swap: as
      written its point has `x = 40.72`, which in the EPSG:4326 frame the
      obstacles are declared in is longitude 40.72, not the node's
      longitude -73.99. */
  lemma AxisOrderCounterexample()
    ensures var tree := Node(1, 40.72, -73.99, map["natural" := "tree"]);
            var s := Session(Some(40.72), Some(-73.99), None);
            && GetObstructionsAsWritten(s, [tree]) == Some([PointShape(Point(40.72, -73.99))])
            && GetObstructionsAsWritten(s, [tree]).value[0].at != GeoPoint(40.72, -73.99)
  {
    var tree := Node(1, 40.72, -73.99, map["natural" := "tree"]);
    var table := NodeTable([tree], LatLon);
    assert BuildingOf(table, tree).None?;
    assert Filter([tree], Defined(BuildingFrom(table))) == [];
    assert Buildings([tree], LatLon) == [];
    assert IsTree(tree);
    assert Filter([tree], IsTree) == [tree];
    assert Trees([tree], LatLon) == [PointShape(Point(40.72, -73.99))];
    assert Obstructions([tree], LatLon) == [PointShape(Point(40.72, -73.99))];
    var s := Session(Some(40.72), Some(-73.99), None);
    assert GetObstructionsAsWritten(s, [tree]) == Some([PointShape(Point(40.72, -73.99))]);
  }

  /** `get_obstructions` with positions decoded as `(lon, lat)`, the order
      the store point and the declared EPSG:4326 frame use: `None` when the
      store coordinates are unset; otherwise every building followed by
      every tree, each tree at its node's position. */
  function GetObstructions(s: Session, elements: seq<Element>): (r: Option<seq<Shape>>)
    ensures r.None? <==> s.lat.None? || s.lon.None?
    ensures r.Some? ==> |r.value| == |Buildings(elements, LonLat)| + |Trees(elements, LonLat)|
    ensures r.Some? ==> forall k :: 0 <= k < |Buildings(elements, LonLat)| ==> r.value[k].Polygon?
    ensures r.Some? ==> forall k :: |Buildings(elements, LonLat)| <= k < |r.value| ==> r.value[k].PointShape?
    ensures r.Some? ==> forall k :: 0 <= k < |elements| && IsTree(elements[k]) ==>
              PointShape(GeoPoint(elements[k].lat, elements[k].lon)) in r.value
    ensures r.Some? ==> BuildingsThenTrees(r.value, elements, LonLat)
  {
    if s.lat.None? || s.lon.None? then None
    else
      TreesPlaced(elements, LonLat);
      Some(Obstructions(elements, LonLat))
  }

  /** Every tree node appears among the decoded obstructions, placed in the
      given axis order. */
  lemma TreesPlaced(elements: seq<Element>, order: AxisOrder)
    ensures forall k :: 0 <= k < |elements| && IsTree(elements[k]) ==>
              PointShape(Place(elements[k].lat, elements[k].lon, order)) in Obstructions(elements, order)
  {
    forall k | 0 <= k < |elements| && IsTree(elements[k])
      ensures PointShape(Place(elements[k].lat, elements[k].lon, order)) in Obstructions(elements, order)
    {
      TreePlaced(elements, order, k);
    }
  }

  lemma TreePlaced(elements: seq<Element>, order: AxisOrder, k: int)
    requires 0 <= k < |elements| && IsTree(elements[k])
    ensures PointShape(Place(elements[k].lat, elements[k].lon, order)) in Obstructions(elements, order)
  {
    TreeInTrees(elements, order, k);
    InAppendRight(Buildings(elements, order), Trees(elements, order),
                  PointShape(Place(elements[k].lat, elements[k].lon, order)));
  }

  lemma TreeInTrees(elements: seq<Element>, order: AxisOrder, k: int)
    requires 0 <= k < |elements| && IsTree(elements[k])
    ensures PointShape(Place(elements[k].lat, elements[k].lon, order)) in Trees(elements, order)
  {
    var e := elements[k];
    var q := Filter(elements, IsTree);
    var t := Trees(elements, order);
    assert e in q;
    var j :| 0 <= j < |q| && q[j] == e;
    assert TreeFrom(order)(q[j]) == Some(t[j]);
  }

  /** `p` is the `(lon, lat)` position of some node of the answer. */
  ghost predicate IsNodePosition(elements: seq<Element>, p: Point)
  {
    exists j :: 0 <= j < |elements| && elements[j].Node? && p == GeoPoint(elements[j].lat, elements[j].lon)
  }

  /** Every building vertex is the position of a node of the answer, in the
      `(lon, lat)` order. */
  lemma BuildingVerticesAreNodes(elements: seq<Element>)
    ensures forall k, v ::
              (0 <= k < |Buildings(elements, LonLat)| && Buildings(elements, LonLat)[k].Polygon? &&
               0 <= v < |Buildings(elements, LonLat)[k].ring|) ==>
              IsNodePosition(elements, Buildings(elements, LonLat)[k].ring[v])
  {
    var table := NodeTable(elements, LonLat);
    var b := Buildings(elements, LonLat);
    var q := Filter(elements, Defined(BuildingFrom(table)));
    forall k, v | 0 <= k < |b| && b[k].Polygon? && 0 <= v < |b[k].ring|
      ensures IsNodePosition(elements, b[k].ring[v])
    {
      assert BuildingOf(table, q[k]) == Some(b[k]);
      BuildingVertexIsNode(elements, q[k], b[k], v);
    }
  }

  /** A vertex of the building an element decodes to is a node position. */
  lemma BuildingVertexIsNode(elements: seq<Element>, e: Element, building: Shape, v: int)
    requires BuildingOf(NodeTable(elements, LonLat), e) == Some(building)
    requires building.Polygon? && 0 <= v < |building.ring|
    ensures IsNodePosition(elements, building.ring[v])
  {
    var table := NodeTable(elements, LonLat);
    var id := Filter(e.nodes.value, Known(table))[v];
    assert building.ring[v] == table[id];
    TableEntryIsNode(elements, table, id);
  }

  /** Every entry of the node table is the position of a node of the answer. */
  lemma TableEntryIsNode(elements: seq<Element>, table: map<int, Point>, id: int)
    requires IsNodeTable(elements, LonLat, table) && id in table
    ensures IsNodePosition(elements, table[id])
  {
    assert HasNode(elements, id);
    var j :| 0 <= j < |elements| && elements[j].Node? && elements[j].id == id;
    var last := LastNode(elements, id, j);
    assert table[id] == Place(elements[last].lat, elements[last].lon, LonLat);
  }

  /** The last node with `id`, given any node with it. */
  lemma LastNode(elements: seq<Element>, id: int, j: int) returns (k: int)
    requires 0 <= j < |elements| && elements[j].Node? && elements[j].id == id
    ensures 0 <= k < |elements| && LastNodeWithId(elements, k, id)
    decreases |elements| - j
  {
    if forall i :: j < i < |elements| ==> !(elements[i].Node? && elements[i].id == id) {
      k := j;
    } else {
      var i :| j < i < |elements| && elements[i].Node? && elements[i].id == id;
      k := LastNode(elements, id, i);
    }
  }
}
