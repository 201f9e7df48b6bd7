/** The two selections made before any sightline is traced: the features
    near the store, and the obstacles that are not the store's own building. */
module Selection {
  import opened Seqs
  import opened Geometry

  /** `gdf.geometry.distance(store) <= radius` as a predicate on features. */
  function Near(o: Oracle, store: Point, radius: real): Feature -> bool
  {
    (f: Feature) => o.distance(f.path, store) <= radius
  }

  /** `gdf[gdf.geometry.distance(store) <= radius]`: the features within
      `radius` of the store, the bound included, in dataset order. */
  function WithinRadius(o: Oracle, features: seq<Feature>, store: Point, radius: real): (r: seq<Feature>)
    ensures forall k :: 0 <= k < |r| ==> o.distance(r[k].path, store) <= radius
    ensures forall k :: 0 <= k < |features| && o.distance(features[k].path, store) <= radius ==>
              features[k] in r
    ensures forall f: Feature :: o.distance(f.path, store) <= radius ==> multiset(r)[f] == multiset(features)[f]
    ensures forall f :: f in r ==> f in features
    ensures IsSubseq(r, features)
  {
    var r := Filter(features, Near(o, store, radius));
    FilterMultiset(features, Near(o, store, radius));
    FilterSubseq(features, Near(o, store, radius));
    forall f | f in r
      ensures f in features
    {
      assert multiset(r)[f] > 0;
    }
    r
  }

  /** Widening the radius never loses a feature: the features within a
      smaller radius are exactly those of the wider selection that lie
      within the smaller one. */
  lemma WithinRadiusMonotone(o: Oracle, features: seq<Feature>, store: Point, r1: real, r2: real)
    requires r1 <= r2
    ensures Filter(WithinRadius(o, features, store, r2), Near(o, store, r1))
            == WithinRadius(o, features, store, r1)
  {
    FilterNarrow(features, Near(o, store, r1), Near(o, store, r2));
  }

  /** `obstacle.intersects(store)` as a predicate on shapes. */
  function Covering(o: Oracle, store: Point): Shape -> bool
  {
    s => o.covers(s, store)
  }

  /** The store-building mask `obstacles[~obstacles.intersects(store)]`:
      every obstacle that meets the store point is dropped, every other one
      is kept, in fetch order; kept and dropped account for every obstacle. */
  function ExcludeStoreBuilding(o: Oracle, fetched: seq<Shape>, store: Point): (r: seq<Shape>)
    ensures forall k :: 0 <= k < |r| ==> !o.covers(r[k], store)
    ensures forall k :: 0 <= k < |fetched| && !o.covers(fetched[k], store) ==> fetched[k] in r
    ensures forall s :: s in r ==> s in fetched
    ensures IsSubseq(r, fetched)
    ensures |r| + Count(fetched, Covering(o, store)) == |fetched|
  {
    var r := Filter(fetched, Negate(Covering(o, store)));
    FilterPartition(fetched, Covering(o, store));
    FilterMultiset(fetched, Negate(Covering(o, store)));
    FilterSubseq(fetched, Negate(Covering(o, store)));
    forall s | s in r
      ensures s in fetched
    {
      assert multiset(r)[s] > 0;
    }
    r
  }

  /** The mask is idempotent: excluding again removes nothing more. */
  lemma ExcludeStoreBuildingIdempotent(o: Oracle, fetched: seq<Shape>, store: Point)
    ensures ExcludeStoreBuilding(o, ExcludeStoreBuilding(o, fetched, store), store)
            == ExcludeStoreBuilding(o, fetched, store)
  {
    var p := Negate(Covering(o, store));
    FilterNarrow(fetched, p, p);
  }
}
