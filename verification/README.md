# StoreVisualizer visibility engine in Dafny

This project models the visibility policy engine of StoreVisualizer, a set of
Python scripts that estimate how visible a storefront is from the roads and
footways around it. The engine does four things:

- It selects road segments near the store from a traffic dataset.
- It removes the store's own building from the obstacles fetched from
  OpenStreetMap.
- It samples each linear feature at `num_samples + 1` evenly spaced points and
  tests the sightline from the store to each point. Each script reduces the
  visible samples in its own way:
  - the traffic script keeps a truncated line when more than one sample is
    visible;
  - the sidewalk script makes a buffered pass, then falls back to an
    unbuffered one.
- It turns the visible footway lengths into a pedestrian exposure score.

The model also covers three other pieces:

- decoding of Overpass API answers into buildings, trees and footway lines;
- the earlier `StoreVisibility` script, which returns `None` where the later
  code raises;
- the `extract_state` token scan over a postal address.

Geometry is not computed. Projection to Web Mercator and the geometry
library's `distance`, `intersects`, `interpolate`, `buffer` and `length` are
fields of an `Oracle` value (module `Geometry`) that every operation takes as a
parameter. Network answers are parameters too:

- the buildings `osmnx` returned;
- the Overpass element lists;
- the HTTP status codes.

The modules follow the source:

- `Common`: `Option`, `Result` and the error kinds: a missing column, unset
  data, unset coordinates, a division by zero, an unbound `state`, and a
  line built from a single point.
- `Seqs`: a stable filter, a filter-map and `range`, with the lemmas the
  reducers share.
- `Geometry`: points, shapes, features, the oracle, and the sightline test.
- `Selection`: the radius filter and the store-building mask.
- `Sampling`: the sample parameters `i / n` and the visible sample indices.
- `Traffic`: the `TrafficVisibility` class of traffic_visibility.py.
- `Sidewalk`: the `SidewalkVisibility` class of sidewalk_visibility.py.
- `Overpass`: decoding of Overpass elements.
- `StoreVisibility`: the `StoreVisibility` class of aStoreVisualizer.py.
- `Address`: `extract_state` of StoreVisualizer.py.

## Model

| member | source | states |
|---|---|---|
| Traffic.Init | traffic_visibility.py:11-14 | A new object has its coordinates set as given, no dataset, and no obstacles. |
| Traffic.ReadData | traffic_visibility.py:18-28 | Fails with a missing-`geom` error exactly when the CSV header lacks `geom`. Otherwise every row becomes a feature with the parsed path, in row order and with the `geom` column dropped; coordinates and obstacles are unchanged. |
| Traffic.NearbyData | traffic_visibility.py:32-46 | Raises exactly when latitude, longitude or dataset is unset. Otherwise it keeps every feature whose distance to the store is at most the radius (bound included), with all its occurrences, only such features, and in dataset order. |
| Traffic.ReadThenNearby | traffic_visibility.py:22-34 | Once coordinates are set and the CSV has `geom`, reading it makes `nearby_data` succeed. |
| Traffic.FetchObstacles | traffic_visibility.py:49-67 | Raises exactly when a coordinate is unset or equal to 0, because the guard tests truthiness. Otherwise no kept obstacle meets the store point, every fetched obstacle that misses it is kept, in fetch order, kept plus dropped equals the number fetched, and the other fields are unchanged. |
| Traffic.IsPointVisible | traffic_visibility.py:71-73 | A sample is visible iff no obstacle grown by 0.1 meets the sightline from the store. |
| Traffic.Truncate | traffic_visibility.py:86-97 | A segment yields a line iff at least two distinct samples are visible. The line has at least two points: the visible samples in increasing index order. |
| Traffic.FilterVisibleSegments | traffic_visibility.py:77-99 | Fails with division by zero iff `num_samples` is 0 and there is a segment. A negative `num_samples` keeps nothing. Otherwise there is at most one line per segment, in segment order, each the truncation of its segment and each with at least two points. |
| Traffic.NoObstaclesKeepsEverySegment | traffic_visibility.py:86-97 | With no obstacles every segment is kept whole, as the line through all `n + 1` samples. |
| Selection.WithinRadius | traffic_visibility.py:44 | Keeps exactly the features within the radius, bound included: each with all its occurrences, nothing else, as a subsequence of the input. |
| Selection.WithinRadiusMonotone | traffic_visibility.py:44 | Narrowing the radius of a selection gives the same result as selecting with the narrower radius directly. |
| Selection.ExcludeStoreBuilding | traffic_visibility.py:65-66 | No kept obstacle meets the store. Every obstacle that misses it is kept, in order. Kept plus dropped equals the number fetched. |
| Selection.ExcludeStoreBuildingIdempotent | traffic_visibility.py:65-66 | Applying the mask twice removes nothing more. |
| Sampling.Parameters | traffic_visibility.py:90-91 | `num_samples == 0` divides by zero and a negative one visits nothing. Otherwise there are exactly `n + 1` parameters, the k-th being `k / n`: in [0, 1], starting at 0, ending at 1, strictly increasing. |
| Sampling.SampleAtParameter | traffic_visibility.py:90-91 | Sample `i` of `n` is the point the oracle interpolates at the `i`-th parameter the loop visits. |
| Sampling.ParameterIncreasing | traffic_visibility.py:91 | A later sample index has a strictly larger parameter. |
| Sampling.VisibleIndices | traffic_visibility.py:90-93 | An index is in the result iff it is in `0..n` and its sample is visible. The result is strictly increasing and has at most `n + 1` entries. |
| Sampling.AllVisibleWithoutObstacles | traffic_visibility.py:71-73 | With no obstacles every index `0..n` is visible. |
| Sampling.VisibleIndicesUnbuffered | sidewalk_visibility.py:72-101 | If meeting an obstacle implies meeting its buffer, then every sample visible with the buffer is visible without it. |
| Geometry.Visible | traffic_visibility.py:73 | A sightline is clear iff no obstacle grown by the tolerance blocks it. |
| Geometry.VisibleUnbuffered | sidewalk_visibility.py:76-100 | If meeting an obstacle implies meeting its buffer, a sightline clear of buffered obstacles is clear of the bare ones. |
| Sidewalk.FetchObstacles | sidewalk_visibility.py:38-49 | Without any guard: no kept building meets the store point, every other one is kept, in order, and kept plus dropped equals the number fetched. |
| Sidewalk.FetchStreetSegments | sidewalk_visibility.py:22-36 | A non-200 answer gives no lines. On 200, each element with a `geometry` gives one line, in element order, with the nodes in order as `(lon, lat)`. |
| Sidewalk.Pass | sidewalk_visibility.py:72-82 | A pass holds exactly the samples among the 51 that clear the obstacles grown by the tolerance, in increasing order. |
| Sidewalk.PassEmpty | sidewalk_visibility.py:89 | A pass is empty iff no sample clears. |
| Sidewalk.IsSegmentVisible | sidewalk_visibility.py:55-108 | `None` iff both passes are empty. A non-empty buffered pass is returned as it is, even with a single sample. Otherwise the result is the unbuffered pass. |
| Sidewalk.SegmentVisibleSamples | sidewalk_visibility.py:72-108 | `None` iff no sample clears in either pass. Otherwise the result is non-empty and increasing. It is exactly the buffered-clear samples when there are any, and exactly the unbuffered-clear samples when there are not. |
| Sidewalk.FallbackOnlyAdds | sidewalk_visibility.py:76-105 | If buffering only blocks more, a footway is dropped iff no sample clears the bare obstacles, and every buffered-clear sample is in the result. |
| Sidewalk.NoObstaclesAllSamples | sidewalk_visibility.py:72-91 | With no obstacles the first pass returns all 51 samples. |
| Sidewalk.VisibleLength | sidewalk_visibility.py:151-154 | A footway has a length iff `is_segment_visible` finds a visible sample. A single visible sample counts with length 0. Otherwise the length is the oracle's length of the line through the visible samples, and it is non-negative when the length oracle is. |
| Sidewalk.VisibleLengthAsWritten | sidewalk_visibility.py:89-91 | The code as written fails iff the deciding pass kept exactly one sample, because the line is built from a single point. It gives `None` iff no sample is visible. Otherwise the length is that of the line through the visible samples, the same as `VisibleLength`. |
| Sidewalk.SingleSampleCrash | sidewalk_visibility.py:89-91 | A footway from `(0, 0)` to `(1, 0)` is seen from `(0, -1)`, with one point obstacle at `(0.51, 0)`. Grown by 0.5, the obstacle reaches every sample point except the one at `x = 0`. The oracle of the exhibit is chosen to answer just that: it blocks every sightline except the one ending at `x = 0`. The buffered pass then keeps only sample 0. The code as written fails there, while `VisibleLength` gives 0. |
| Sidewalk.VisibleLengths | sidewalk_visibility.py:150-154 | Gives one entry per footway, in order: its `VisibleLength`. |
| Sidewalk.LengthsAsWritten | sidewalk_visibility.py:150-154 | The loop as written fails iff some footway has a single visible sample. Otherwise it gives, in order, each footway's `VisibleLength`. |
| Sidewalk.PedestrianDensity | sidewalk_visibility.py:126-134 | On status 200 the density is the number of elements; on any other status it is 0. |
| Sidewalk.ScaledIsProduct | sidewalk_visibility.py:159 | Adding `t / 10` once per unit of density equals `t * density / 10`. |
| Sidewalk.AccumulateIsScaledTotal | sidewalk_visibility.py:147-159 | The loop's running sum equals the total visible length times the density over 10. |
| Sidewalk.AccumulateAdditive | sidewalk_visibility.py:150-159 | The sum over two lists of footways, one after the other, is the sum of their separate sums. |
| Sidewalk.Score | sidewalk_visibility.py:143-159 | The score is 0 for no footways and 0 for zero density. Otherwise it is the total length times the density over 10, which is non-negative for non-negative lengths. |
| Sidewalk.FootwayLengths | sidewalk_visibility.py:139-155 | Gives one entry per decoded footway: its visible length against the fetched buildings minus the store's own. All entries are non-negative when lengths are. |
| Sidewalk.CalculateVisibilityScore | sidewalk_visibility.py:136-164 | The score is 0 when the footway request fails and 0 when the density request fails. It is never negative for non-negative lengths. It equals the total visible footway length times the density over 10, where a footway with a single visible sample contributes 0. |
| Sidewalk.CalculateVisibilityScoreAsWritten | sidewalk_visibility.py:136-164 | The code as written fails iff some decoded footway has a single visible sample against the fetched buildings minus the store's own. When it does not fail, its score equals `CalculateVisibilityScore`. |
| Overpass.Place | aStoreVisualizer.py:80 | The two axis orders: `(lon, lat)` is the store's `GeoPoint`, and `(lat, lon)` puts latitude in `x`. |
| Overpass.NodeTable | aStoreVisualizer.py:80 | The table binds exactly the node ids of the answer, each to the position of the last node with that id. |
| Overpass.Resolve | aStoreVisualizer.py:87 | Resolves the known ids, in order, to their positions. Unknown ids are dropped, and nothing is known when no id resolves. |
| Overpass.BuildingOf | aStoreVisualizer.py:86-89 | An element is a building iff it is a way with `nodes` of which at least one resolves. The building is the polygon through its resolved nodes. |
| Overpass.TreeOf | aStoreVisualizer.py:90-91 | An element is a tree iff it is a node tagged `natural=tree`; the tree is a point at the node's position. |
| Overpass.Buildings | aStoreVisualizer.py:85-89 | The k-th building is the building of the k-th element that yields one. |
| Overpass.Trees | aStoreVisualizer.py:85-91 | The k-th tree is the tree of the k-th tree node. |
| Overpass.Obstructions | aStoreVisualizer.py:94-98 | The result starts with exactly the buildings of the answer, in element order, and continues with exactly its trees, in element order. The length is buildings plus trees. |
| Overpass.ObstructionCounts | aStoreVisualizer.py:85-98 | There are at most as many buildings as ways and exactly as many trees as tree nodes. |
| Overpass.LineOf | sidewalk_visibility.py:28-29 | A line exists iff the element is a way with a `geometry`. It has one point per geometry entry, `(lon, lat)`. |
| Overpass.StreetSegments | sidewalk_visibility.py:23-31 | A non-200 answer gives nothing. On 200, the k-th line is the line of the k-th element that has a `geometry`. |
| StoreVisibility.NearbyData | aStoreVisualizer.py:42-57 | `None`, not an error, exactly when coordinates or dataset are unset. Otherwise it keeps the features within the radius, bound included, each with all its occurrences, in dataset order. |
| StoreVisibility.GetObstructionsAsWritten | aStoreVisualizer.py:60-101 | `None` exactly when coordinates are unset. Otherwise the result is the buildings then the trees of the answer, decoded with latitude in `x`, and every tree node appears as a point with its latitude in `x`. |
| StoreVisibility.AxisOrderCounterexample | aStoreVisualizer.py:80-91 | For a tree at latitude 40.72, longitude -73.99, the code as written places the point at `x = 40.72`, which is not the tree's geographic position. |
| StoreVisibility.GetObstructions | aStoreVisualizer.py:60-101 | `None` exactly when coordinates are unset. Otherwise the result is the buildings then the trees of the answer, decoded in the store's `(lon, lat)` order, and every tree node appears at its position. |
| StoreVisibility.TreesPlaced | aStoreVisualizer.py:90-98 | Every tree node is among the obstructions, placed in the chosen axis order. |
| StoreVisibility.BuildingVerticesAreNodes | aStoreVisualizer.py:80-89 | Every building vertex is the position of some node of the answer. |
| Address.Split | StoreVisualizer.py:19 | The tokens are non-empty and contain no whitespace. |
| Address.SplitBlank | StoreVisualizer.py:19 | An address splits into no tokens iff it is all whitespace. |
| Address.SplitAtSpace | StoreVisualizer.py:19 | Splitting at any whitespace character gives the tokens before it followed by the tokens after it. |
| Address.SplitDropSpace | StoreVisualizer.py:19 | Leading whitespace does not change the tokens. |
| Address.SplitJoin | StoreVisualizer.py:19 | Splitting tokens joined by single spaces gives back the tokens. |
| Address.FirstQualifying | StoreVisualizer.py:20-23 | Gives the index of the first token with two characters that is upper case, or nothing iff there is none. |
| Address.StateIn | StoreVisualizer.py:18-24 | On success the result is a token of the address. It has two characters, is upper case, and no earlier token qualifies. When no token qualifies, it fails with an unbound `state`. |
| Address.ExtractState | StoreVisualizer.py:18-24 | The loop as written computes `StateIn` of the split address. |
| Address.Scan | StoreVisualizer.py:20-24 | The scan with early exit agrees with `StateIn` on every token list. |
| Address.StateOfJoin | StoreVisualizer.py:19-23 | For tokens joined by spaces, the result is the first qualifying token. |
| Address.PunctuatedCodeSkipped | StoreVisualizer.py:21 | `NY,` never qualifies, and the scan moves past it to the bare code `CA` that follows. |

## Left out

- Geocoding with Nominatim (`coordinates`, `get_coordinates`) is network I/O. Store coordinates are parameters.
- HTTP requests to Overpass and `osmnx` are network I/O. The model takes the answers: status code and element list, or the fetched building shapes.
- Only the `geom` guard of CSV reading with pandas is modelled. Parsing the file and the WKT of `geom` is left out; rows arrive with parsed paths.
- The earlier `read_data` of aStoreVisualizer.py:31-37 is left out. Apart from the `geom` guard it is the same loading step.
- Projection between EPSG:4326 and EPSG:3857 is not modelled, and neither are the round trip `nearby_data` makes back to EPSG:4326 or the floating-point geometry of `distance`, `intersects`, `buffer`, `interpolate` and `length`. These are `Oracle` fields.
- Splitting multipolygons into parts (`explode`) is left out. The fetched shapes are taken as already split.
- `round(..., 2)` at the end of `calculate_visibility_score` is left out: it is float rounding. The model's score is the unrounded real.
- Map rendering (`generate_map`, `show_map`), saving HTML and opening a browser are left out: they are UI.
- The script at aStoreVisualizer.py:179-188 and `main` of StoreVisualizer.py are left out. `main` calls `read_data` with two arguments at StoreVisualizer.py:38, but the `read_data` shown takes one. It also calls `fetch_seasonal_visibility` (StoreVisualizer.py:42) and `calculate_car_traffic` (StoreVisualizer.py:55), which are not part of this model because their definitions are not in the source.
- Sidewalk.IsSegmentVisible: returns the indices of the samples that make up the line, not the line itself. The failure of building a line from exactly one visible sample is modelled one step later, in `VisibleLengthAsWritten`.
- Overpass.BuildingOf: a polygon with fewer than three resolved vertices makes the geometry library raise. The model keeps such polygons.
- Overpass.LineOf: a way whose `geometry` has exactly one entry makes `LineString(coords)` raise at sidewalk_visibility.py:30, so `fetch_street_segments` and `calculate_visibility_score` fail. The model keeps a one-point line instead, and so do `Overpass.StreetSegments` and `Sidewalk.FetchStreetSegments`.
- Address.IsUpper: follows Python's `str.isupper` for ASCII letters only. Other cased characters count as uncased.
- Address.IsSpace: the whitespace set of `str.split()` is listed character by character. Nothing beyond those characters is modelled.
- Overpass.Element: only ways carry a `geometry`, as the footway query (`way[...]`, `out geom`) returns. A node with a `geometry` key is not representable.
- Sidewalk.PedestrianDensity: an answer on status 200 always has an `elements` list. The source's fallback to 0 when the key is missing is not modelled.
- Sidewalk.CalculateVisibilityScore: the source requests the density again for each visible footway, always at the store's position. The model uses one amenities answer for all of them.
- StoreVisibility.GetObstructions: the source decodes the answer without looking at the status code. The model takes the element list directly, so a failed request that breaks JSON decoding is not represented.
- The single-sample failure is named `TooFewPoints`. The exception type the geometry library raises is not modelled.
- The pedestrian density Overpass query is left out: it is request text. Only the count of returned elements matters.

## Findings

| source | as written | input that shows it | evidently intended | confidence | as-written member | corrected member |
|---|---|---|---|---|---|---|
| aStoreVisualizer.py:80-91 | Node positions are stored as `(lat, lon)`. The building polygons and tree points are built from them and declared EPSG:4326, where `x` is longitude. The store point at aStoreVisualizer.py:50 is `(lon, lat)`. | A tree node at latitude 40.72, longitude -73.99 becomes the point `x = 40.72, y = -73.99`. As EPSG:4326 that is longitude 40.72, not the tree. | `(lon, lat)`, the order of the store point and of the footway decoding at sidewalk_visibility.py:29 | high (not executed) | StoreVisibility.GetObstructionsAsWritten, StoreVisibility.AxisOrderCounterexample | StoreVisibility.GetObstructions |
| sidewalk_visibility.py:89-91, 103-105 | The visible sample points are turned into `LineString(visible_points)`. When the deciding pass keeps exactly one sample, that line has a single point and the geometry library raises, so `calculate_visibility_score` fails for the whole store. | A footway whose only clear sightline, with the 0.5 m buffer, is the one to its first sample: the buffered pass keeps `[0]` and returns at line 91. | The comment at sidewalk_visibility.py:152 says one visible point is enough to count the footway; a single point has length 0, so it adds nothing to the score. | high (not executed) | Sidewalk.VisibleLengthAsWritten, Sidewalk.CalculateVisibilityScoreAsWritten, Sidewalk.SingleSampleCrash | Sidewalk.VisibleLength, Sidewalk.CalculateVisibilityScore |
