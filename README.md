# Map helpers of the rental app's contact screen

This project models the map logic of the mobile contact screen
(`mobile/screens/ContactScreen.tsx`) and proves properties about it. That
logic has three parts:

- **Grid clustering** (`calculateClusters`). Each marker is filed under the 2-degree grid cell
  `(floor(longitude / 2), floor(latitude / 2))`. The cell's key in a plain object is `${gridX}-${gridY}`.
  A new key gets count 1 and the marker's position. A known key gets `count++`, and its centre
  moves by the incremental mean. The published clusters are `Object.values` of that object.
- **Nearby search** (the `filter`/`map`/`filter`/`sort` chain of `handleCalloutPress`). It drops the
  pressed marker by object identity and attaches to every other marker its distance from the pressed
  one. It then keeps those within the search radius and sorts them nearest first.
- **Cluster colour** (`getClusterColor`): three fill colours by marker count.

Modules:

- `Markers` (markers.dfy): the marker record.
- `GridKey` (grid_key.dfy): the template-string key, with a parser that inverts it.
- `Clustering` (clustering.dfy): the specification of the clusters, the loop of
  `calculateClusters` as an imperative method proved against it, and the lemmas about it.
- `Nearby` (nearby.dfy): the nearby pipeline as functions, and its lemmas.
- `ClusterStyle` (cluster_color.dfy): the colour bands.

Coordinates are exact `real`s. The haversine distance is the parameter
`dist: (real, real, real, real) -> real`, called as `calculateDistance(lat1, lon1, lat2, lon2)`.
A list element's identity is its position in the marker list. This assumes that the marker list never
holds the same object at two positions: if it did, `m !== marker` would drop every one of them, while
the model drops only the pressed position. A `Reference` is either
`Element(k)`, the k-th list element (a pin's callout), or `Detached(copy)`. A `Detached` reference is
an entry of an earlier nearby list; line 252 passes such an entry back into `handleCalloutPress`.
The spread copy `{ ...m, distance }` is a `NearbyResult`. Its `from` field records which list element
was copied. The JavaScript object has no such field: `from` exists so that identity can be stated.

`Object.values` yields the clusters in the order in which their cells first occur among the markers.
It lists non-index keys in insertion order, and a key `${x}-${y}` always holds a `-` after its first
character, so it is never an array index (`GridKey.KeyIsNotArrayIndex`).

## Model

| member | source | states |
|---|---|---|
| `GridKey.KeyRoundTrip` | mobile/screens/ContactScreen.tsx:63 | Parsing the key `${x}-${y}` gives back (x, y) for every pair of integers, negative ones included. |
| `GridKey.KeyInjective` | mobile/screens/ContactScreen.tsx:63 | Two cells have the same key exactly when both coordinates agree. |
| `GridKey.IntToStringRoundTrip` | mobile/screens/ContactScreen.tsx:63 | The integer printed into the key (a sign for negatives, then digits) reads back as the same integer. |
| `GridKey.Key` | mobile/screens/ContactScreen.tsx:63 | The key `${x}-${y}` of a cell; `GridKey.KeyRoundTrip` proves that `ParseKey` inverts it. |
| `GridKey.KeyIsNotArrayIndex` | mobile/screens/ContactScreen.tsx:78 | No key is an all-digit string, so `Object.values` lists the clusters in key insertion order. |
| `Clustering.CellOf` | mobile/screens/ContactScreen.tsx:61-62 | The cell (floor(longitude / 2), floor(latitude / 2)) of a marker; `Clustering.CellBounds` proves the marker lies inside it. |
| `Clustering.CellBounds` | mobile/screens/ContactScreen.tsx:61-62 | A marker lies in its cell: 2·gridX ≤ longitude < 2·(gridX+1), and likewise for latitude. |
| `Clustering.CalculateClusters` | mobile/screens/ContactScreen.tsx:56-79 | The loop over the markers with its key table yields exactly `Clusters(markers)`: one cluster per occupied cell, in first-occurrence order, each with its marker count and mean position. |
| `Clustering.TabulatedClusters` | mobile/screens/ContactScreen.tsx:78 | Reading the table's values in key insertion order gives the specified clusters. |
| `Clustering.TabulateNewCell` | mobile/screens/ContactScreen.tsx:65-70 | A marker whose key is not in the table adds that key at the end, with count 1 at the marker's position; the loop invariant is kept. |
| `Clustering.TabulateKnownCell` | mobile/screens/ContactScreen.tsx:71-75 | A marker whose key is known updates only that entry, by count + 1 and the incremental mean; the loop invariant is kept. |
| `Clustering.CellKeyInjective` | mobile/screens/ContactScreen.tsx:61-63 | Distinct cells never share a table entry. |
| `Clustering.Absorb` | mobile/screens/ContactScreen.tsx:72-74 | The update of a known entry: count + 1, then lat and lng by `(old·(count−1) + new) / count`; `Clustering.RunningMean` proves it yields the mean with one more marker. |
| `Clustering.RunningMean` | mobile/screens/ContactScreen.tsx:72-74 | The incremental update `(lat·(count−1) + x) / count` turns the mean of a cell's markers into the mean with one more marker. |
| `Clustering.FirstInCell` | mobile/screens/ContactScreen.tsx:66-70 | The first marker of a cell gives count 1 at exactly its own position. |
| `Clustering.OtherCellsUnchanged` | mobile/screens/ContactScreen.tsx:71-74 | A marker changes no other cell's cluster. |
| `Clustering.OccupiedCounts` | mobile/screens/ContactScreen.tsx:60-76 | The cluster cells are exactly the cells with at least one marker, each listed once. |
| `Clustering.OccupiedByMarkers` | mobile/screens/ContactScreen.tsx:60-65 | Every marker's cell has a cluster, and every cluster's cell holds some marker. |
| `Clustering.CountsAddUp` | mobile/screens/ContactScreen.tsx:60-76 | The cluster counts add up to the number of markers. |
| `Clustering.ClustersNonEmpty` | mobile/screens/ContactScreen.tsx:58-78 | Every cluster count is at least 1, and there are no clusters exactly when there are no markers. |
| `Clustering.ClusterOf` | mobile/screens/ContactScreen.tsx:61-65 | Every marker is counted in a cluster whose cell is that marker's cell. |
| `Clustering.SameClusterIff` | mobile/screens/ContactScreen.tsx:61-65 | Two markers share a cluster exactly when both their floor(lon/2) and their floor(lat/2) agree. |
| `Clustering.ExactlyOneCluster` | mobile/screens/ContactScreen.tsx:61-65 | Each marker is counted in exactly one cluster: the cluster `ClusterOf` gives it is the only one whose cell is the marker's cell. |
| `Clustering.SingleMarkerCluster` | mobile/screens/ContactScreen.tsx:66-70 | A cluster of one marker sits exactly on that marker's coordinates. |
| `Clustering.CentroidInCell` | mobile/screens/ContactScreen.tsx:61-74 | Every cluster centre lies in the grid cell of its key: 2·gridX ≤ lng < 2·(gridX+1) and 2·gridY ≤ lat < 2·(gridY+1). |
| `Clustering.FirstOccurrenceOrder` | mobile/screens/ContactScreen.tsx:63-78 | Of two clusters, the earlier one's cell first occurs earlier among the markers. |
| `Clustering.SumsPermutation` | mobile/screens/ContactScreen.tsx:60-76 | Reading the same markers in another order gives every cell the same count and coordinate sums. |
| `Clustering.SummaryPermutation` | mobile/screens/ContactScreen.tsx:66-74 | A cell's cluster, count and centroid, does not depend on the order in which its markers are accumulated. |
| `Clustering.TwoCellExample` | mobile/screens/ContactScreen.tsx:56-79 | Markers at (0,0), (0,1) and (10,10) make two clusters: count 2 centred at (0, 0.5), then count 1 at (10, 10). |
| `Nearby.Others` | mobile/screens/ContactScreen.tsx:95 | `filter(m => m !== marker)` keeps, in list order, every position that is not the reference element. |
| `Nearby.Measured` | mobile/screens/ContactScreen.tsx:96-104 | The copy `{ ...m, distance }` of element k, with `calculateDistance(marker.latitude, marker.longitude, m.latitude, m.longitude)`; `Nearby.WithDistancesMembers` and `Nearby.NearbyMembers` state where it appears. |
| `Nearby.WithDistances` | mobile/screens/ContactScreen.tsx:96-104 | The `map` step over the kept positions; `Nearby.WithDistancesMembers` proves it holds each kept element once, in list order, with its distance. |
| `Nearby.WithDistancesMembers` | mobile/screens/ContactScreen.tsx:96-104 | After the `map` step, each remaining element appears once as a copy carrying its distance from the reference, in list order. |
| `Nearby.WithinRadius` | mobile/screens/ContactScreen.tsx:105 | The radius filter keeps exactly the entries with distance ≤ radius, in their order. |
| `Nearby.SortByDistance` | mobile/screens/ContactScreen.tsx:106 | The sort is a permutation of its input. |
| `Nearby.SortOrdered` | mobile/screens/ContactScreen.tsx:106 | The sort orders by distance, and ties keep list order, as a stable sort does. |
| `Nearby.NearbyLocations` | mobile/screens/ContactScreen.tsx:94-106 | The whole filter/map/filter/sort chain; `Nearby.NearbyMembers`, `Nearby.NearbyOnce` and `Nearby.NearbySorted` pin its result down exactly. |
| `Nearby.NearbyMembers` | mobile/screens/ContactScreen.tsx:92-106 | The nearby list holds exactly the other markers within the radius, each with its distance from the reference. |
| `Nearby.NearbyOnce` | mobile/screens/ContactScreen.tsx:94-106 | Each qualifying marker occurs exactly once and nothing else occurs: none is dropped or duplicated. |
| `Nearby.NearbySorted` | mobile/screens/ContactScreen.tsx:106 | The nearby list is non-decreasing in distance, and markers at equal distance keep list order. |
| `Nearby.ElementExcluded` | mobile/screens/ContactScreen.tsx:94-105 | A pressed pin's own element never appears, and every entry is within the radius. |
| `Nearby.DetachedExcludesNothing` | mobile/screens/ContactScreen.tsx:95-97 | A reference that is a copy excludes nothing: every element within the radius of the copy is listed. |
| `Nearby.ReselectedMarkerReappears` | mobile/screens/ContactScreen.tsx:252 | Pressing an entry of the nearby list lists that entry's own marker again at distance 0, given a non-negative radius and a distance that is zero between identical points. |
| `ClusterStyle.ClusterColor` | mobile/screens/ContactScreen.tsx:118-122 | Red exactly when count > 10, orange exactly when 5 < count ≤ 10, green exactly when count ≤ 5: each count gets exactly one colour. |
| `ClusterStyle.ColorMonotone` | mobile/screens/ContactScreen.tsx:118-122 | A larger count never gets a lower density colour. |

## Left out

- `calculateDistance` (mobile/screens/ContactScreen.tsx:81-90): the haversine formula is floating-point trigonometry. It is the parameter `dist`. The symmetry of `dist` and its zero on identical points are not proved; `Nearby.ReselectedMarkerReappears` takes the zero as a hypothesis.
- IEEE-754 doubles: coordinates and means are exact reals. The rounding of the incremental mean, `NaN`/`Infinity` coordinates and `-0` are not modelled.
- Printing a number in the key: `IntToString` prints plain decimal digits. JavaScript's exponent notation for integers of magnitude 10^21 and above is not modelled; grid indices from degree coordinates stay far below that.
- `Clustering.CalculateClusters`: each table entry is an object that the source changes in place (`count++`, reassigned `lat`/`lng`). The model replaces it with a new value under the same key. No entry escapes before `Object.values`, so no aliasing can be observed. The entry update of lines 72-74 is the function `Absorb`, which the loop calls.
- `Nearby.NearbyLocations`: the `NearbyResult` objects are values, so identity between two copies is not modelled. Identity with list elements is modelled through positions. The result records the copied element's position in `from`, which the JavaScript object does not hold.
- `Nearby.SortByDistance`: a stable insertion sort stands for `Array.prototype.sort`, whose comparator `a.distance - b.distance` on finite numbers orders by distance; ECMAScript 2019 requires the sort to be stable.
- React state and lifecycle: `setClusters`, `setNearbyLocations`, `setSelectedLocation`, `useEffect`/focus handling and the language load through `UserService`/i18n (lines 14-45). Results are returned instead of stored. `searchRadius` is a parameter; the source's state starts it at 1 km, and its input field is commented out.
- Map animation (`animateToRegion`, lines 110-115), `toggleDistanceMeasurement` (lines 124-137, which only stores one distance for display), and all rendering and styles.
- The marker asset (`../assets/markers`) is not part of this model: markers are an input sequence.
- The web frontend's sign-in page, route table and footer: navigation and remote calls without logic of their own.
