# Marker clustering of the event map, modelled in Dafny

The event app's map screen shows one pin per event. When the user pans or
zooms, `onRegionChangeComplete` re-clusters the original, unclustered marker
list for the new visible region (pages/MapScreen.js:132-135). The clustering
function `clusterMarkers` (pages/MapScreen.js:63-106) works as follows:

- It derives a radius `threshold = latitudeDelta * 10` in kilometres.
- It walks the markers in input order. Each marker not yet processed becomes
  a seed and is marked processed.
- For each seed, it walks the whole list again. Every other unprocessed
  marker whose great-circle distance to the seed is strictly below the
  threshold joins the seed's group and is marked processed.
- A group of two or more markers becomes a cluster record. The record holds
  the members' mean latitude, their mean longitude, their count and the
  members themselves. A group of one is emitted as the original marker.

This project models that function and proves what it guarantees.

| file | module | contents |
|---|---|---|
| `indices.dfy` | `Indices` | Index lists: flattening, picking elements by position, increasing lists, the list `0..n-1`. |
| `markers.dfy` | `Markers` | Markers, regions, display items, the threshold rule, the strict nearness test, coordinate sums and mean bounds. |
| `greedy.dfy` | `GreedyReference` | An independent worklist statement of the grouping. The first remaining index seeds a group, and the rest split into absorbed and leftover. Facts proved about it: partition, order, proximity, maximality. |
| `clustering.dfy` | `Clustering` | The two loops as functions (`Scan` for the inner walk, `Sweep` for the outer walk) threading the processed set as the source does. Also `Emit`, `ClusterMarkers`, and the proof that the loops build the worklist groups. |
| `loops.dfy` | `ClusterLoop` | The same pass written as two nested `while` loops over a mutable processed set, proved equal to `ClusterMarkers`. |
| `properties.dfy` | `ClusterProperties` | The guarantees, stated over the output of `ClusterMarkers`. |
| `scenarios.dfy` | `Scenarios` | Concrete passes with a Manhattan stand-in distance. |

Representation choices:

- The distance `calculateDistance` is a parameter `dist` of type
  `(lat1, lon1, lat2, lon2) -> real`. Nothing is assumed about its values: not
  symmetry, not non-negativity, not that it is zero on equal points. Every
  general lemma therefore holds for the haversine formula of
  pages/MapScreen.js:52-60 as well as for any other distance.
- Coordinates, the threshold and the means are exact `real`s.
- A marker's other fields are an opaque payload `P`.
- A group is a list of input indices, as the source's `processed` set of
  indices suggests. An item's members are recovered with `Pick`.

Two points where a plain-language reading of this function and its code
part ways. The model follows the code in both:

- Nearness is strict (`distance < threshold`, pages/MapScreen.js:84). Two
  markers at exactly the threshold distance stay apart
  (`Scenarios.ThresholdIsStrict`). With a zero latitude span, even two
  markers at the same point stay apart (`Scenarios.CoincidentZeroSpan`).
- Widening the region does not necessarily merge more markers. The grouping
  is seeded greedily, so a larger threshold can let an early seed take a
  marker that would otherwise have seeded a bigger group.
  `Scenarios.WideningCanMergeFewer` shows four markers where a span of 0.12
  puts 3 markers into clusters and a span of 0.16 only 2. This is how the
  code behaves, not a defect in it.

## Model

| member | source | states |
|---|---|---|
| Clustering.GroupIndicesIsGreedy | pages/MapScreen.js:68-89 | The groups built by the two loops sharing one processed set are exactly those of the worklist formulation: seed with the first unprocessed index, absorb every remaining index near the seed, repeat with the rest. |
| Clustering.ScanIsSplit | pages/MapScreen.js:76-88 | The inner walk appends to the seed's group exactly the unprocessed indices near the seed, in input order. What it leaves unprocessed is exactly the unprocessed indices not near the seed. |
| Clustering.SeedStep | pages/MapScreen.js:70-76 | When the outer walk reaches an unprocessed index, that index is the first unprocessed one. Its group is the seed followed by what the inner walk absorbs, and afterwards every index up to the seed is processed. |
| Clustering.SweepIsGreedy | pages/MapScreen.js:70-103 | From any point of the outer walk where all earlier indices are processed, the groups still to come are the worklist groups of the unprocessed indices. |
| ClusterLoop.Gather | pages/MapScreen.js:73-89 | The inner loop, with its mutable cluster list and processed set, returns the group the inner walk describes. The cluster list holds exactly the markers at the group's positions, and it starts with the seed. |
| ClusterLoop.Summarise | pages/MapScreen.js:91-102 | The item built from a finished cluster list is the one Emit defines for its group: a cluster record with the mean position when more than one marker was gathered, and the seed marker itself, as a single, exactly when only one was. |
| ClusterLoop.ClusterLoop | pages/MapScreen.js:63-106 | The nested loops with a mutable processed set, a growing cluster and a growing output list return exactly the display items of ClusterMarkers. |
| ClusterProperties.IndexPartition | pages/MapScreen.js:68-89 | Every input index lands in exactly one group: the multiset of all indices over all groups is exactly the multiset of 0..n-1, so no marker is lost or duplicated. |
| ClusterProperties.Provenance | pages/MapScreen.js:85-101 | There is one item per group. A cluster's member list, or a single's marker, is the input markers at its group's positions in the group's order. Concatenating all items' members gives the input picked by the concatenated groups. |
| ClusterProperties.ClusterSize | pages/MapScreen.js:91-102 | An item is a cluster exactly when its group has at least two members. A cluster's count equals its member-list length and is at least 2. A group of one is emitted as that input marker itself. |
| ClusterProperties.SeedProximity | pages/MapScreen.js:73-85 | A group's first index is its seed. Every other member is strictly nearer to the seed than the threshold, both as indices and as the cluster's member markers. |
| ClusterProperties.GreedyMaximality | pages/MapScreen.js:71-88 | For any index other than the seed, membership in a group holds if and only if the index was not placed in an earlier group and is near that group's seed. |
| ClusterProperties.MembersAreNewAndNear | pages/MapScreen.js:77-86 | A non-seed member of a group is a valid index, was not placed in an earlier group, and is near the seed. |
| ClusterProperties.NewAndNearAreMembers | pages/MapScreen.js:76-88 | Any index not placed in an earlier group and near a group's seed is in that group, so nothing eligible is left for later seeds. |
| ClusterProperties.NotPlacedEarlier | pages/MapScreen.js:71-77 | In a partition of 0..n-1, an index of group q occurs in no earlier group, as the processed checks ensure. |
| ClusterProperties.SeedIsLeast | pages/MapScreen.js:70-74 | A group's seed is the smallest index not placed in an earlier group. |
| ClusterProperties.Ordering | pages/MapScreen.js:70-94 | Each group lists its indices in increasing order, with the seed first. Every member of a later group has a larger index than an earlier group's seed. Seeds, and hence output items, appear in increasing input order. |
| ClusterProperties.Centroid | pages/MapScreen.js:92-98 | A cluster's latitude is the left-to-right sum of its members' latitudes divided by their count, and likewise its longitude, computed separately. The count is the member-list length and is positive. |
| ClusterProperties.CentroidWithinMembers | pages/MapScreen.js:92-93 | A cluster's position lies within any latitude and longitude bounds that hold for all its members. |
| ClusterProperties.Bounds | pages/MapScreen.js:64-105 | The output is never longer than the input, and it is empty exactly when the input is. |
| ClusterProperties.NoMergeWhenNoPairNear | pages/MapScreen.js:84-102 | The output has as many items as there are markers if and only if no marker is near any later marker. In that case the output is every input marker as a single, in input order. |
| ClusterProperties.SeparatedIsNoPairNear | pages/MapScreen.js:84 | Over the full index list, the worklist's "no seed absorbs anything" condition coincides with "no marker is near a later one". |
| ClusterProperties.SinglesWhenSeparated | pages/MapScreen.js:100-102 | With no pair near, the output is every input marker, unchanged and in order. |
| ClusterProperties.ZeroSpanNoMerge | pages/MapScreen.js:65-84 | With a latitude span of zero or less and a distance that is never negative, nothing merges and the output is all singles in input order. |
| GreedyReference.GreedyPartition | pages/MapScreen.js:71-86 | The worklist groups hold, as a multiset, exactly the work list. |
| GreedyReference.SplitIsPermutation | pages/MapScreen.js:77-87 | Absorbed and leftover indices together are a permutation of the remaining ones. |
| GreedyReference.SplitKeepsOrder | pages/MapScreen.js:76 | Absorbed and leftover indices keep the input order of the remaining ones. |
| GreedyReference.NothingAbsorbed | pages/MapScreen.js:84-87 | A seed absorbs nothing if and only if everything remaining is left over. |
| GreedyReference.GreedyProximity | pages/MapScreen.js:78-85 | Every non-seed member of a worklist group is near that group's seed. |
| GreedyReference.GreedyMaximal | pages/MapScreen.js:76-88 | A work index not in an earlier group and near a group's seed is in that group. |
| GreedyReference.GreedySeedIsLeast | pages/MapScreen.js:70-74 | On an increasing work list, a group's seed is the least work index not in an earlier group. |
| GreedyReference.GreedyGroupsIncreasing | pages/MapScreen.js:76-85 | On an increasing work list, every group is increasing. |
| GreedyReference.GreedySeedsPrecedeLaterGroups | pages/MapScreen.js:70-76 | On an increasing work list, each group's seed is smaller than every member of every later group. |
| GreedyReference.GreedyAllSingles | pages/MapScreen.js:91-102 | The number of groups equals the length of the work list if and only if no work index is near a later one. |
| GreedyReference.GreedySinglesInOrder | pages/MapScreen.js:100-102 | With no work index near a later one, every index forms its own group, in order. |
| Markers.MeanLatWithin | pages/MapScreen.js:92 | The mean latitude of a non-empty list lies between any lower and upper bound on its latitudes. |
| Markers.MeanLonWithin | pages/MapScreen.js:93 | The mean longitude of a non-empty list lies between any lower and upper bound on its longitudes. |
| Scenarios.SeedNotChain | pages/MapScreen.js:78-85 | On A=(0,0), B=(1,0), C=(2,0) with a threshold of 1.5, B and C are near each other. Still, C is not drawn into A's group: the output is the cluster {A,B} at (0.5,0) followed by C alone. |
| Scenarios.ThresholdIsStrict | pages/MapScreen.js:84 | Two markers at exactly the threshold distance stay two singles. |
| Scenarios.CoincidentZeroSpan | pages/MapScreen.js:65-84 | Two markers at the same point with a zero latitude span stay two singles. |
| Scenarios.NarrowCross | pages/MapScreen.js:63-106 | Four markers at a span of 0.12 give a lone first marker and a cluster of the other three at (0,0). |
| Scenarios.WideCross | pages/MapScreen.js:63-106 | The same four markers at a span of 0.16 give a cluster of the first two at (0.75,0) and two singles. |
| Scenarios.WideningCanMergeFewer | pages/MapScreen.js:65-91 | A wider region can put fewer markers into clusters: 3 at span 0.12, 2 at span 0.16. |

## Left out

- `calculateDistance` (pages/MapScreen.js:52-60) is a parameter, not a definition. Its trigonometry on floating point is not modelled, and no property of the haversine formula is used.
- Floating point: coordinates, the threshold `latitudeDelta * 10` and the means are exact reals. The source's IEEE doubles round each addition and division, and NaN coordinates are not modelled.
- Centroid: states the mean with exact real arithmetic. The source's value is the rounded double result of the same left-to-right sum and division.
- The JavaScript objects are not modelled as such. A cluster record `{latitude, longitude, count, markers}` is the `Cluster` constructor. Emitting "the original marker object" is `Single` holding the input marker value; object identity has no counterpart.
- That the input is not modified and that re-clustering starts afresh from `originalMarkers` (pages/MapScreen.js:21, 44, 134) hold by construction: every operation is a pure function of its arguments, and the mutable set in `ClusterLoop` is local.
- React state, location permission and GPS, the API fetch and `Promise.all`, the modal and marker rendering (pages/MapScreen.js:10-49, 108-226): user interface and asynchronous I/O.
- Other files of the app (event DAO, chat bot, notifications, other screens and components, configuration): they contain no clustering logic.
