# lazyman in Dafny

This project models the core of *lazyman*, a heuristic builder of travelling-salesman tours.
The model is written in Dafny.
The program links every point of a map to two neighbours by greedy passes.
It detects the rings (cycles and chains) those links form, and tries to merge the rings into one tour.
The repository holds three generations of the same idea.
The model covers all three:

- the `salesman` packages:
  - the connection registry `Connections`;
  - the link indexes `PointIndexOut` and `PointIndexIn`;
  - the greedy passes `RunIterator` and `ClosedRunIterator`;
  - the bidding helpers of `Runner`;
  - `Bid`, `Ring` and `OpenRing`;
  - the ring-merge step of `RingProcessor`.
- the `lazyman.core` packages:
  - the edge types `Path` and `Path2D`;
  - the neighbour index `DataCache` and `PointVertex`;
  - `Ring`, `ClosedRing` and `RingRoute`;
  - the ring detection of `lazyman/core/Runner`.
- the `lazyman.v2` packages:
  - the point and path model;
  - the registry `Cache`;
  - the passes `L0RunIteration`, `L1RunIteration` and `L2RunIteration`;
  - `RunIteration`;
  - the route helpers `Journey`, `PathRoute` and `Route`;
  - the exhaustive search `RunIteratorV3`.

Modelling choices:

- **Points.** A point is an integer sequence number. The coordinates of a point are a function of its number, so the code's point equality is number equality.
- **Edges.** Every path type has an `Edge(a, b)` of two point numbers.
- **Lengths.** Lengths and scores are reals passed as parameters. This covers distances, elevations, the `compute` scores and the point-in-polygon test. The one exception is the salesman `Path.distance()`, which is a stub answering -1 (`SalesPath.Distance`); the salesman passes still take it as a parameter, and the `Stub…` lemmas say what the stub itself implies.
- **Exceptions.** Java exceptions become a `Result` with an error kind. Where the code keeps the changes made before an exception that its caller swallows, the model returns the partial state with the error.
- **Sorting.** Java's `List.sort` and `Arrays.sort` become one stable insertion sort by a real key, `Order.SortBy`. Each comparator is proved to have the sign of a key difference.
- **Hash iteration order.** Where the code iterates a hash map, the order is a parameter (a sequence of keys).
- **The two `Ring` classes.** The salesman `Ring` (src/main/java/com/codekutter/salesman/core/model/Ring.java:117-225) has the same copy constructor, `add`, `exists`, `validate`, `getPolygon` and `canConnect` as the lazyman one, so one module models both; the table cites the lazyman lines.
- **Point comparison.** `RunIteration.compare` uses the v2 `Point.isEqual` as written. `V2Point.IsEqualIgnoresMissingLink` shows that it is not symmetric, and `V2Point.SameConnections` is a symmetric alternative; the model keeps the written one.
- **The salesman registry.** It is an arena: point numbers map to object references, and references map to `Connection` values. This lets `copy()`, which shares the `Connection` objects, be modelled faithfully.

Modules, one per file:

| file | module | models |
|---|---|---|
| common.dfy | `Common`, `Order` | option/result types, Java's `(int)` cast, comparator steps, the stable sort |
| edges.dfy | `Edges`, `CorePath`, `Path2D`, `V2Path`, `SalesPath` | the four path classes |
| connections.dfy | `SalesConnections` | `Connections` and its `Connection` |
| stores.dfy | `SalesPointIndexOut`, `SalesPointIndexIn`, `SalesDataMap`, `SalesBid` | the salesman link indexes, `TSPDataMap.getKey`/`init`, `Bid` |
| run_iterator.dfy | `SalesRunIterator` | `RunIterator` |
| closed_run_iterator.dfy | `SalesClosedRunIterator` | `ClosedRunIterator` |
| sales_runner.dfy | `SalesRunner` | the bidding helpers of the salesman `Runner` |
| point_vertex.dfy | `PointVertex` | `PointVertex` |
| data_cache.dfy | `CoreDataCache` | `DataCache` |
| v2_point.dfy | `V2Point` | the v2 `Point` |
| v2_cache.dfy | `V2Cache` | the v2 `Cache` |
| v2_world.dfy | `V2World` | the point table the v2 passes share, `RunIteration.isCompleted`/`compare` |
| l0_iteration.dfy, l1_iteration.dfy, l2_iteration.dfy | `L0Iteration`, `L1Iteration`, `L2Iteration` | the three v2 passes |
| v2_journey.dfy, v2_path_route.dfy, v2_route.dfy | `V2Journey`, `V2PathRoute`, `V2Route` | `Journey`, `PathRoute`, `Route` |
| v2_run_iterator_v3.dfy | `V2RunIteratorV3` | `RunIteratorV3` |
| rings.dfy | `Rings` | both `Ring` classes (their logic is the same) |
| ring_route.dfy | `RingRoutes` | `RingRoute` |
| ring_runner.dfy | `CoreRunner` | the ring detection of `lazyman/core/Runner` |
| open_ring.dfy | `OpenRings` | `OpenRing` |
| ring_processor.dfy | `RingProcessor` | the ring-merge step of `RingProcessor` |
| closed_ring.dfy | `ClosedRings` | `ClosedRing` |

## Model

| member | source | states |
|---|---|---|
| Order.NullsLast | src/main/java/com/codekutter/lazyman/core/model/Path.java:246-259 | two nulls tie, a value precedes null, and two values compare with the sign of their key difference |
| Order.NullsLastAntisymmetric | src/main/java/com/codekutter/lazyman/core/model/Path.java:246-259 | swapping the arguments of the nulls-last comparator flips the sign of its answer |
| Order.NullsFirstAntisymmetric | src/main/java/com/codekutter/lazyman/core/model/RingRoute.java:116-133 | swapping the arguments of the nulls-first comparator flips the sign of its answer |
| Order.SortBy | src/main/java/com/codekutter/lazyman/core/model/ClosedRing.java:61-65 | the sort returns a permutation of its input, ordered by ascending key |
| Order.SortByHeadIsFirstLeast | src/main/java/com/codekutter/lazyman/v2/iterators/L2RunIteration.java:77-81 | the sort is stable at the head: the first element is the earliest one of least key, which is the element the code takes after sorting |
| Order.FirstLeastSnoc | src/main/java/com/codekutter/lazyman/core/model/ClosedRing.java:61-65 | appending an element changes the earliest least position only when its key is strictly smaller |
| Common.JavaInt | src/main/java/com/codekutter/lazyman/v2/iterators/L2RunIteration.java:31-42 | Java's `(int)` cast of a double stays in the 32-bit range, is 0 exactly on the open interval (-1, 1), and keeps the sign of a larger magnitude |
| Order.Coarse | src/main/java/com/codekutter/lazyman/v2/model/Point.java:360-369 | the truncated-or-sign answer has the sign of the difference it coarsens |
| Edges.Target | src/main/java/com/codekutter/lazyman/core/model/Path.java:74-90 | `getTarget` is defined exactly on the two endpoints, and the source and the answer are the path's endpoints |
| Edges.ConnectingPoint | src/main/java/com/codekutter/lazyman/core/model/Path.java:92-96 | the answer lies on both paths, is null exactly when they share no endpoint, and prefers the argument's A |
| Edges.SameEdgeIsEndpointMultiset | src/main/java/com/codekutter/lazyman/core/model/Path.java:107-113 | path equality holds exactly when the endpoint multisets are equal |
| Edges.SameEdgeEquivalence | src/main/java/com/codekutter/lazyman/core/model/Path.java:107-113 | path equality is reflexive, symmetric and transitive, and a path equals its reverse |
| Edges.PathKey | src/main/java/com/codekutter/lazyman/core/model/Path.java:115-119 | the key is ordered (lower number first) and holds the two endpoints |
| Edges.PathKeyIdentifiesEdge | src/main/java/com/codekutter/lazyman/core/model/Path.java:115-119 | two paths have the same key exactly when they are equal paths |
| Edges.PathKeySymmetric | src/main/java/com/codekutter/lazyman/core/model/Path.java:115-119 | reversing a path keeps its key |
| CorePath.NewPath | src/main/java/com/codekutter/lazyman/core/model/Path.java:28-33 | the explicit-length constructor sets both lengths to the given value |
| CorePath.SortByLength | src/main/java/com/codekutter/lazyman/core/model/Path.java:246-259 | non-null before null, nulls tie, otherwise the sign of the `actualLength` difference |
| CorePath.SortByLengthAntisymmetric | src/main/java/com/codekutter/lazyman/core/model/Path.java:246-259 | the comparator is antisymmetric in sign |
| Path2D.PointsKey | src/main/java/com/codekutter/lazyman/model/Path2D.java:83-87 | `pathKey(A, B)` is ordered and holds the two points |
| Path2D.PathKeyOverloadsAgree | src/main/java/com/codekutter/lazyman/model/Path2D.java:77-87 | `pathKey(path)` equals `pathKey(A, B)`, which is symmetric in A and B |
| Path2D.SortByLength | src/main/java/com/codekutter/lazyman/model/Path2D.java:137-150 | both comparators put non-null before null and compare by the sign of the length difference |
| V2Path.NewPath | src/main/java/com/codekutter/lazyman/v2/model/Path.java:22-29 | a new path has working length 0 and measured length equal to the endpoint distance |
| V2Path.Target | src/main/java/com/codekutter/lazyman/v2/model/Path.java:65-69 | `target` answers the other endpoint exactly when the source is an endpoint, and throws otherwise |
| V2Path.Compare | src/main/java/com/codekutter/lazyman/v2/model/Point.java:360-369 | `Point.compare` is 0 exactly for equal coordinates |
| V2Path.CompareAntisymmetric | src/main/java/com/codekutter/lazyman/v2/model/Point.java:360-369 | `Point.compare` is antisymmetric in sign |
| V2Path.PathKey | src/main/java/com/codekutter/lazyman/v2/model/Path.java:80-91 | the key holds both endpoints' coordinates, the one with `compare <= 0` first |
| V2Path.PathKeySymmetric | src/main/java/com/codekutter/lazyman/v2/model/Path.java:80-91 | the reversed path has the same key |
| SalesPath.CompareToAlwaysTies | src/main/java/com/codekutter/salesman/core/model/Path.java:38-67 | because `distance()` is constant -1, `compareTo` is 0 for every pair |
| SalesPath.SortByLength | src/main/java/com/codekutter/salesman/core/model/Path.java:125-138 | non-null before null, nulls tie, otherwise the sign of the length difference |
| SalesConnections.CompleteIffNoFree | src/main/java/com/codekutter/salesman/core/model/Connections.java:95-97 | `isComplete` holds exactly when no slot is free |
| SalesConnections.Add | src/main/java/com/codekutter/salesman/core/model/Connections.java:44-60 | succeeds exactly for a path touching the point with a free slot; slot 0 is taken when empty, else slot 1; the other slot is unchanged; a path off the point is IllegalArgument and a full connection is IndexOutOfBounds |
| SalesConnections.AddAt | src/main/java/com/codekutter/salesman/core/model/Connections.java:62-70 | succeeds exactly for a path touching the point and an empty slot 0 or 1, which then holds the path while the other slot is unchanged |
| SalesConnections.Remove | src/main/java/com/codekutter/salesman/core/model/Connections.java:72-86 | succeeds exactly when the path touches the point and is held; the first slot holding it is cleared and its index returned, the other slot is unchanged; otherwise IllegalArgument |
| SalesConnections.AddThenRemove | src/main/java/com/codekutter/salesman/core/model/Connections.java:44-86 | removing a path just added to a connection that did not hold it restores the connection and returns the slot the add used |
| SalesConnections.HasSequence | src/main/java/com/codekutter/salesman/core/model/Connections.java:99-110 | answers a held path touching the sequence exactly when the sequence is not the point's own and some slot reaches it, slot 0 first |
| SalesConnections.Ensure | src/main/java/com/codekutter/salesman/core/model/Connections.java:139-146 | `get(point, true)` registers exactly the new point with an empty connection and changes no registered connection |
| SalesConnections.AddAtPoint | src/main/java/com/codekutter/salesman/core/model/Connections.java:164-171 | the point is registered even when the add then throws; the add succeeds exactly when the path touches the point and a slot is free, and raises the path's count there by one |
| SalesConnections.AddPath | src/main/java/com/codekutter/salesman/core/model/Connections.java:158-171 | `add(path)` succeeds exactly when A has a free slot and B has one after A's update; it records the path once more at both ends and leaves every point off the path alone |
| SalesConnections.RemoveAt | src/main/java/com/codekutter/salesman/core/model/Connections.java:194-206 | `remove(point, path)` succeeds exactly when the path touches the point and both endpoints hold it; it clears it once at each end and leaves every other point alone |
| SalesConnections.RemovePath | src/main/java/com/codekutter/salesman/core/model/Connections.java:173-177 | `remove(path)` is the removal from endpoint A and lowers the path's count at both ends by one |
| SalesConnections.Replace | src/main/java/com/codekutter/salesman/core/model/Connections.java:148-152 | `replace(newp, oldp)` is `remove(oldp)` then `add(newp)`; a failing removal adds nothing |
| SalesConnections.ClosureIffNoFreeSlot | src/main/java/com/codekutter/salesman/core/model/Connections.java:208-214 | `reachedClosure` holds exactly when no registered point has a free slot |
| SalesConnections.CopyStaysIdentical | src/main/java/com/codekutter/salesman/core/model/Connections.java:216-240 | a copy shares the `Connection` objects, so it stays identical to every later state of the registry |
| SalesConnections.AddPathKeepsLinked | src/main/java/com/codekutter/salesman/core/model/Connections.java:158-171 | adding a new path between two points keeps every link recorded at both of its ends |
| SalesConnections.AddPathGains | src/main/java/com/codekutter/salesman/core/model/Connections.java:158-171 | a successful add fills exactly one empty slot at each end with the path |
| SalesConnections.RemoveAtKeepsLinked | src/main/java/com/codekutter/salesman/core/model/Connections.java:194-206 | a successful removal keeps every remaining link recorded at both of its ends |
| SalesPointIndexOut.New | src/main/java/com/codekutter/salesman/core/PointIndexOut.java:30-33 | the constructor succeeds exactly for a positive size |
| SalesPointIndexOut.PutEmpty | src/main/java/com/codekutter/salesman/core/PointIndexOut.java:40-50 | `put(seq)` succeeds exactly for an unseen positive sequence and adds an entry with two empty slots; otherwise IllegalArgument or IndexOutOfBounds |
| SalesPointIndexOut.PutPath | src/main/java/com/codekutter/salesman/core/PointIndexOut.java:52-77 | `put(seq, path)` succeeds exactly for a positive sequence with a free slot; it stores the path's other endpoint in slot 0, else in slot 1, and leaves other entries alone |
| SalesPointIndexOut.RemoveNode | src/main/java/com/codekutter/salesman/core/PointIndexOut.java:89-104 | fails exactly for an unknown point; otherwise clears the first slot naming the neighbour and answers it, or answers null with nothing changed |
| SalesPointIndexOut.Remove | src/main/java/com/codekutter/salesman/core/PointIndexOut.java:79-87 | bad arguments are IllegalArgument with nothing changed; a found link is cleared at `sequence` and then at `target`; a missing link changes nothing |
| SalesPointIndexOut.PutReplace | src/main/java/com/codekutter/salesman/core/PointIndexOut.java:106-146 | `put(seq, replace, path)` creates a missing entry in slot 0, takes a free slot 1, overwrites the slot naming `replace`, and throws in each remaining case, distinguishing the null dereference |
| SalesPointIndexOut.GetPoints | src/main/java/com/codekutter/salesman/core/PointIndexOut.java:148-153 | answers the entry of a known sequence and null otherwise |
| SalesPointIndexOut.PutThenRemoveNode | src/main/java/com/codekutter/salesman/core/PointIndexOut.java:52-104 | removing the neighbour just recorded in a new entry gives back the empty entry |
| SalesPointIndexOut.PutBothThenRemove | src/main/java/com/codekutter/salesman/core/PointIndexOut.java:52-87 | recording a link at both ends and then removing it leaves both entries empty |
| SalesPointIndexIn.New | src/main/java/com/codekutter/salesman/core/PointIndexIn.java:28-31 | the constructor succeeds exactly for a positive size |
| SalesPointIndexIn.Find | src/main/java/com/codekutter/salesman/core/PointIndexIn.java:37-43 | `find` rejects a non-positive sequence and answers the list of a known one, null otherwise |
| SalesPointIndexIn.AddEntry | src/main/java/com/codekutter/salesman/core/PointIndexIn.java:63-74 | the private add appends one entry to the sequence's list, creating it, and leaves other lists alone |
| SalesPointIndexIn.AddRecordsBothDirections | src/main/java/com/codekutter/salesman/core/PointIndexIn.java:58-74 | `add(path)` records exactly one more A-to-B and one more B-to-A entry, and nothing else |
| SalesPointIndexIn.Contains | src/main/java/com/codekutter/salesman/core/PointIndexIn.java:76-89 | the private remove rejects non-positive arguments and otherwise answers whether a matching entry exists |
| SalesPointIndexIn.RemoveAsWritten | src/main/java/com/codekutter/salesman/core/PointIndexIn.java:45-56 | `remove(path)` as written fails exactly when either direction is missing, and otherwise returns the index unchanged |
| SalesPointIndexIn.RemoveAsWrittenKeepsPath | src/main/java/com/codekutter/salesman/core/PointIndexIn.java:45-89 | after adding a path to an empty index, the written removal leaves the non-empty index as it was |
| SalesPointIndexIn.Remove | src/main/java/com/codekutter/salesman/core/PointIndexIn.java:45-56 | the corrected removal fails exactly where the written one does and keeps the index's keys |
| SalesPointIndexIn.AddThenRemove | src/main/java/com/codekutter/salesman/core/PointIndexIn.java:45-74 | the corrected removal undoes an add of a path the index did not hold |
| SalesPointIndexIn.Clear | src/main/java/com/codekutter/salesman/core/PointIndexIn.java:91-101 | `clear` rejects a non-positive sequence, empties a known list and answers true, and answers false with nothing changed for an unknown one |
| SalesDataMap.GetKey | src/main/java/com/codekutter/salesman/core/TSPDataMap.java:53-58 | the key is ordered (smaller number first) and holds the two numbers |
| SalesDataMap.GetKeySymmetric | src/main/java/com/codekutter/salesman/core/TSPDataMap.java:53-58 | `getKey(a, b) == getKey(b, a)`, it agrees with the path key, and `getKey(s, s)` is "s:s" |
| SalesDataMap.GetKeyIdentifiesPair | src/main/java/com/codekutter/salesman/core/TSPDataMap.java:53-58 | two pairs share a key exactly when they are the same two points |
| SalesDataMap.Init | src/main/java/com/codekutter/salesman/core/TSPDataMap.java:35-50 | `init` succeeds exactly for a non-empty name and a positive size, giving `size` empty point slots |
| SalesBid.Add | src/main/java/com/codekutter/salesman/core/model/Bid.java:35-45 | `add` succeeds exactly for a path touching the point; the target's record is created if needed, gets the new elevation and one more bid, and no other record changes |
| SalesBid.ShouldBid | src/main/java/com/codekutter/salesman/core/model/Bid.java:60-69 | `shouldBid` is false exactly when the target has two or more bids and the new elevation is not above the stored one |
| SalesBid.ShouldBidAfterTwo | src/main/java/com/codekutter/salesman/core/model/Bid.java:35-69 | after two bids for a target, a further bid is advised exactly when it is above the last elevation |
| SalesBid.ShouldBidAfterOne | src/main/java/com/codekutter/salesman/core/model/Bid.java:35-69 | after the first bid for a target, a further bid is always advised |
| PointVertex.New | src/main/java/com/codekutter/lazyman/model/PointVertex.java:27-30 | a new vertex has no seeding paths, no connections and zero height and length |
| PointVertex.MinPaths | src/main/java/com/codekutter/lazyman/model/PointVertex.java:32-43 | succeeds exactly when both paths touch the point; they fill both slots, and the returned and stored length is the sum of their lengths |
| PointVertex.AddConnection | src/main/java/com/codekutter/lazyman/model/PointVertex.java:45-63 | with a replacement, succeeds exactly when a slot holds it and overwrites that slot (slot 0 first); without one, fills the first empty slot and fails when both are full |
| PointVertex.RemoveConnection | src/main/java/com/codekutter/lazyman/model/PointVertex.java:65-100 | each overload clears the first matching slot and answers true, or answers false with nothing changed; the by-point overload rejects the vertex's own point |
| PointVertex.AddThenRemove | src/main/java/com/codekutter/lazyman/model/PointVertex.java:45-75 | removing a connection just added to a free slot gives back the vertex |
| PointVertex.SeededDelta | src/main/java/com/codekutter/lazyman/model/PointVertex.java:102-109 | after seeding, `distanceDelta` is how far the two connections' distances exceed the seeding lengths |
| CoreDataCache.GetPath | src/main/java/com/codekutter/lazyman/core/DataCache.java:82-94 | answers a path of a's list touching b, and null exactly when a has no list or no path of it touches b |
| CoreDataCache.GetPaths | src/main/java/com/codekutter/lazyman/core/DataCache.java:96-101 | answers a point's list, and null exactly for an unknown point |
| CoreDataCache.AddPointPath | src/main/java/com/codekutter/lazyman/core/DataCache.java:68-80 | succeeds exactly for a path touching the point; afterwards the point's list reaches the path's far end; no other list changes |
| CoreDataCache.AddPointPathKeepsLists | src/main/java/com/codekutter/lazyman/core/DataCache.java:68-80 | `addPointPath` never gives a point two paths to the same neighbour |
| CoreDataCache.AddPath | src/main/java/com/codekutter/lazyman/core/DataCache.java:49-66 | both endpoints become points, the path is filed under its key, and each endpoint's list reaches the other |
| CoreDataCache.AddPathKeepsLists | src/main/java/com/codekutter/lazyman/core/DataCache.java:49-66 | `addPath` keeps every list free of duplicate neighbours |
| CoreDataCache.Close | src/main/java/com/codekutter/lazyman/core/DataCache.java:173-181 | `close` empties the points, the paths and the lists |
| CoreDataCache.GetVertex | src/main/java/com/codekutter/lazyman/core/DataCache.java:150-157 | `getVertex(point)` answers the stored vertex, creating a new one only for a point without one, and changes no other vertex |
| CoreDataCache.GetTargetVertex | src/main/java/com/codekutter/lazyman/core/DataCache.java:143-148 | `getVertex(point, path)` fails exactly for a path missing the point, and registers the far end's vertex |
| CoreDataCache.Seed | src/main/java/com/codekutter/lazyman/core/DataCache.java:108-139 | one pass of `postLoad` succeeds exactly for a point whose list is ready; its vertex is then seeded from that list and no other vertex changes; each failure has its own error kind |
| CoreDataCache.PostLoadSeeds | src/main/java/com/codekutter/lazyman/core/DataCache.java:103-141 | after `postLoad` every point's list is sorted by length, and its vertex is seeded from the two shortest paths, with the height the next two give |
| CoreDataCache.SeededIsShortestPair | src/main/java/com/codekutter/lazyman/core/DataCache.java:103-141 | the seeded length is the least sum of two lengths over any two positions of the sorted list |
| CoreDataCache.PostLoadNeedsFour | src/main/java/com/codekutter/lazyman/core/DataCache.java:112-128 | on lists built by `addPointPath`, `postLoad` succeeds exactly when every point has at least four neighbours |
| V2Point.New | src/main/java/com/codekutter/lazyman/v2/model/Point.java:28-39 | the constructor succeeds exactly for a non-negative sequence, with both slots empty and an empty table |
| V2Point.Copy | src/main/java/com/codekutter/lazyman/v2/model/Point.java:41-53 | the copy has the same slots and table, but its connect counter restarts at 0 |
| V2Point.Add | src/main/java/com/codekutter/lazyman/v2/model/Point.java:55-58 | `add` succeeds exactly for a path touching the point and files it under the other endpoint's sequence |
| V2Point.ClearConnections | src/main/java/com/codekutter/lazyman/v2/model/Point.java:60-64 | both slots empty and the counter 0, the table unchanged |
| V2Point.HasConnection | src/main/java/com/codekutter/lazyman/v2/model/Point.java:328-340 | for null, whether a slot is free; otherwise whether a slot holds an equal path |
| V2Point.Connect | src/main/java/com/codekutter/lazyman/v2/model/Point.java:66-82 | an equal path already held changes nothing; otherwise slot 0, then slot 1, takes the path and the counter rises by one; a full point throws |
| V2Point.Disconnect | src/main/java/com/codekutter/lazyman/v2/model/Point.java:261-283 | on a point whose slots touch it, succeeds exactly when a slot leads to the target; that slot (slot 0 first) is cleared and the counter falls by one |
| V2Point.Longest | src/main/java/com/codekutter/lazyman/v2/model/Point.java:148-160 | null exactly for an empty point, the only link of a half-full one, and for a full one a link no shorter than the other, slot 1 on a tie |
| V2Point.NextConnection | src/main/java/com/codekutter/lazyman/v2/model/Point.java:166-173 | an occupied slot not equal to the path, slot 0 first, and null exactly when there is none |
| V2Point.LongestThenNextCoverSlots | src/main/java/com/codekutter/lazyman/v2/model/Point.java:148-173 | on a full point the longest link and the link after it are the two slots |
| V2Point.NextConnectionPoint | src/main/java/com/codekutter/lazyman/v2/model/Point.java:175-198 | succeeds exactly when a slot leads to the given point, and answers a different neighbour across the other slot |
| V2Point.NextIsFirstFree | src/main/java/com/codekutter/lazyman/v2/model/Point.java:222-240 | `next(index)` answers the first later position whose neighbour is not joined yet, every position between being joined, and null exactly when there is none |
| V2Point.IsEqualIgnoresMissingLink | src/main/java/com/codekutter/lazyman/v2/model/Point.java:310-326 | a point with one link is `isEqual` to the same point with none, but not the other way round |
| V2Point.SameConnectionsIsEquivalence | src/main/java/com/codekutter/lazyman/v2/model/Point.java:310-326 | the corrected comparison is an equivalence that survives the copy constructor and implies `isEqual` |
| V2Point.CanConnectIsFreeSlot | src/main/java/com/codekutter/lazyman/v2/model/Point.java:285-287 | `canConnect` holds exactly when the point is not fully connected, for itself and for its copy |
| V2Point.ConnectKeepsWellFormed | src/main/java/com/codekutter/lazyman/v2/model/Point.java:66-82 | `connect` keeps the counter equal to the occupied slots and at most 2 |
| V2Point.DisconnectKeepsWellFormed | src/main/java/com/codekutter/lazyman/v2/model/Point.java:261-283 | `disconnect` keeps the counter equal to the occupied slots and lowers it by one |
| V2Point.ConnectThenDisconnect | src/main/java/com/codekutter/lazyman/v2/model/Point.java:66-283 | joining a free point to a new neighbour and detaching that neighbour gives back the point |
| V2Cache.Init | src/main/java/com/codekutter/lazyman/v2/Cache.java:26-46 | `init` fails exactly for a non-positive size; otherwise `size` null index entries and a size x size bid table whose cell [i][j] has sequence j |
| V2Cache.SetThenGetBid | src/main/java/com/codekutter/lazyman/v2/Cache.java:48-58 | a stored bid is read back with its value and target, and every other cell is unchanged |
| V2Cache.AddPoint | src/main/java/com/codekutter/lazyman/v2/Cache.java:60-72 | succeeds exactly for an unloaded sequence inside the index; a negative one is IllegalArgument and a duplicate IllegalState; the key goes to `index[sequence]` |
| V2Cache.Get | src/main/java/com/codekutter/lazyman/v2/Cache.java:74-77 | `get` succeeds exactly inside the index and answers the point filed there |
| V2Cache.AddPath | src/main/java/com/codekutter/lazyman/v2/Cache.java:79-93 | a new path with the given measured length between two loaded points, the index and bids unchanged |
| V2Cache.AddPathFilesBothEnds | src/main/java/com/codekutter/lazyman/v2/Cache.java:79-93 | the path is filed at each endpoint under the other's sequence unless a path was filed already, in which case that point is unchanged |
| V2Cache.GetPath | src/main/java/com/codekutter/lazyman/v2/Cache.java:95-99 | `get(seq1, seq2)` is the path the first point files under the second's sequence |
| V2Cache.RotatedIsPermutation | src/main/java/com/codekutter/lazyman/v2/Cache.java:101-127 | the rotation by `start` is a permutation of the list positions with an explicit inverse |
| V2Cache.PointList | src/main/java/com/codekutter/lazyman/v2/Cache.java:115-127 | for a start inside the list, `pointList` is total, of length `size`, and element i is the point at position (i + start) mod size |
| V2Cache.CopyPoints | src/main/java/com/codekutter/lazyman/v2/Cache.java:101-113 | `copyPoints` lists a copy of each element of `pointList`, and fails exactly when one of them is null |
| V2Cache.PointListIsRotation | src/main/java/com/codekutter/lazyman/v2/Cache.java:101-127 | every position appears in `pointList` exactly once, at its rotated place |
| V2World.Join | src/main/java/com/codekutter/lazyman/v2/iterators/L0RunIteration.java:66-70 | linking a path touching the point holds it at both ends and changes no other point and no table |
| V2World.Detach | src/main/java/com/codekutter/lazyman/v2/iterators/L0RunIteration.java:72-80 | detaching two points changes only those two and no table |
| V2World.JoinKeepsLinked | src/main/java/com/codekutter/lazyman/v2/iterators/L0RunIteration.java:66-70 | linking keeps every link recorded at both of its ends, and a held path changes nothing |
| V2World.DetachDropsLink | src/main/java/com/codekutter/lazyman/v2/iterators/L1RunIteration.java:72-87 | a detach empties, at both points, the slot of one path joining them |
| V2World.DetachKeepsLinked | src/main/java/com/codekutter/lazyman/v2/iterators/L1RunIteration.java:72-87 | detaching keeps every remaining link recorded at both of its ends |
| V2World.DetachJoinDrops | src/main/java/com/codekutter/lazyman/v2/iterators/L2RunIteration.java:151-166 | detaching the incumbent and then linking a different path leaves the incumbent out of the target |
| V2World.CompletedHasTwoNeighbours | src/main/java/com/codekutter/lazyman/v2/RunIteration.java:38-43 | when every point of a linked world is full, each has two distinct registered neighbours other than itself |
| V2World.Compare | src/main/java/com/codekutter/lazyman/v2/RunIteration.java:45-54 | `compare` is true exactly when every listed point `isEqual`s the saved one at its position; a short saved list fails |
| L0Iteration.Connect | src/main/java/com/codekutter/lazyman/v2/iterators/L0RunIteration.java:63-95 | a free target is linked; a full one gives up its longest, else its other, link only when it is strictly longer than the candidate; otherwise false with nothing changed |
| L0Iteration.ConnectKeepsLinked | src/main/java/com/codekutter/lazyman/v2/iterators/L0RunIteration.java:63-95 | `connect` keeps a linked world linked and changes only slots |
| L0Iteration.ConnectHolds | src/main/java/com/codekutter/lazyman/v2/iterators/L0RunIteration.java:63-95 | a true answer leaves the candidate held at both ends |
| L0Iteration.ConnectEvicts | src/main/java/com/codekutter/lazyman/v2/iterators/L0RunIteration.java:72-91 | a true answer for a full target means an incumbent strictly longer than the candidate was given up |
| L0Iteration.LongestIsChallenged | src/main/java/com/codekutter/lazyman/v2/iterators/L0RunIteration.java:72-94 | a full target's decision rests on its longest link alone: no longer than the candidate means false with nothing changed |
| L0Iteration.CheckSlotBound | src/main/java/com/codekutter/lazyman/v2/iterators/L0RunIteration.java:47-61 | after a pass, the slot holds nothing shorter than either nearest path, and the other slot is unchanged |
| L0Iteration.CheckSlotDetaches | src/main/java/com/codekutter/lazyman/v2/iterators/L0RunIteration.java:47-61 | a pass that changes anything detaches the link of that slot at both ends |
| L0Iteration.CheckPointKeepsLinked | src/main/java/com/codekutter/lazyman/v2/iterators/L0RunIteration.java:47-61 | `checkPoint` keeps the world linked and leaves the point only links no shorter than its two nearest paths |
| L0Iteration.AllocateKeepsLinked | src/main/java/com/codekutter/lazyman/v2/iterators/L0RunIteration.java:33-45 | `allocate` keeps a linked world with well-formed tables linked |
| V2World.Pass | src/main/java/com/codekutter/lazyman/v2/iterators/L1RunIteration.java:19-27 | a pass over points all linked on both slots changes nothing, and a listed point that is not registered throws |
| V2World.PassKeepsLinked | src/main/java/com/codekutter/lazyman/v2/iterators/L1RunIteration.java:19-27 | a pass whose `allocate` keeps linked worlds linked over the same tables leaves a linked world linked |
| L0Iteration.RunKeepsLinked | src/main/java/com/codekutter/lazyman/v2/iterators/L0RunIteration.java:23-31 | a whole pass keeps a linked world linked |
| L1Iteration.Check | src/main/java/com/codekutter/lazyman/v2/iterators/L1RunIteration.java:72-87 | the incumbent is evicted and the candidate linked exactly when the candidate's score beats it; otherwise false with nothing changed |
| L1Iteration.CheckKeepsLinked | src/main/java/com/codekutter/lazyman/v2/iterators/L1RunIteration.java:72-87 | an eviction keeps the world linked, holds the candidate at both ends and takes the incumbent from the target |
| L1Iteration.ReserveChallengesLongestFirst | src/main/java/com/codekutter/lazyman/v2/iterators/L1RunIteration.java:45-61 | a free target is linked; a full one gives up its longest link when beaten, and only otherwise is challenged on its other link |
| L1Iteration.ReserveKeepsLinked | src/main/java/com/codekutter/lazyman/v2/iterators/L1RunIteration.java:42-61 | a reservation keeps the world linked, and a true answer holds the candidate at both ends |
| L1Iteration.ScanStopsAtFirstSuccess | src/main/java/com/codekutter/lazyman/v2/iterators/L1RunIteration.java:29-40 | a scan that changes the world made exactly one successful reservation, every earlier free position having declined |
| L1Iteration.AllocateKeepsLinked | src/main/java/com/codekutter/lazyman/v2/iterators/L1RunIteration.java:29-40 | `allocate` keeps a linked world with well-formed tables linked |
| L1Iteration.RunKeepsLinked | src/main/java/com/codekutter/lazyman/v2/iterators/L1RunIteration.java:19-27 | a whole pass keeps a linked world linked |
| L2Iteration.CompareToIsDescendingDelta | src/main/java/com/codekutter/lazyman/v2/iterators/L2RunIteration.java:31-42 | `compareTo` has the sign of the reversed delta difference, so bids sort by descending delta |
| L2Iteration.CheckBid | src/main/java/com/codekutter/lazyman/v2/iterators/L2RunIteration.java:119-143 | a bid with delta `d2 - d1` is added exactly when `d2 > d1` |
| L2Iteration.ApplyDropsIncumbent | src/main/java/com/codekutter/lazyman/v2/iterators/L2RunIteration.java:145-167 | applying a bid holds the candidate at both ends and takes a different incumbent from the target |
| L2Iteration.AllocateAppliesBestBid | src/main/java/com/codekutter/lazyman/v2/iterators/L2RunIteration.java:62-82 | one `allocate` applies only the earliest bid of greatest delta, or changes nothing without bids |
| L2Iteration.BidsAreCandidates | src/main/java/com/codekutter/lazyman/v2/iterators/L2RunIteration.java:84-117 | every bid offers a path from the point's own table |
| L2Iteration.ApplyKeepsLinked | src/main/java/com/codekutter/lazyman/v2/iterators/L2RunIteration.java:145-167 | applying a bid keeps the world linked |
| L2Iteration.AllocateKeepsLinked | src/main/java/com/codekutter/lazyman/v2/iterators/L2RunIteration.java:62-82 | `allocate` keeps a linked world with well-formed tables linked |
| L2Iteration.RunKeepsLinked | src/main/java/com/codekutter/lazyman/v2/iterators/L2RunIteration.java:52-60 | a whole pass keeps a linked world linked |
| V2Journey.FindNextIndex | src/main/java/com/codekutter/lazyman/v2/model/Journey.java:109-114 | as written, the first position below the point count that is not itself a visited sequence, every earlier one visited, and -1 exactly when all are |
| V2Journey.FindNextIndexRevisits | src/main/java/com/codekutter/lazyman/v2/model/Journey.java:109-114 | on the list 1, 2, 0 that `pointList(1)` gives for three points, after a route through 1 and 2 the scan as written answers position 0, whose point 1 was visited, while the corrected scan answers position 2 |
| V2Journey.NextUnvisited | src/main/java/com/codekutter/lazyman/v2/model/Journey.java:109-114 | corrected: the first position whose point is not visited, every earlier point visited, and -1 exactly when every listed point is visited |
| V2Journey.Leave | src/main/java/com/codekutter/lazyman/v2/model/Journey.java:40-94 | the walk leaves the start by its first slot; elsewhere it leaves by the first slot whose far end is unvisited, and the route closes when neither is |
| V2Journey.MoveKeepsWalking | src/main/java/com/codekutter/lazyman/v2/model/Journey.java:48-92 | following the exit link keeps the walk along links, adds that link's length and leaves fewer points to visit |
| V2Journey.CloseKeepsWalking | src/main/java/com/codekutter/lazyman/v2/model/Journey.java:96-107 | closing a route keeps every route a chain of links, puts every visited point on a route and accounts the walked distance |
| V2Journey.InOrderAgrees | src/main/java/com/codekutter/lazyman/v2/model/Journey.java:109-114 | on a list numbered 0, 1, ... in order, as `pointList(0)` gives it, the scan as written and the corrected scan answer the same position |
| V2Journey.Walk | src/main/java/com/codekutter/lazyman/v2/model/Journey.java:40-107 | the walk with the corrected scan (which is the scan as written on a list numbered 0, 1, ... in order, by `InOrderAgrees`) terminates; every route it closes follows links, every listed point lies on a route, and the distance is the length of the links walked |
| V2Journey.Load | src/main/java/com/codekutter/lazyman/v2/model/Journey.java:40-94 | `load` with the corrected scan (the scan as written on a list numbered 0, 1, ... in order): an empty point list fails; otherwise the journey lists its points, has at least one route, and its distance is the length of the links of its routes |
| V2Journey.CompleteIsOneRoute | src/main/java/com/codekutter/lazyman/v2/model/Journey.java:116-118 | a complete journey is one chain of links through every listed point |
| V2PathRoute.Add | src/main/java/com/codekutter/lazyman/v2/model/PathRoute.java:20-30 | the point is appended and the size grows by one; the first point becomes the start; a later point without a table entry from the previous one fails |
| V2PathRoute.BuildLength | src/main/java/com/codekutter/lazyman/v2/model/PathRoute.java:20-30 | a tour whose consecutive pairs are tabled builds, and its length is the sum of those paths' measured lengths |
| V2PathRoute.Index | src/main/java/com/codekutter/lazyman/v2/model/PathRoute.java:50-57 | the first position holding the point, and -1 exactly when the point is not on the route |
| V2PathRoute.NextFollowsTour | src/main/java/com/codekutter/lazyman/v2/model/PathRoute.java:32-47 | `next` from a point of a built route answers its two successors in the tour, null past the end |
| V2PathRoute.NextOffRoute | src/main/java/com/codekutter/lazyman/v2/model/PathRoute.java:32-47 | `next` from a point off the route answers two nulls |
| V2Route.CompareToIsAscendingDelta | src/main/java/com/codekutter/lazyman/v2/model/Route.java:19-31 | `compareTo` has the sign of the delta difference, so bids sort by ascending delta, and it is antisymmetric |
| V2Route.New | src/main/java/com/codekutter/lazyman/v2/model/Route.java:39-45 | the route keeps its points, knows exactly those as members, and has no link and no bid |
| V2Route.ForPoint | src/main/java/com/codekutter/lazyman/v2/model/Route.java:104-115 | a path found is the first of the point's sorted neighbours that leaves the route and avoids `used`, every earlier one failing to; none found means no neighbour's path does |
| V2Route.ForFromTotal | src/main/java/com/codekutter/lazyman/v2/model/Route.java:104-115 | on tables the cache built, the neighbour scan never throws |
| V2Route.Check | src/main/java/com/codekutter/lazyman/v2/model/Route.java:84-102 | a bid found joins the two points to outsiders by valid paths; none means one of the two scans found nothing |
| V2Route.ConnectInstallsBestBid | src/main/java/com/codekutter/lazyman/v2/model/Route.java:58-82 | `connect` installs into both slots a valid bid of least delta, the earliest among equals, and changes nothing without bids |
| V2Route.RemoveConnection | src/main/java/com/codekutter/lazyman/v2/model/Route.java:117-131 | succeeds exactly when a slot holds an equal path, and then empties one slot and changes nothing else |
| V2Route.ConnectToAsWrittenInverted | src/main/java/com/codekutter/lazyman/v2/model/Route.java:133-141 | the written `connectTo` throws when the second slot is free and overwrites it when it is set |
| V2Route.ConnectTo | src/main/java/com/codekutter/lazyman/v2/model/Route.java:133-141 | the corrected `connectTo` succeeds exactly when a slot is free, holds the path afterwards and keeps the other slot |
| V2Route.ConnectToThenRemove | src/main/java/com/codekutter/lazyman/v2/model/Route.java:117-141 | linking a new path and removing it gives back the route |
| V2RunIteratorV3.Keep | src/main/java/com/codekutter/lazyman/v2/RunIteratorV3.java:23-37 | the kept journey is the old one or the candidate, always complete, and never longer than either complete one |
| V2RunIteratorV3.RunAsWritten | src/main/java/com/codekutter/lazyman/v2/RunIteratorV3.java:23-110 | the search as written, where the closing test compares a fresh copy to the route's first object by reference, never keeps a journey |
| V2RunIteratorV3.AddPoint | src/main/java/com/codekutter/lazyman/v2/RunIteratorV3.java:87-110 | a journey found by the corrected closing test is the judgement of a closed tour through every point along registered targets, and no complete tour through the target continuing the route is shorter |
| V2RunIteratorV3.Search | src/main/java/com/codekutter/lazyman/v2/RunIteratorV3.java:65-84 | the search keeps only journeys over tours, never a longer one than it was given, and none longer than any complete tour continuing the route through a remaining target |
| V2RunIteratorV3.Start | src/main/java/com/codekutter/lazyman/v2/RunIteratorV3.java:41-62 | a search from one start keeps only journeys over tours, never longer than the one given, and none longer than any complete tour from that start through a remaining target |
| V2RunIteratorV3.Run | src/main/java/com/codekutter/lazyman/v2/RunIteratorV3.java:23-37 | over all starts, the journey kept is complete, over a closed tour of all points, no longer than the one it started with, and no longer than any complete tour from a start it tried: the shortest tour |
| SalesRunIterator.CanUseRejects | src/main/java/com/codekutter/salesman/core/RunIterator.java:174-189 | `canUse` refuses exactly a path not touching the point, a negative length, or a path a slot already holds |
| SalesRunIterator.GetMinDistance | src/main/java/com/codekutter/salesman/core/RunIterator.java:80-88 | the nearest distance for a point without links, the two nearest summed otherwise, and an exception when the list is too short |
| SalesRunIterator.FindPathIndex | src/main/java/com/codekutter/salesman/core/RunIterator.java:90-98 | the first index holding an equal path, and -1 exactly when none does |
| SalesRunIterator.FindNextValid | src/main/java/com/codekutter/salesman/core/RunIterator.java:149-159 | null exactly when every later candidate is null; otherwise the first usable later candidate, or the last non-null one when none is usable |
| SalesRunIterator.FindPathToReplace | src/main/java/com/codekutter/salesman/core/RunIterator.java:161-172 | an answer exactly when slot 0 is replaceable; slot 1 only when it is replaceable and farther than slot 0 |
| SalesRunIterator.Reserve | src/main/java/com/codekutter/salesman/core/RunIterator.java:100-138 | a reservation extends the registry, keeps the reserving point registered, and leaves it holding only what it held |
| SalesRunIterator.Run | src/main/java/com/codekutter/salesman/core/RunIterator.java:21-47 | `run` registers the point; an exception escapes exactly when an incomplete point has no candidate list; a complete point or that exception leaves every link as it was |
| SalesRunIterator.StubNeverReplaces | src/main/java/com/codekutter/salesman/core/RunIterator.java:161-172 | with `distance()` the constant -1 of the class, `findPathToReplace` never answers a link of a full target |
| SalesRunIterator.StubReserveKeepsLinks | src/main/java/com/codekutter/salesman/core/RunIterator.java:100-172 | with `distance()` the constant -1, `reserve` changes no link and no elevation, and a reserved path leads to a target with a free slot or a new one |
| SalesRunIterator.ReservedIsNew | src/main/java/com/codekutter/salesman/core/RunIterator.java:100-138 | a reserved path joins the point to a different target, and neither end holds it yet |
| SalesRunIterator.RunKeepsLinked | src/main/java/com/codekutter/salesman/core/RunIterator.java:21-47 | `run` keeps every link recorded at both of its ends |
| SalesClosedRunIterator.GetTarget | src/main/java/com/codekutter/salesman/core/ClosedRunIterator.java:135-141 | the other endpoint of a path touching the point, and A for a path that does not |
| SalesClosedRunIterator.FindNextValid | src/main/java/com/codekutter/salesman/core/ClosedRunIterator.java:111-120 | the first non-null candidate after `index`, and null exactly when there is none |
| SalesClosedRunIterator.FindPathToReplace | src/main/java/com/codekutter/salesman/core/ClosedRunIterator.java:122-133 | an answer exactly when slot 0 is nearer than the bound; slot 1 only when it is farther than slot 0 and still nearer than the bound |
| SalesClosedRunIterator.Reserve | src/main/java/com/codekutter/salesman/core/ClosedRunIterator.java:77-109 | an empty list or a null first candidate throws with nothing changed; otherwise the registry only grows and the point keeps its links |
| SalesClosedRunIterator.StubReserveKeepsLinks | src/main/java/com/codekutter/salesman/core/ClosedRunIterator.java:77-133 | with `distance()` the constant -1, the closed `reserve` changes no link and no elevation, and throws exactly for an empty list or a null first candidate |
| SalesClosedRunIterator.Run | src/main/java/com/codekutter/salesman/core/ClosedRunIterator.java:17-36 | a missing candidate list throws even for a complete point; a complete point is left alone; a clean run had a candidate list |
| SalesClosedRunIterator.RunFillsPoint | src/main/java/com/codekutter/salesman/core/ClosedRunIterator.java:17-36 | a run that throws nothing leaves both slots of the point occupied, and every run keeps each link recorded at both ends |
| SalesClosedRunIterator.CheckOptimalGuard | src/main/java/com/codekutter/salesman/core/ClosedRunIterator.java:38-40 | an incomplete point is left alone, and a complete one throws exactly when it has no candidate list |
| SalesRunner.Max | src/main/java/com/codekutter/salesman/core/Runner.java:167-174 | slot 0 exactly when its neighbour is at least as far as slot 1's, and an exception when a path is missing |
| SalesRunner.Reserve | src/main/java/com/codekutter/salesman/core/Runner.java:151-165 | a clean `reserve` removes the two neighbours of the target in turn and records the path at the bidding point only |
| SalesRunner.ReserveFreesTarget | src/main/java/com/codekutter/salesman/core/Runner.java:151-165 | a clean `reserve` on a full target leaves the target with no neighbour at all |
| SalesRunner.RemoveClearsBothEnds | src/main/java/com/codekutter/salesman/core/PointIndexOut.java:79-104 | removing a link recorded at both ends, in whichever slots, clears the first slot naming the other end at each end, answers the entry cleared at the first, and changes nothing else |
| SalesRunner.BidForPath | src/main/java/com/codekutter/salesman/core/Runner.java:124-149 | a path not touching the point throws; a target with a free slot gets the path recorded at both ends exactly when both writes succeed; a full target whose `max` fails throws, and otherwise `reserve` is called farther slot first for the last candidate or when the farther neighbour is nearer than the next candidate, nearer slot first when only the nearer one is, and else nothing changes |
| SalesRunner.StubBidsEvictOnlyLast | src/main/java/com/codekutter/salesman/core/Runner.java:124-149 | with `distance()` the constant -1 and the target's recorded distances not below it, a bid on a full target for any but the last candidate leaves the index unchanged and answers no entry |
| SalesRunner.BidOnFullTarget | src/main/java/com/codekutter/salesman/core/Runner.java:124-165 | a bid on a full target that answers an entry leaves the target with no neighbour, and one that answers nothing leaves the index unchanged |
| SalesRunner.BidLoop | src/main/java/com/codekutter/salesman/core/Runner.java:84-122 | the bidding loop keeps the keys positive and keeps the bidder registered, and does nothing past the end of the list |
| SalesRunner.FirstBid | src/main/java/com/codekutter/salesman/core/Runner.java:92-95 | the first candidate from the given position on that does not lead to the neighbour in the other slot: every earlier one does |
| SalesRunner.BidLoopTakesFirstAnswer | src/main/java/com/codekutter/salesman/core/Runner.java:84-122 | the loop skips exactly the candidates leading to the other slot's neighbour, bids on the first one it does not skip, stops there when the bid throws or answers an entry, and otherwise carries on after it with the index the bid left |
| SalesRunner.ReservePaths | src/main/java/com/codekutter/salesman/core/Runner.java:84-114 | a missing entry with a non-positive sequence throws; a point with both slots set is left alone; a point with only slot 0 set runs the slot-1 loop and answers its exception or its index; a new point answers the first loop's exception; a clean run leaves the bidder registered |
| SalesRunner.CheckStarving | src/main/java/com/codekutter/salesman/core/Runner.java:72-82 | with no starving point nothing changes, and the keys stay positive |
| SalesRunner.CompleteLoopIff | src/main/java/com/codekutter/salesman/core/Runner.java:176-185 | the loop of `checkComplete` answers true exactly when no looked-up key is missing or lacks a neighbour |
| SalesRunner.CheckCompleteAsWrittenNeverHolds | src/main/java/com/codekutter/salesman/core/Runner.java:176-185 | the test as written, which looks up the positions 0, 1, …, never holds on an index whose keys are positive |
| SalesRunner.StarvingPassKeepsPositiveKeys | src/main/java/com/codekutter/salesman/core/Runner.java:72-185 | every index the passes build from an empty one has only positive keys, so the written test never holds there |
| SalesRunner.CheckCompleteIffNothingStarves | src/main/java/com/codekutter/salesman/core/Runner.java:176-185 | the corrected test, which looks up each point's own sequence, holds exactly when no point is starving, and then `checkStarving` changes nothing |
| Rings.New | src/main/java/com/codekutter/lazyman/core/model/Ring.java:22-24 | a new ring has its number, no paths, is closed, at level 0 and not enclosed |
| Rings.Copy | src/main/java/com/codekutter/lazyman/core/model/Ring.java:26-32 | the copy keeps number, level, paths and encloser and takes the given closed flag |
| Rings.Exists | src/main/java/com/codekutter/lazyman/core/model/Ring.java:67-76 | true exactly when some path of the ring equals the path, endpoint order aside |
| Rings.AddAsWritten | src/main/java/com/codekutter/lazyman/core/model/Ring.java:34-63 | the written `add` appends to an empty ring or after a touching last path, throws for a present path, and diverges exactly when it would insert mid-list |
| Rings.AddAsWrittenLoop | src/main/java/com/codekutter/lazyman/core/model/Ring.java:43-57 | once the loop has inserted, no number of turns brings its index to the end of the list; when it throws, it ran through the list without adding |
| Rings.Add | src/main/java/com/codekutter/lazyman/core/model/Ring.java:34-63 | the corrected `add` succeeds exactly for an empty ring or a new path that touches the last path or fits between two; the path goes in once, touching its neighbours |
| Rings.AddAsWrittenAgrees | src/main/java/com/codekutter/lazyman/core/model/Ring.java:34-63 | wherever the written loop ends it ends as the corrected `add`, and it diverges exactly where `add` inserts mid-list |
| Rings.Validate | src/main/java/com/codekutter/lazyman/core/model/Ring.java:78-90 | succeeds exactly for a ring obeying the closed/open rule, an empty ring failing on its first path |
| Rings.TracedRingsAreValid | src/main/java/com/codekutter/lazyman/core/model/Ring.java:78-90 | a closed walk that ends where it starts, or a simple open walk, passes `validate` |
| Rings.PolygonAsWritten | src/main/java/com/codekutter/lazyman/core/model/Ring.java:92-116 | null unless closed and non-empty; otherwise one more corner than paths, or an exception |
| Rings.PolygonAsWrittenMisorders | src/main/java/com/codekutter/lazyman/core/model/Ring.java:92-116 | a closed triangle whose first path is stored against the walk gets its first two corners swapped |
| Rings.PolygonTraces | src/main/java/com/codekutter/lazyman/core/model/Ring.java:92-116 | the corrected polygon of a closed ring traced along distinct corners is exactly those corners |
| Rings.PolygonAgreesOnOrderedStart | src/main/java/com/codekutter/lazyman/core/model/Ring.java:92-116 | both versions agree when the first path is stored in walk order |
| Rings.CanConnectSymmetric | src/main/java/com/codekutter/lazyman/core/model/Ring.java:118-134 | the nesting rule gives the same answer whichever ring asks |
| Rings.PointsAreFirstAppearances | src/main/java/com/codekutter/lazyman/core/model/Ring.java:140-154 | `getPoints` lists every endpoint of the ring once, in order of first appearance, and nothing else |
| RingRoutes.WithEnds | src/main/java/com/codekutter/lazyman/core/model/RingRoute.java:21-24 | a route with the given ring and ends and no paths |
| RingRoutes.FromRing | src/main/java/com/codekutter/lazyman/core/model/RingRoute.java:26-57 | a route exists exactly when the ring has two paths and both end paths have a free end; it shares the ring's paths; a one-path ring fails reading the second path |
| RingRoutes.ChainEnds | src/main/java/com/codekutter/lazyman/core/model/RingRoute.java:26-57 | for an open ring traced along distinct points, the route's ends are the first and last points of the chain |
| RingRoutes.AddPath | src/main/java/com/codekutter/lazyman/core/model/RingRoute.java:59-62 | `addPath` appends the path and keeps ring and ends |
| RingRoutes.Distance | src/main/java/com/codekutter/lazyman/core/model/RingRoute.java:64-71 | defined exactly for a route with paths, as the sum of their distances |
| RingRoutes.DistanceOfAddPath | src/main/java/com/codekutter/lazyman/core/model/RingRoute.java:59-71 | appending a path adds its distance |
| RingRoutes.SortRoute | src/main/java/com/codekutter/lazyman/core/model/RingRoute.java:116-133 | nulls sort first, routes by the step of their distance difference, and an empty route fails |
| RingRoutes.SortRouteAntisymmetric | src/main/java/com/codekutter/lazyman/core/model/RingRoute.java:116-133 | the comparator fails both ways or neither, and swapping its arguments flips its sign |
| CoreRunner.Next | src/main/java/com/codekutter/lazyman/core/Runner.java:217-274 | the walk steps on by a slot whose far end is not where it came from, slot 0 first, and stops only when neither slot leads elsewhere |
| CoreRunner.Links | src/main/java/com/codekutter/lazyman/core/Runner.java:217-274 | the walk starts from slot 0, else slot 1, and keeps a second link exactly when both are set |
| CoreRunner.FindRing | src/main/java/com/codekutter/lazyman/core/Runner.java:217-274 | a start without links gives no ring and is not passed; a ring found is valid, numbered, at level 0, made of registered links, and tags every point it passed |
| CoreRunner.Pass | src/main/java/com/codekutter/lazyman/core/Runner.java:127-154 | every point of the loop is passed or has no links, and rings are numbered by position |
| CoreRunner.DetectRings | src/main/java/com/codekutter/lazyman/core/Runner.java:127-154 | every ring found is valid and numbered by position, every listed point is passed or linkless, and the nesting is consistent |
| CoreRunner.Enclose | src/main/java/com/codekutter/lazyman/core/Runner.java:157-180 | a ring whose first point lies inside a closed container goes one level above it and takes it as encloser unless it has a higher one; nothing else changes |
| CoreRunner.EncloseAll | src/main/java/com/codekutter/lazyman/core/Runner.java:162-178 | the inner loop skips ring `ii` and the rings before `jj`, needs a first path and a polygon for every other ring, and leaves a ring whose first point is outside the polygon as it was |
| CoreRunner.DetectLevels | src/main/java/com/codekutter/lazyman/core/Runner.java:157-180 | `detectLevels`, with each closed ring's polygon built as `getPolygon` writes it, keeps the rings' shape, numbering and nesting consistent |
| CoreRunner.DetectLevelsKeepsOutside | src/main/java/com/codekutter/lazyman/core/Runner.java:157-180 | a ring whose first point lies in no other closed ring's polygon comes out of `detectLevels` with its level and encloser unchanged |
| CoreRunner.HasLocalEquilibrium | src/main/java/com/codekutter/lazyman/core/Runner.java:182-215 | a first point without a slot-0 link fails; otherwise the answer is true exactly when the walk reaches fewer points than the cache holds |
| CoreRunner.CycleHasNoLocalEquilibrium | src/main/java/com/codekutter/lazyman/core/Runner.java:182-215 | on a graph that is one cycle through all points, the walk reaches every point and reports no equilibrium |
| CoreRunner.StallTurn | src/main/java/com/codekutter/lazyman/core/Runner.java:67-93 | the loop leaves at the first turn with closure or five identical snapshots in a row, and never earlier |
| CoreRunner.StopsWithoutClosure | src/main/java/com/codekutter/lazyman/core/Runner.java:67-93 | without closure the loop leaves exactly after five identical snapshots in a row |
| OpenRings.Settle | src/main/java/com/codekutter/salesman/core/model/OpenRing.java:51-64 | the fixed-point loop makes one pass when it reaches closure and exactly two otherwise, because the snapshot shares the registry's connection objects |
| OpenRings.RouteWalk | src/main/java/com/codekutter/salesman/core/model/OpenRing.java:68-104 | the walk records distinct points, each joined to the next by the recorded path |
| OpenRings.Walked | src/main/java/com/codekutter/salesman/core/model/OpenRing.java:81-103 | the walk from the candidate's A end passes distinct points joined by the recorded paths |
| OpenRings.Route | src/main/java/com/codekutter/salesman/core/model/OpenRing.java:68-104 | a route is returned exactly when the walk passed as many points as the ring has, and it extends the initial route |
| OpenRings.ComputeRoute | src/main/java/com/codekutter/salesman/core/model/OpenRing.java:44-66 | a route found has the ring's number and the candidate as its ends |
| OpenRings.ComputeRoutes | src/main/java/com/codekutter/salesman/core/model/OpenRing.java:27-42 | a ring without an initial route fails; otherwise every stored route belongs to the ring, sits under the key of its ends, and the ring's own route is stored |
| RingProcessor.OpenDelta | src/main/java/com/codekutter/salesman/core/RingProcessor.java:28-38 | the open delta plus the source path's distance is the distance of the new paths present |
| RingProcessor.OpenDeltaUniform | src/main/java/com/codekutter/salesman/core/RingProcessor.java:28-38 | when every path has distance -1, the open delta is one less per new path present |
| RingProcessor.ConnectSorterAsWritten | src/main/java/com/codekutter/salesman/core/RingProcessor.java:84-103 | the written comparator throws exactly for a candidate compared with null, and otherwise has the sign of the delta difference |
| RingProcessor.ConnectSorterAsWrittenThrowsOneWay | src/main/java/com/codekutter/salesman/core/RingProcessor.java:84-103 | the written comparator throws one way round and answers the other |
| RingProcessor.ConnectSorter | src/main/java/com/codekutter/salesman/core/RingProcessor.java:84-103 | the corrected comparator orders candidates by delta with nulls last |
| RingProcessor.ConnectSorterAntisymmetric | src/main/java/com/codekutter/salesman/core/RingProcessor.java:84-103 | swapping the corrected comparator's arguments flips its sign |
| RingProcessor.ConnectSorterAgrees | src/main/java/com/codekutter/salesman/core/RingProcessor.java:84-103 | wherever the written comparator answers, it answers as the corrected one |
| RingProcessor.CanConnectRule | src/main/java/com/codekutter/salesman/core/RingProcessor.java:292-308 | `canConnect` refuses the same ring, holds both ways round or neither, and refuses an enclosed ring paired with an unenclosed one |
| RingProcessor.FindMinPaths | src/main/java/com/codekutter/salesman/core/RingProcessor.java:430-461 | the cheaper of the two reconnections, the first on a tie; a missing first-pairing path throws |
| RingProcessor.UniformDistanceKeepsFirstPairing | src/main/java/com/codekutter/salesman/core/RingProcessor.java:430-461 | when every path has the same distance, the first pairing always wins |
| RingProcessor.ConnectClosedRings | src/main/java/com/codekutter/salesman/core/RingProcessor.java:310-335 | one candidate for every pair of a source path and a target path, each with delta new pair less both old paths, and both new paths of each marked unusable |
| RingProcessor.SwapTestIsDelta | src/main/java/com/codekutter/salesman/core/RingProcessor.java:208-221 | the swap test on a recorded candidate is its recorded delta against zero |
| RingProcessor.AddConnect | src/main/java/com/codekutter/salesman/core/RingProcessor.java:278-290 | `addConnect` appends the candidate under its source path's key and changes no other key |
| RingProcessor.AddConnectsGroups | src/main/java/com/codekutter/salesman/core/RingProcessor.java:278-290 | grouping keeps every candidate and its order under its key |
| RingProcessor.MergeAllPicksShortest | src/main/java/com/codekutter/salesman/core/RingProcessor.java:173-194 | the merge picks each new path from the earliest candidate where it is shortest, and keeps a target only from a candidate that supplied both |
| RingProcessor.Candidates | src/main/java/com/codekutter/salesman/core/RingProcessor.java:163-207 | a key with one candidate offers it, and a key with several offers their merge for the ring |
| RingProcessor.PickAsWrittenPrefersLaterCandidate | src/main/java/com/codekutter/salesman/core/RingProcessor.java:195-204 | as written, a later single candidate replaces a cheaper merged one |
| RingProcessor.PickAsWrittenAgrees | src/main/java/com/codekutter/salesman/core/RingProcessor.java:195-204 | without merged candidates the written choice is the corrected one |
| RingProcessor.PickIsEarliestLeast | src/main/java/com/codekutter/salesman/core/RingProcessor.java:195-204 | the corrected choice is the earliest candidate of least open delta, and exists exactly when there is a candidate |
| RingProcessor.Apply | src/main/java/com/codekutter/salesman/core/RingProcessor.java:208-245 | the source path is removed first; the swap happens exactly when the test holds and then holds both new paths; otherwise the meeting points are named and the exception raised |
| RingProcessor.ResolveAppliesEarliestLeast | src/main/java/com/codekutter/salesman/core/RingProcessor.java:159-247 | with finite deltas, the corrected resolve changes nothing exactly when there is no candidate, and otherwise applies the earliest candidate of least open delta |
| RingProcessor.ResolveAsWrittenAgrees | src/main/java/com/codekutter/salesman/core/RingProcessor.java:159-247 | when no key offers more than one connection, `resolveClosedConnect` as written resolves exactly as the corrected one |
| ClosedRings.Candidate | src/main/java/com/codekutter/lazyman/core/model/ClosedRing.java:32-59 | a candidate joins the ring to the target by both new paths, with delta the open delta less the target path's distance |
| ClosedRings.RingCandidates | src/main/java/com/codekutter/lazyman/core/model/ClosedRing.java:32-59 | at most as many candidates as pairs of a listed source path and a target path, each the candidate of one of `self`'s paths against one of the target's found in full, and every pair the finder answers in full covered |
| ClosedRings.ComputeConnections | src/main/java/com/codekutter/lazyman/core/model/ClosedRing.java:22-59 | the lists only grow; the new candidates are exactly those against connectable closed rings, and each is logged as usable |
| ClosedRings.GetSortedConnects | src/main/java/com/codekutter/lazyman/core/model/ClosedRing.java:61-65 | the sorted list is a permutation of the candidates in ascending delta |
| ClosedRings.SortedConnectsFollowSorter | src/main/java/com/codekutter/lazyman/core/model/ClosedRing.java:61-65 | the sorted list agrees with the comparator pairwise, and its head is the earliest candidate of least delta |

## Left out

- Reading TSPLIB files, printing, configuration, persistence, the JavaFX viewer and the command-line drivers: they have no algorithmic content. This covers `OutputPrinter`, `Config`, `RunInfo`, `Constants`, the data readers, `Run.java`, `JourneyProcessor`, `Helper`, `Viewer` and the `main` methods.
- Floating-point arithmetic: distances, elevations, `compute` scores, `Bid.computeElevation`, the point-in-polygon test and the `sqrt` in `Path.distance` are real-valued parameters, and no rounding is modelled.
- The elevation updates in `RingProcessor.connect` and `resolveClosedConnect` (RingProcessor.java:242-269) and the `reader.updatePath` call in the salesman `Runner.reserve` (Runner.java:160-161): they only move scores the model takes as parameters.
- The v2 passes' writes of a target's elevation (`t.elevation(...)` at L0RunIteration.java:69, 79 and 89, L1RunIteration.java:83 and L2RunIteration.java:164) and of a path's working length (`path.length(...)` at L1RunIteration.java:49 and 84 and L2RunIteration.java:155 and 165): the v2 `World` stores neither, so a score that depends on earlier moves of the pass rests on the `Scores` functions, which read the world's links but no stored elevation or working length.
- SalesRunIterator.Oracle, SalesClosedRunIterator.Oracle, SalesRunner.Oracle: take `Path.distance()` as a free function, while the class defines it as the constant -1 (`SalesPath.Distance`). With that stub no link is ever nearer than a candidate, so a full target never gives up a link in `RunIterator.reserve` or `ClosedRunIterator.reserve`, and the salesman `Runner.bidForPath` evicts only for the last candidate. The eviction branches (`SalesRunIterator.Displace`, the eviction in `SalesClosedRunIterator.Take`, and the distance tests of `SalesRunner.Evicts`) are therefore unreachable in the program as it stands. `SalesRunIterator.StubReserveKeepsLinks`, `SalesClosedRunIterator.StubReserveKeepsLinks` and `SalesRunner.StubBidsEvictOnlyLast` prove this.
- `RingProcessor.connectClosedToOpenRings`, `findConnection`, `getSortedPaths`, `markRingConnections`, `markOpenRingConnections`, `markConnections` and `process`: they drive the merge over all rings and write the data map, and their callees are outside the modelled classes.
- `RingProcessor.resolveOpenConnect`, `connectOpenRings`, `connectOpenToClosedRings`, `addConnectedRing` and the base `Ring.computeConnections`: they are empty stubs.
- The v2 `Point.chainLength`/`updateChain` recursion: it walks cyclic object references, stepping only to points not yet visited; the slot invariants do not depend on it.
- Members the modelled classes call but do not define (`Connections.bidHistory`, `TSPDataMap.get`/`togglePath`/`getMinDistances`, `Point.targets`, `Point.connect(path, int)`, `Path.compute(int)`, `GFG.isInside`, the lazyman `Connections` and `TSPDataMap`): they become parameters (`get`, `find`, `dist`, `targets`, `pass`, `inside`) or returned logs of `togglePath` calls.
- The plain point records (`lazyman/core/model/Point.java`, `salesman/core/model/Point.java`, `Point2D`, `IndexedPath`): a point is its integer number, and their string keys and hash codes are not modelled.
- Hash-map iteration order: where the code iterates a `HashMap`, the order of keys is a parameter, so any order is covered but none in particular.
- Object aliasing beyond the salesman registry: the list a `RingRoute` shares with its ring and the neighbour table a v2 `Point` copy shares are modelled as values; no later mutation through the alias is modelled.
- The `RunIteration` constructor and `save`: they are `Cache.copyPoints` and `pointList`, modelled in `V2Cache`.
- The `ClosedRing(short)` constructor is `Rings.New`; the registry argument of `ClosedRing.computeConnections` is unused by the code and left out.
- CoreRunner.FindRing: the walk in the second direction starts from the kept second link of the start as the code does; the model does not state that the two halves join into one chain.
- RingProcessor.ResolveAppliesEarliestLeast: assumes every open delta is finite, because a merged candidate starts at `Double.MAX_VALUE`, which the real-valued model cannot reach by arithmetic.
- RingProcessor.ResolveClosedConnect: models the choice loop as written, so it promises only that a clean resolve keeps the registry valid; the earliest-least choice is stated of the corrected `ResolveIntended`, and `ResolveAsWrittenAgrees` says when the two coincide.
- The `lazyman.core.RingProcessor` that `ClosedRing.java` imports is not part of this model: `ClosedRings` builds its candidates with the salesman `RingProcessor.Connect` and sorts them with its `ConnectSorter`, on the reading that the two packages share that class.
- OpenRings.ComputeRoutes: states that every stored route belongs to the ring and sits under the key of its ends, not that a route is found for every pair, because the greedy pass is a parameter.
- SalesRunIterator.Reserve: states how the registry and the reserving point are kept, not which candidate is reserved, because the choice rests on the uninterpreted scores.

## Findings

| source | as written | input that shows it | evidently intended | confidence | as-written member | corrected member |
|---|---|---|---|---|---|---|
| src/main/java/com/codekutter/lazyman/core/model/Ring.java:43-57 | the out-of-order insertion loop has no `break`, so after inserting it meets the shifted path again and inserts without end | a ring 1-2, 3-4 and the path 0-1, which touches the first path but not the last | insert once, before the first position where the path fits | high, not executed | Rings.AddAsWrittenLoop | Rings.AddAsWrittenAgrees |
| src/main/java/com/codekutter/lazyman/core/model/Ring.java:92-116 | the polygon starts with the first path's A then B, whatever the walk order | the closed triangle 2-1, 2-3, 3-1 gives corners 2, 1, 3, 1 | the first corner is the end of the first path that the second path does not touch | medium, not executed | Rings.PolygonAsWrittenMisorders | Rings.PolygonTraces |
| src/main/java/com/codekutter/salesman/core/PointIndexIn.java:76-89 | `remove` returns true when it finds the entry but never deletes it | add the path 1-2, then remove it; the entry is still there | delete the entry it finds | high, not executed | SalesPointIndexIn.RemoveAsWrittenKeepsPath | SalesPointIndexIn.AddThenRemove |
| src/main/java/com/codekutter/salesman/core/Runner.java:176-185 | `checkComplete` looks up `getPoints(ii)` from `ii = 0`, and the index never holds key 0 | any index built by `put`, which refuses sequence 0 | look up the points' own sequence numbers | high, not executed | SalesRunner.CheckCompleteAsWrittenNeverHolds | SalesRunner.CheckCompleteIffNothingStarves |
| src/main/java/com/codekutter/lazyman/v2/model/Route.java:133-141 | `connectTo` writes slot 1 only when it is already set, and throws when it is free | a route with slot 0 set and slot 1 empty | fill the empty slot, and throw only when both are set | high, not executed | V2Route.ConnectToAsWrittenInverted | V2Route.ConnectToThenRemove |
| src/main/java/com/codekutter/lazyman/v2/model/Journey.java:109-114 | `findNextIndex` tests the visited map, keyed by sequence, with the position `ii` | `pointList(1)` over three points, which lists 1, 2, 0: after a first route through 1 and 2 it answers position 0, so `load` restarts at the visited point 1 instead of reaching point 0; lists numbered 0, 1, ... in order, as `pointList(0)` gives them, are unaffected (`V2Journey.InOrderAgrees`) | test the sequence of the point at position `ii` | medium, not executed | V2Journey.FindNextIndexRevisits | V2Journey.NextUnvisited |
| src/main/java/com/codekutter/lazyman/v2/RunIteratorV3.java:87-110 | the closing test compares the target, a fresh copy, with the route's first element by reference | any map: the copy is never the object the route starts with | compare the points' sequence numbers | high, not executed | V2RunIteratorV3.RunAsWritten | V2RunIteratorV3.Run |
| src/main/java/com/codekutter/salesman/core/RingProcessor.java:84-103 | the test meant for a null second argument repeats the test of the first | compare a candidate with null | a candidate sorts before null | high, not executed | RingProcessor.ConnectSorterAsWrittenThrowsOneWay | RingProcessor.ConnectSorterAntisymmetric |
| src/main/java/com/codekutter/salesman/core/RingProcessor.java:195-204 | a merged candidate is chosen without lowering the delta that later candidates must beat | a merged candidate of open delta 1 followed by a single one of open delta 5 | keep the candidate of least open delta | medium, not executed | RingProcessor.PickAsWrittenPrefersLaterCandidate | RingProcessor.PickIsEarliestLeast |
