# Graph engine of the city-routing application, in Dafny

This project models the graph engine of a small city-routing application: the
class `Graph` of `src/graph.cpp`. It is an undirected graph of named cities.
Its one piece of state is the nested map `adj`, from a city to its neighbours
and from each neighbour to the edge's two weights (distance and time). Beside
it sits the counter `numberOfCities`. The engine mutates cities and edges,
answers membership queries, runs breadth- and depth-first traversals, and
answers shortest-path queries by distance or by time, each with Dijkstra's
algorithm and predecessor-based path reconstruction.

The project has five modules:

- `Adjacency` (`adjacency.dfy`) holds the table as a value.
  - It defines the structural invariant `WellFormed`: symmetric with equal weights both ways, no self-loops, non-negative weights.
  - It gives one function per mutation, each describing the table that mutation produces (`WithCity`, `WithEdge`, `WithoutCity`, `WithoutEdge`).
  - It proves the lemmas that those functions keep the invariant, that re-adding an edge replaces its weights, and that an edge's orientation is irrelevant.
- `Walks` (`walks.dfy`) says what a walk is, what "reachable from start" means, what a walk costs under the chosen weight, and what "cheapest" means.
- `Traversal` (`traversal.dfy`) holds the facts about sequences without repeats that the traversals need, and the loop states of the two traversals. It has one lemma per kind of pop that shows the state is kept, and one that shows what the state means once the queue or stack is empty.
- `ShortestPaths` (`shortest_paths.dfy`) holds the state of Dijkstra's search and the lemmas that make it correct:
  - labels and predecessor links;
  - the frontier of (cost, city) entries, stale entries included;
  - the settled cities, every one of them relaxed and labelled with its shortest cost.
- `Graphs` (`graph.dfy`) holds the class `Graph`. It has the two fields, one member per operation of the source, and the loops of the search as methods over the table.

`Valid()` is the structural invariant. The source keeps it on every path.
`Counted()` says the counter equals the number of cities. It is kept apart
because `addEdge` creates a missing endpoint through `operator[]` without
bumping the counter (`src/graph.cpp:31-32`). So `AddEdge` keeps `Counted()`
exactly when both endpoints were already cities, and its contract says so in
both directions.

`DijkstraDistance` and `DijkstraTime` differ only in the weight they add up
(`src/graph.cpp:152` and `src/graph.cpp:208`). Both are one routine,
`ShortestPath`, whose parameter `m: Metric` picks the weight. The two methods
call it with `Distance` and `Time` respectively.

Infinity, the starting value of every tentative cost, is modelled as a key
missing from the `dist` map. The priority queue is modelled as a set of
(cost, city) pairs, and a pop takes any entry of least cost.

## Model

| member | source | states |
|---|---|---|
| Graphs.Graph.AddCity | src/graph.cpp:3-8 | the table becomes `WithCity(old adj, name)`; the counter goes up by exactly one when the name was new and is unchanged otherwise; the invariant and the exact count are kept |
| Adjacency.WithCity | src/graph.cpp:3-8 | an absent name is added with an empty neighbour map and the table grows by one; on a present name the table is returned unchanged (idempotent); every existing entry is untouched |
| Adjacency.WithCityKeepsWellFormed | src/graph.cpp:3-8 | adding a city keeps symmetry, no self-loops and non-negative weights |
| Graphs.Graph.GetNumberOfCities | src/graph.cpp:10-13 | returns the counter, which is the number of cities whenever the count is exact |
| Graphs.Graph.GetAllCities | src/graph.cpp:15-23 | the result lists exactly the cities of the table, each once, so its length is the number of cities |
| Adjacency.Abs | src/graph.cpp:27-28 | the sign correction gives a non-negative value equal to the input or its negation |
| Graphs.Graph.AddEdge | src/graph.cpp:25-33 | a self-loop leaves the table unchanged; otherwise the table becomes `WithEdge(old adj, src, dest, (abs distance, abs time))`; the counter never changes, so an exact count stays exact iff both endpoints were already cities; the invariant is kept |
| Adjacency.WithEdge | src/graph.cpp:31-32 | both orientations of the edge hold the given weights; the cities are the old ones plus both endpoints; the neighbour map of every other city is untouched |
| Adjacency.WithEdgeFrame | src/graph.cpp:31-32 | every edge other than src-dest is present after the upsert iff it was before, with the same weights |
| Adjacency.WithEdgeKeepsWellFormed | src/graph.cpp:25-33 | storing sign-corrected weights on two distinct cities keeps symmetry, no self-loops and non-negative weights |
| Adjacency.EdgeUpsertReplaces | src/graph.cpp:30-32 | adding an edge again with new weights gives the same table as adding it only with the new weights: the weights are replaced, not accumulated |
| Adjacency.EdgeOrientationIrrelevant | src/graph.cpp:31-32 | on a well-formed table, adding src-dest and adding dest-src with the same weights give the same table |
| Graphs.Graph.DeleteCity | src/graph.cpp:35-42 | an absent name changes nothing; otherwise the table becomes `WithoutCity(old adj, name)` and the counter drops by exactly one; the invariant and the exact count are kept |
| Graphs.Graph.StripCity | src/graph.cpp:37-39 | the loop of deleteCity: the set of cities is unchanged and every neighbour map has lost the name |
| Graphs.StrippedIsWithoutCity | src/graph.cpp:37-40 | stripping the name from every neighbour map and then erasing its own entry gives exactly `WithoutCity` |
| Adjacency.WithoutCity | src/graph.cpp:35-42 | the name is no longer a city and no neighbour map mentions it; every edge between two other cities is kept with its weights and no other edge appears; the table shrinks by one when the name was present |
| Adjacency.WithoutCityKeepsWellFormed | src/graph.cpp:35-42 | deleting a city keeps symmetry, no self-loops and non-negative weights |
| Graphs.Graph.DeleteEdge | src/graph.cpp:44-48 | a no-op when the edge is stored in neither orientation; otherwise the table becomes `WithoutEdge(old adj, src, dest)` with the same cities; afterwards the edge is absent both ways; the counter, the invariant and the exact count are kept |
| Adjacency.WithoutEdge | src/graph.cpp:46-47 | both orientations of the edge are gone; every other edge is present iff it was before, with the same weights |
| Adjacency.WithoutEdgeKeepsWellFormed | src/graph.cpp:44-48 | on a well-formed table, erasing a stored edge keeps the set of cities and the invariant |
| Graphs.Graph.ContainsCity | src/graph.cpp:50-52 | true iff the name is a key of the table |
| Graphs.Graph.ContainsEdge | src/graph.cpp:54-64 | true iff the edge is stored in either orientation; on a valid table, iff it is stored as src-dest |
| Graphs.ContainsEdgeSymmetric | src/graph.cpp:54-64 | `containsEdge(a, b) == containsEdge(b, a)` on every table |
| Graphs.Graph.BFS | src/graph.cpp:67-92 | empty iff start is not a city; otherwise begins with start, lists no city twice, and holds exactly the cities reachable from start |
| Traversal.BreadthFirstInit | src/graph.cpp:72-76 | with start marked and queued, the breadth-first state holds |
| Traversal.BreadthFirstPop | src/graph.cpp:79-81 | the head of the queue is a city; moving it to the list starts the neighbour loop with its state holding |
| Traversal.EnqueueNew | src/graph.cpp:84-87 | marking and queueing an unvisited neighbour keeps the neighbour-loop state and leaves the measure (unvisited cities plus queue length) unchanged |
| Traversal.EnqueueSeen | src/graph.cpp:84 | skipping a visited neighbour keeps the neighbour-loop state |
| Traversal.EnqueueDone | src/graph.cpp:83-88 | once every neighbour is looked at, the breadth-first state holds again |
| Traversal.BreadthFirstDone | src/graph.cpp:78-91 | with the queue empty, the list begins with start, has no duplicates, and holds exactly the cities reachable from start |
| Graphs.Graph.DFS | src/graph.cpp:94-122 | empty iff start is not a city; otherwise begins with start, lists no city twice although a city may be stacked several times, and holds exactly the cities reachable from start |
| Graphs.Graph.PushUnvisited | src/graph.cpp:112-116 | the old stack stays underneath unchanged, and on top of it each neighbour of the city that is not visited is pushed exactly once; nothing else is pushed |
| Traversal.DepthFirstInit | src/graph.cpp:99-102 | with only start on the stack and nothing visited, the depth-first state holds |
| Traversal.DepthFirstTop | src/graph.cpp:105 | the city on top of the stack is a city of the table |
| Traversal.DepthFirstSkip | src/graph.cpp:105-108 | popping an already visited city keeps the depth-first state |
| Traversal.DepthFirstVisit | src/graph.cpp:108-117 | listing a popped unvisited city and stacking its unvisited neighbours keeps the depth-first state, with one more city visited |
| Traversal.DepthFirstDone | src/graph.cpp:104-121 | with the stack empty, the list begins with start, has no duplicates, and holds exactly the cities reachable from start |
| Walks.ClosedComponent | src/graph.cpp:78-89 | a set inside start's component that holds start and is closed under the edges is exactly the set of cities reachable from start |
| Walks.ReachableFromComplete | src/graph.cpp:67-122 | on a well-formed table every city reachable from start is a key of the table, so the component misses none; a stand-alone fact about the model that no traversal proof needs, since their contracts speak of `Reachable` directly |
| Graphs.Graph.ShortestPath | src/graph.cpp:124-176 | the path is empty iff start or destination is not a city or the destination is unreachable (cost then 0); otherwise it is a walk from start to destination, its cost is the sum of the selected weight along it, and no walk between them costs less; start == destination gives `[start]` at cost 0 |
| Graphs.Graph.DijkstraDistance | src/graph.cpp:124-176 | the ShortestPath contract with the distance weight |
| Graphs.Graph.DijkstraTime | src/graph.cpp:179-232 | the ShortestPath contract with the time weight |
| Graphs.Dijkstra | src/graph.cpp:131-175 | for two cities of a well-formed table, the same result contract, with emptiness iff unreachable |
| Graphs.Search | src/graph.cpp:131-161 | when the search loop stops, the labels and predecessor links are sound; a labelled destination carries the cost of a cheapest walk; an unlabelled one is unreachable |
| ShortestPaths.SearchStart | src/graph.cpp:137-142 | start labelled 0 with the single frontier entry (0, start) satisfies every invariant of the search |
| ShortestPaths.MinEntryExists | src/graph.cpp:145-146 | a non-empty frontier has an entry of least cost |
| ShortestPaths.DropStale | src/graph.cpp:148 | discarding an entry above its city's label keeps the frontier invariant and shrinks the frontier |
| ShortestPaths.PoppedIsShortest | src/graph.cpp:145-149 | a current least-cost entry belongs to an unsettled city, and its cost is the cost of a cheapest walk from start to it |
| ShortestPaths.LeavesSettled | src/graph.cpp:144-161 | a walk from a settled city to an unsettled one passes a labelled unsettled city whose label is at most the walk's cost |
| Graphs.Expand | src/graph.cpp:149-160 | settling the popped city and relaxing its edges keeps labels, frontier, relaxation and shortest settled labels, with the city added to the settled ones |
| ShortestPaths.SettleLabels | src/graph.cpp:149-151 | settling the popped city with the next rank keeps the labels and predecessor links |
| ShortestPaths.SettleFrontier | src/graph.cpp:145-151 | removing the least entry and settling its city keeps the frontier invariant, and every settled label is at most the popped cost |
| ShortestPaths.SettledShortestKept | src/graph.cpp:151-160 | settled labels that relaxation does not change stay the shortest costs |
| Graphs.RelaxNeighbours | src/graph.cpp:151-160 | after relaxing every edge of the settled city, the labels and frontier are sound, every settled city is relaxed, and settled labels are unchanged |
| Graphs.RelaxEdge | src/graph.cpp:152-159 | a strictly better cost through the city (or a first label) replaces the neighbour's label, sets the city as its predecessor and adds a frontier entry; otherwise nothing changes; the loop invariant is kept |
| ShortestPaths.RelaxStep | src/graph.cpp:152-159 | one relaxation keeps the loop invariant, in both the improving and the non-improving case |
| ShortestPaths.RelaxLabels | src/graph.cpp:155-157 | the improved neighbour is never settled nor start, and the new label and predecessor keep the labels sound |
| ShortestPaths.RelaxFrontier | src/graph.cpp:155-158 | the new label with its new entry keeps the frontier invariant |
| ShortestPaths.RelaxKeepsRelaxed | src/graph.cpp:155-156 | lowering an unsettled label keeps every other settled city relaxed |
| ShortestPaths.RelaxedFromLowered | src/graph.cpp:155-156 | the neighbours already looked at stay relaxed from the city, the new one included |
| ShortestPaths.ExhaustedFrontier | src/graph.cpp:144 | when the frontier is empty, a city without a label is unreachable from start |
| ShortestPaths.SearchExhausted | src/graph.cpp:144-165 | when the frontier is empty, a labelled destination carries its shortest cost and an unlabelled one is unreachable |
| Graphs.Answer | src/graph.cpp:163-175 | an unlabelled destination gives the empty result; a labelled one gives a walk from start to destination whose cost is its label, and that label is optimal |
| Graphs.Reconstruct | src/graph.cpp:167-172 | following predecessors back from the destination and reversing gives a walk from start to destination whose cost is the destination's label; start == destination gives `[start]` |
| ShortestPaths.Reversed | src/graph.cpp:172 | the reversal has the same length and holds the i-th from last element at position i |
| ShortestPaths.ReversedAppend | src/graph.cpp:169-172 | reversing after appending x puts x first |
| Walks.WalkPrepend | src/graph.cpp:168-169 | stepping back along the predecessor edge extends the walk, and its cost grows by that edge's weight |
| Walks.WalkCostNonNegative | src/graph.cpp:149 | with non-negative weights no walk costs less than zero, which makes the early stop at the destination sound |

## Left out

- IEEE double arithmetic is not modelled. Weights and costs are mathematical reals, so rounding, overflow to infinity and NaN weights do not arise. Infinity is a missing key of `dist`.
- The traversal order and Dijkstra's tie-breaking are not modelled. The order of `unordered_map` iteration is an arbitrary choice (`:|`), and so is the choice among frontier entries of equal cost (the source breaks ties by comparing names). So the results are specified as sets, first elements and optimal costs, not as exact sequences.
- Graphs.Graph.BFS, Graphs.Graph.DFS: the contracts do not state the discovery order (level order for BFS, stack order for DFS), because that order depends on the iteration order of the neighbour maps.
- The `priority_queue` is modelled as a set of (cost, city) pairs. The source cannot push the same pair twice, because a push always carries a cost strictly below the city's current label, so a set holds exactly what the queue holds.
- The search loop, the relaxation of one edge, the relaxation loop and the path reconstruction are separate methods (`Search`, `RelaxEdge`, `RelaxNeighbours`, `Reconstruct`). The strip loop of `deleteCity` is `StripCity`. These are the same statements as the source, split for the proof.
- The in-place `std::reverse` is the function `Reversed` applied to the reversed path built by the loop.
- `deleteCity` is modelled as iterating over a snapshot of the city names while it rewrites each neighbour map in place; the source's range-for touches every city once in the same way.
- Graphs.Graph.GetNumberOfCities: returns the counter; it equals the number of cities only while the count is exact (`Counted()`), because `addEdge` can create cities without counting them.
- `src/graph.hpp` is not part of this model. The constructor is assumed to start from an empty table with a counter of 0, and an empty `PathResult` is taken to have `distanceOrTime` 0.
- The Qt user interface (`src/mainwindow.cpp`: dialogs, drawing, force-directed layout, animation timers and the `max` helper) is not modelled. It only calls into the engine.
- The named-graph registry and the saving and loading of graphs are not modelled. They are file I/O and selection state outside the engine.
