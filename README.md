# Nearest Neighbour tour construction, modelled in Dafny

This project models the tour construction of a small browser demo of the
Nearest Neighbour heuristic for the travelling salesman problem. It proves
properties of that model.

- **Graph** (`graph.dfy`) models `js/uGraph.js`. A complete undirected graph
  over nodes with integer canvas coordinates. The distance table (one
  adjacency list per node) is an `array2<real>` that `InitializeGraphEdges`
  fills in place, one computed distance per unordered pair. `FindDistance`
  reads the table. `CheckIfNodeTouchBoundaries` is the margin test used when
  nodes are placed.
- **Trips** (`trip.dfy`) models `js/trip.js`. A `Trip` object holds the
  append-only `path` and the `availableNodes` list. `AddToPath` shrinks the
  list with JavaScript's `splice(indexOf(node), 1)`. This is modelled
  exactly, including an absent node: `indexOf` answers -1, and
  `splice(-1, 1)` then removes the last element.
- **Algos** (`nearest_neighbor.dfy`) models `js/algos/nearestNeighbor.js`.
  `NearestNeighbor.FindPath` places the start node. It then appends the
  nearest available node to the last one (`FindNearestNode`) until every
  node is on the path, and appends the start node once more to close the
  cycle.

Each method is proved against a pure reference function:
- `FindNearestNode` equals `Nearest`. This is a running minimum with a strict
  `<`, started at `Number.MAX_VALUE`. It skips zero entries (the node
  itself) and unavailable nodes, and answers `1` when nothing qualifies.
- `FindPath` ends in the state `Run(g, start)`.
- `CalculateTotalDistance` equals `PathLength`.

Most lemmas about `Tour`, `Run` and `Placed` assume a graph whose distinct
nodes have non-zero table entries below `Number.MAX_VALUE` (the predicate
`Separated`). The two halves have different grounds in the source. The
overlap test of node placement rejects a node within four radii of another,
which gives the non-zero half. The bound below `Number.MAX_VALUE` comes from
node coordinates being integers on the canvas (`createNode`), not from that
test. `Separated` is stated over the table, so for an arbitrary distance
function it is an assumption of the lemmas, not a consequence of the model.
Under that condition the tour:
- visits every node exactly once before returning (a permutation of 0..n-1);
- takes at each step a nearest unvisited node, the lowest index winning a tie.

On every graph, separated or not, the tour leaves no node available. This
includes graphs with coincident nodes, where the default `1` is chosen and
`splice(-1, 1)` drops the last entry instead.

The model follows the code as written, quirks included:
- `findNearestNode` falls back to node `1` and does not validate.
- `addToPath` applies `splice(indexOf(x), 1)` without checking that `x` is
  available.
- The source's loop guard is `this.graph.length`. The trip is built from
  `numNodes`. The model uses the one node count `UGraph.numNodes`, which is
  `|nodes|`.

## Model

| member | source | states |
|---|---|---|
| Graph.UGraph.constructor | js/uGraph.js:13-24 | the graph keeps the given nodes and radius, and its table is square and fully populated |
| Graph.UGraph.InitializeGraphEdges | js/uGraph.js:68-88 | after the fill, every cell holds its pair's weight, the diagonal is 0, the table is symmetric, and for i < j cell [i, j] is the distance from node i to node j |
| Graph.UGraph.FindDistance | js/uGraph.js:187-190 | the stored distance is the pair's weight, the same read in either order, and 0 from a node to itself |
| Graph.UGraph.CheckIfNodeTouchBoundaries | js/uGraph.js:147-162 | the margin test; what it means is the contract of `InsideMeansMarginOnCanvas` |
| Graph.UGraph.InsideMeansMarginOnCanvas | js/uGraph.js:147-162 | a node does not touch the boundaries exactly when every point within three radii of it, coordinate-wise, lies on the canvas |
| Trips.Trip.constructor | js/trip.js:7-26 | a new trip has an empty path and every node 0..n-1 available, in ascending order |
| Trips.IotaCounts | js/trip.js:20-26 | the initial available list holds every node below n exactly once and nothing else |
| Trips.IndexOf | js/trip.js:38 | indexOf answers -1 exactly when the node is absent, and otherwise its first position |
| Trips.Trip.IsNodeAvailable | js/trip.js:35-42 | true exactly when the node is in the available list |
| Trips.SpliceOne | js/trip.js:53 | splice(start, 1) removes exactly the element at the normalised start and keeps the rest in order: index `start` for a start in range, the length plus `start` for a negative start down to minus the length, the first element for a start below that, nothing for a start past the end, and an empty list stays empty whatever the start |
| Trips.Withdraw | js/trip.js:53 | `splice(indexOf(node), 1)`; what it leaves is the contract of `WithdrawFacts` |
| Trips.WithdrawFacts | js/trip.js:38-53 | splicing out an available node removes its first occurrence and keeps the rest in order; splicing out an absent node drops the last entry, if there is one |
| Trips.Trip.AddToPath | js/trip.js:49-54 | the node is appended to the path and spliced out of the available list, and nothing else changes |
| Trips.PartitionFacts | js/trip.js:49-54 | when path and available list together hold each node once, the path has no repeats, the two lists are disjoint and their sizes add up to n |
| Trips.WithdrawKeepsPartition | js/trip.js:49-54 | moving an available node from the list to the path keeps each node in exactly one of the two |
| Trips.Trip.CalculateTotalDistance | js/trip.js:59-67 | the result is the sum of the stored distances of consecutive path entries |
| Trips.PathLengthNonNegative | js/trip.js:59-67 | with a non-negative distance, a path's total length is non-negative |
| Trips.SingleLoopLength | js/trip.js:59-67 | the closed tour of a single node has length 0 |
| Algos.BestBelowIsNearest | js/algos/nearestNeighbor.js:73-82 | the scan over the first entries of a row finds nothing exactly when no node there is eligible; otherwise it finds a nearest eligible node, and every eligible node of lower index is strictly farther |
| Algos.NearestIsNearest | js/algos/nearestNeighbor.js:65-85 | the chosen node is the nearest eligible one, lowest index on ties, or 1 when no node is eligible |
| Algos.NearestUnique | js/algos/nearestNeighbor.js:73-82 | the nearest node with its tie-break is unique |
| Algos.NearestSameMembership | js/algos/nearestNeighbor.js:78 | the choice depends only on which nodes are available, not on their order in the list |
| Algos.NearestNeighbor.FindNearestNode | js/algos/nearestNeighbor.js:65-85 | the running-minimum loop answers exactly the reference choice Nearest |
| Algos.ScanAgrees | js/algos/nearestNeighbor.js:65-85 | any answer meeting the nearest-node conditions (or 1 when none is eligible) is the reference choice |
| Algos.Grow | js/algos/nearestNeighbor.js:41-50 | from a path shorter than n, the main loop ends with a path of n entries that extends the one it started from |
| Algos.GrowStep | js/algos/nearestNeighbor.js:43-49 | one turn of the main loop appends a node of the graph, and the rest of the loop continues from the new state |
| Algos.GrowDone | js/algos/nearestNeighbor.js:41 | once the path has n entries the main loop stops |
| Algos.RunCloses | js/algos/nearestNeighbor.js:52-54 | appending the first node to the main loop's final state gives the finished state |
| Algos.NearestNeighbor.FindPath | js/algos/nearestNeighbor.js:32-55 | the trip ends in the reference state Run(g, start): start node, main loop, closing append |
| Algos.NearestNeighbor.constructor | js/algos/nearestNeighbor.js:14-26 | building the solver runs findPath, so the trip holds the finished tour from the start node |
| Algos.Tour | js/algos/nearestNeighbor.js:32-55 | the closed tour has n + 1 entries, starts and ends at the start node, and names only nodes of the graph |
| Algos.Placed | js/algos/nearestNeighbor.js:41-50 | before the closing append, the path has n entries from the start node, and the tour is that path plus the start node |
| Algos.AvailableIsEligible | js/algos/nearestNeighbor.js:78 | in a separated graph, every available node passes the "non-zero and shorter than Number.MAX_VALUE" test |
| Algos.NextIsNearestUnvisited | js/algos/nearestNeighbor.js:43-46 | while nodes remain, the node appended is available and is the nearest node not yet on the path |
| Algos.GrowPlacesAll | js/algos/nearestNeighbor.js:41-50 | from a partitioned state the main loop places every remaining node once, each the nearest unvisited node |
| Algos.PlacedFromStart | js/algos/nearestNeighbor.js:35-50 | from the start node, the main loop ends with every node placed once, nothing available, and every step greedy |
| Algos.TourIsPermutation | js/algos/nearestNeighbor.js:32-55 | the tour's first n entries are a permutation of the nodes 0..n-1, pairwise distinct |
| Algos.TourIsGreedy | js/algos/nearestNeighbor.js:41-50 | every step of the tour goes to a nearest unvisited node, the lowest index winning a tie |
| Algos.GrowEmpties | js/algos/nearestNeighbor.js:41-50 | on any graph, when path and list together hold n entries, the main loop ends with the available list empty, whichever nodes it chose |
| Algos.TourLeavesNothingAvailable | js/algos/nearestNeighbor.js:35-54 | on any graph, the closing append finds the available list empty and leaves it empty |
| Algos.SingleNodeTour | js/algos/nearestNeighbor.js:32-55 | a graph of one node gives the tour [start, start], of length 0 |
| Algos.TourLengthNonNegative | js/algos/nearestNeighbor.js:128-130 | with a non-negative distance, the tour's total distance is non-negative |
| Algos.NearestNeighbor.CalculateDistance | js/algos/nearestNeighbor.js:128-130 | the solver's total distance is the trip's path length |

## Left out

- Drawing, the canvas, the page's buttons and the timing (`drawNodes`, `drawPath`, `js/canvas.js`, `js/index.js`): user interface only.
- Random node placement (`initializeGraphNodes`, `createNode`) and the overlap test (`checkIfNodesOverlap`). The graph constructor takes the node list as an argument. The overlap test's guarantee (non-zero distances between distinct nodes) and the bound below `Number.MAX_VALUE` that on-canvas integer coordinates give together form the assumption `Separated` of the tour lemmas.
- `calculateDistance` of `js/uGraph.js` (square root over floating point): the graph is given an arbitrary distance function on points. Table entries are `real`, not IEEE doubles, so rounding is not modelled.
- The random start of `findPath`: the start node is a parameter below the node count.
- An empty graph. There, `findPath` would produce the path [0, 0] for a node that does not exist, and `calculateDistance` would then fail. The model requires at least one node.
- `numNodes` read from the page as a string, and node indices outside the graph: callers must pass node counts and indices in range.
- Trips.Trip.AddToPath: the ensures states only the new path and list. The partition it preserves is the separate lemma `WithdrawKeepsPartition`.
- Algos.NearestNeighbor.FindNearestNode: the ensures states equality with the reference `Nearest`. The nearest-node property itself is the lemma `NearestIsNearest`.
- The trip's `canvas` reference: used only for drawing.
- The solver's `graph` field: it is the same array as the graph's node list `uGraph.graph`, and the source reads its length for the random start and the main loop guard and `graph[currNode].adjList` for a table row. The model reads `uGraph.numNodes` and `uGraph.adjList` in its place, so the alias itself is not modelled.
