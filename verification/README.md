# Dijkstra shortest-distance query engine

A Dafny model of `DijkstraAlgorithm.java`, which answers shortest-distance queries on a directed graph with non-negative edge weights. The model covers its two parts.

- **The constructor** (lines 36-57) groups the edges `<start, end, weight>` by source into an adjacency map, keeping input order. It collects the distinct endpoints, sorts them and gives each a dense index `0 .. n-1`. It sizes the distance array to `n`.
- **`queryShorestDist(start, end)`** (lines 60-101) answers 0 when `start == end`, and -1 when `start` has no outgoing edge. Otherwise it resets the distances, seeds `start` with 0 and runs the min-heap loop:
  - poll a minimal entry and finalize its node;
  - return its distance if it is `end`;
  - otherwise relax the node's outgoing edges, skipping finalized neighbours.

  Stale heap entries are allowed. A node polled a second time is relaxed again, as in the source.

Modules, one per concern:

- `Graph`: edges, the `Node(val, dist)` pair, paths, path weight and "shortest distance" (`IsShortest`). This is the reference every answer is judged against.
- `Indexing`: the sorted distinct endpoints and the dense index built from them.
- `Construction`: the engine `Engine(adj, index, n)` the constructor builds, and its well-formedness.
- `Frontier`: the heap as a sequence with extract-minimum, and the count of stale entries.
- `Dijkstra`: one query as pure functions over scratch state `Scratch(distance, finalized, frontier)`:
  - `RelaxEdge` and `RelaxAll` for the inner loop;
  - `Step` and `Run` for the outer loop;
  - `Initial` and `Query`.

  Answers are `Distance(d)` or `Unreachable`, and `Sentinel` maps them to the source's `int`, with -1 for unreachable. Distances are `Inf | Fin(nat)`.
- `Correctness`: the loop invariant `Good`, its preservation by fresh and stale polls alike, and the theorem `QueryCorrect`.
- `DijkstraAlgorithm`: the query as the source writes it, as methods with a `while` loop and a `for` loop over the neighbours. The one exception is line 79: here the method reads `end`'s slot through the index, and `AsWritten` models the line as written. It is proved to compute exactly `Dijkstra.Query`.
- `AsWritten`: the query with line 79 as written, which reads `distance` at the raw label. It includes a graph on which that query answers wrongly.
- `Samples`: the sample graph of `main` and its four queries.

## Model

| member | source | states |
|---|---|---|
| Graph.SelfDistanceZero | DijkstraAlgorithm.java:61-63 | every label is at shortest distance 0 from itself, even a label absent from the graph |
| Graph.NoOutgoingEdgeNoPath | DijkstraAlgorithm.java:64-66 | a start that is no edge's source reaches no other label, so answering -1 there is right |
| Graph.ShortestUnique | DijkstraAlgorithm.java:59 | the shortest distance between two labels is unique, so "the" answer is well defined |
| Indexing.InsertSorted | DijkstraAlgorithm.java:44-49 | adding an endpoint to the sorted, duplicate-free list keeps it sorted and duplicate-free, and its elements are the old ones plus the new one |
| Indexing.SortedNodes | DijkstraAlgorithm.java:40-49 | the list is strictly increasing, and holds exactly the sources and destinations of the edges |
| Indexing.IndexMap | DijkstraAlgorithm.java:50-52 | the `i`-th sorted label gets index `i`; the keys are exactly the listed labels; every index is below the count; a smaller label gets a smaller index |
| Indexing.IndexInjective | DijkstraAlgorithm.java:50-52 | distinct labels get distinct indices |
| Indexing.RankIsPosition | DijkstraAlgorithm.java:48-51 | in the sorted list, exactly `i` labels are smaller than the `i`-th |
| Construction.OutgoingMembership | DijkstraAlgorithm.java:41-46 | `(v, w)` is a neighbour of `u` exactly when `<u, v, w>` is an input edge |
| Construction.AddEdgeGroups | DijkstraAlgorithm.java:42-43 | the contract of `Construction.AddEdge`: one loop iteration turns a grouping of a prefix of the edges into the grouping of the prefix extended by that edge, in input order |
| Construction.BuildAdjacency | DijkstraAlgorithm.java:41-46 | the keys are exactly the edge sources, and each list holds that source's neighbours in input order |
| Construction.Build | DijkstraAlgorithm.java:36-57 | the engine represents the edges: every endpoint is indexed, the index is injective onto `[0, n)` with `n` the number of distinct endpoints, and the adjacency lists hold exactly the edges |
| Construction.IndexBijection | DijkstraAlgorithm.java:47-52 | the index maps the distinct endpoints onto `[0, n)`, hits every position, and preserves order |
| Construction.IndexIsRank | DijkstraAlgorithm.java:47-52 | a label's index is the number of distinct endpoints smaller than it |
| Construction.DenseLabelsIdentity | DijkstraAlgorithm.java:50-52 | when the endpoints are exactly `0 .. n-1`, every label is its own index |
| Frontier.MinIndex | DijkstraAlgorithm.java:74 | `poll` picks an entry whose key is no larger than any other key, the first such entry |
| Frontier.RemoveAt | DijkstraAlgorithm.java:74 | `poll` removes exactly the chosen entry: the multiset of entries loses that one and keeps the rest |
| Frontier.StaleCountRemove | DijkstraAlgorithm.java:74-76 | polling an entry whose node is already finalized leaves one stale entry fewer |
| Dijkstra.Sentinel | DijkstraAlgorithm.java:60-100 | -1 encodes exactly `Unreachable`; a non-negative value encodes exactly a distance, and is that distance |
| Dijkstra.Initial | DijkstraAlgorithm.java:67-71 | every indexed node's distance is infinite except the start's, which is 0; nothing is finalized; the start is the only frontier entry |
| Dijkstra.RelaxEdge | DijkstraAlgorithm.java:84-95 | a finalized neighbour changes nothing; otherwise its distance becomes the minimum of the old distance and `du + w`, it is pushed with that distance, and no other distance changes |
| Dijkstra.RelaxAllFacts | DijkstraAlgorithm.java:83-96 | the contract of `Dijkstra.RelaxAll`: the neighbour loop only appends to the frontier, never raises a distance or touches a finalized one, and leaves every relaxed edge satisfied; it changes a distance only to `du` plus a relaxed edge's weight, and pushes that value; it changes nothing when every edge was already satisfied |
| Dijkstra.Step | DijkstraAlgorithm.java:72-98 | an iteration either pops `end`, the polled minimal node, with its distances untouched and `end` now finalized, or, when the polled node is not `end`, goes on with it finalized and the state still well-shaped |
| Dijkstra.StepMonotone | DijkstraAlgorithm.java:76-94 | an iteration that goes on lowers distances only and never changes a finalized distance; every entry for a finalized node was already in the frontier (by value; `Dijkstra.StepFrame` states it by count) |
| Dijkstra.StepFrame | DijkstraAlgorithm.java:76-94 | counted as a multiset, as the heap is, an iteration that goes on pushes no new entry for a finalized node: it holds no more copies of any such entry than before |
| Dijkstra.StepDecreases | DijkstraAlgorithm.java:72-98 | each iteration finalizes a new node or discards a stale entry, so the loop terminates |
| Dijkstra.Run | DijkstraAlgorithm.java:72-100 | the loop yields a result only by popping `end`, which is then finalized and has a finite distance; otherwise it ends exhausted |
| Correctness.InitialGood | DijkstraAlgorithm.java:67-71 | the seeded state satisfies the loop invariant |
| Correctness.PolledIsShortest | DijkstraAlgorithm.java:74-80 | a node polled for the first time carries its exact distance, and that distance is its shortest distance |
| Correctness.StaleStepGood | DijkstraAlgorithm.java:81-96 | relaxing again after a stale poll changes no distance and keeps the invariant |
| Correctness.StepGood | DijkstraAlgorithm.java:72-98 | an iteration either pops `end` with its shortest distance or keeps the invariant |
| Correctness.ExhaustedUnreachable | DijkstraAlgorithm.java:72-100 | if `end` is reachable, the loop condition still holds: the frontier is non-empty and some node is not finalized |
| Correctness.RunCorrect | DijkstraAlgorithm.java:72-100 | from a state satisfying the invariant, the loop returns the shortest distance to `end`, or stops only when `end` is unreachable |
| Correctness.QueryCorrect | DijkstraAlgorithm.java:59-101 | the contract of `Dijkstra.Query`: on an engine for the edges, the query answers `Distance(d)` exactly when `d` is the minimum path weight from start to end, and `Unreachable` exactly when no path exists |
| DijkstraAlgorithm.QueryShortestDist | DijkstraAlgorithm.java:60-101 | the imperative query returns -1 exactly when `end` is unreachable, and otherwise the minimum path weight |
| DijkstraAlgorithm.Search | DijkstraAlgorithm.java:61-100 | the `while` loop returns the encoding of the functional query's answer |
| DijkstraAlgorithm.StepOf | DijkstraAlgorithm.java:72-97 | one pass of the `while` body polls the minimal entry and continues exactly as `Run` does, in each of the three cases (end popped, relax, no edges) |
| DijkstraAlgorithm.RelaxNeighbours | DijkstraAlgorithm.java:83-96 | the `for` loop computes the functional relaxation pass; it rereads the polled node's distance for each neighbour, and that distance never changes |
| AsWritten.ReadAsWritten | DijkstraAlgorithm.java:79 | `distance[u]` throws exactly when the label is outside `[0, n)`. Otherwise it returns the distance of whichever label has index `u`, which is `u`'s own distance when `u` is its own index |
| AsWritten.QueryAsWritten | DijkstraAlgorithm.java:60-101 | the query as written answers -1 whenever the corrected query answers unreachable. It departs from the corrected query's encoded answer only when the loop pops `end`, i.e. only at line 79 |
| AsWritten.AsWrittenAgreesOnDenseLabels | DijkstraAlgorithm.java:79 | when every label is its own index, line 79 as written returns the corrected answer |
| AsWritten.DenseAsWritten | DijkstraAlgorithm.java:79 | when the endpoints are exactly `0 .. n-1`, line 79 as written returns the corrected answer |
| AsWritten.SparseQueryMisread | DijkstraAlgorithm.java:79 | for edges `<0,2,7>, <0,5,1>` the shortest distance from 0 to 2 is 7 and the corrected query returns 7, but the code as written returns 1 |
| Samples.Shortest03 | DijkstraAlgorithm.java:13-15 | in the sample graph, the shortest distance from 0 to 3 is 5 |
| Samples.Shortest21 | DijkstraAlgorithm.java:13-16 | in the sample graph, the shortest distance from 2 to 1 is 2 |
| Samples.Unreachable30 | DijkstraAlgorithm.java:13-18 | in the sample graph, 0 cannot be reached from 3 |
| Samples.SampleQueries | DijkstraAlgorithm.java:13-18 | the engine built from the sample edges answers 5, 2, 0 and unreachable to the four queries, each the true shortest distance |
| Samples.SampleAsWritten | DijkstraAlgorithm.java:13-18 | on the sample graph the labels are `0 .. 4`, so line 79 as written returns the corrected answer to every query |
| Samples.SampleMain | DijkstraAlgorithm.java:11-19 | the imperative query on the sample graph returns 5, 2, 0 and -1 |

## Left out

- `main`'s `System.out.println` calls (lines 15-18): `Samples.SampleMain` returns the four values instead of printing them.
- The `pq` and `set` fields are created once (lines 54-55) and never cleared, so a query starts from whatever the previous query left behind. The model runs every query from an empty frontier and an empty finalized set. In the sample of `main` this leftover state does not change the printed answers. In general it does: once every node has entered `set`, the loop of line 72 never runs again, and later queries that reach the loop (`start != end`, `start` a source) answer -1.
- The `distance` field is reused across queries. Line 68 resets every slot, so the model allocates a fresh array of `n` slots per query, which is equivalent.
- The internals of `HashMap`, `HashSet` and `PriorityQueue`. They are modelled as a map, a set and a sequence with extract-minimum.
- Tie-breaking in the heap: the model polls the first entry with the smallest key, while the Java heap may poll any entry with that key. The model proves its answers only for this one poll order.
- `Integer.MAX_VALUE` as "infinite" (line 68) is modelled as the constructor `Inf`.
- 32-bit overflow is not modelled:
  - of `next.dist + distance[...]` (line 88);
  - of the comparator `a.dist - b.dist` (line 54);
  - of large labels.

  Distances and labels are unbounded integers.
- Negative weights, which the source never rejects. Weights are naturals, so every contract assumes non-negative weights.

## Findings

| source | as written | input that shows it | evidently intended | confidence | as-written member | corrected member |
|---|---|---|---|---|---|---|
| DijkstraAlgorithm.java:79 | returns `distance[u]`, reading the distance array at the node label | edges `<0,2,7>, <0,5,1>`, query `(0, 2)`: labels 0, 2, 5 get indices 0, 1, 2, so slot 2 holds label 5's distance and the call returns 1 instead of 7; a label outside `[0, n)` throws `ArrayIndexOutOfBoundsException` | `distance[indexes.get(u)]`, the shortest distance of `end` | not executed | AsWritten.SparseQueryMisread | Correctness.QueryCorrect |
