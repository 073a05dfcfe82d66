# Maximum flow in a logistics network (Edmonds–Karp)

The program describes a logistics network as a table of weighted, directed
edges: two terminals supply four warehouses, and those supply fourteen shops.
It turns the table into a dense node index, in the order in which nodes first
appear as edge endpoints, and into an N×N capacity matrix. It then runs
Edmonds–Karp from "Термінал 2" to "Магазин 14". Each round is a
breadth-first search over residual capacity that records parent links. The
bottleneck of the path it finds is pushed along that path, and its reverse
arcs are credited with the same amount. The total grows by the bottleneck
until no augmenting path is left.

This project models that core in Dafny, in five modules:

- `FlowNetwork` (`flow_network.dfy`) holds the value-level definitions on
  matrices (`seq<seq<int>>`):
  - residual capacity, net outflow and flows (skew-symmetric, within
    capacity, conserved away from source and sink);
  - simple and augmenting paths, bottleneck, and augmentation along a path;
  - `Holds`, which ties a two-dimensional array to the matrix it contains.
- `Cuts` (`cuts.dfy`) holds cuts, their capacity, weak duality and
  max-flow/min-cut.
- `CapacityModel` (`capacity_model.dfy`) covers:
  - the node labels, in order of first appearance;
  - the index map;
  - the capacity matrix, filled in place.
- `MaxFlowEngine` (`max_flow_engine.dfy`) is the engine itself, written
  imperatively:
  - the capacity matrix, flow matrix, parent links and visited marks are
    arrays;
  - the search queue is a sequence that is popped from the front;
  - each method is proved against the `FlowNetwork` definitions.
- `RepositoryNetwork` (`repository_network.dfy`) holds the program's own
  edge table. For it, the value returned is 10: "Магазин 14" has a single
  incoming edge, from "Склад 4", of capacity 10.

Two facts about the code shape the model:

- The parent array is allocated once per Edmonds–Karp call and reused
  across searches, so entries written by earlier searches survive. The
  model keeps them, and proves that a search only ever follows entries it
  wrote itself.
- Flow cells can go negative. Crediting the reverse arc makes the flow
  skew-symmetric, so what holds of every cell is F[i][j] ≤ C[i][j],
  together with skew symmetry.

The scan of one node's neighbours (task1.py:68-76) is its own method,
`ScanNeighbours`, called once per queue entry by `Bfs`.

## Model

| member | source | states |
|---|---|---|
| CapacityModel.NodeLabelsProperties | task1.py:33 | The node labels are distinct and include both endpoints of every edge. Every label is an endpoint of some edge. Labels are ordered by first appearance in the edge list. |
| CapacityModel.DedupKeepsFirstOccurrenceOrder | task1.py:33 | Removing repeated labels keeps the order of first occurrences. |
| CapacityModel.IndexMapBijection | task1.py:111 | The index map is injective. It maps onto 0..N-1, and indexing the labels at a key's index gives the key back. |
| CapacityModel.CapacityMatrix | task1.py:114-120 | The matrix is N×N. Every cell holds the weight of the last edge listed between those two indices, or 0 if there is none. |
| CapacityModel.BuildNetwork | task1.py:111-120 | Returns the labels, the index map and the capacity matrix. The map is an injective index of every endpoint into 0..N-1, and the array holds the capacity matrix. |
| CapacityModel.CapacityOfEdge | task1.py:117-120 | An edge that no later edge repeats leaves its weight in its cell. |
| CapacityModel.CapacityWithoutEdge | task1.py:115 | A cell that no edge maps to keeps its initial 0. |
| FlowNetwork.BottleneckIsMinimum | task1.py:89-95 | The bottleneck is at most every arc's residual capacity and equal to one of them. |
| FlowNetwork.PositiveArcsBottleneck | task1.py:89-95 | A path whose every arc has positive residual capacity has a positive bottleneck. |
| FlowNetwork.BottleneckPositive | task1.py:89-95 | On an augmenting path the bottleneck is positive. |
| FlowNetwork.AugmentCell | task1.py:98-103 | After pushing d along a simple path, a path arc holds d more and its reverse d less. Every other cell is unchanged. |
| FlowNetwork.AugmentNetOut | task1.py:98-103 | Pushing d along a path raises the start's net outflow by d and lowers the end's by d. Every other node's is unchanged. |
| FlowNetwork.PushNetOut | task1.py:101-102 | One arc update raises u's net outflow by d and lowers v's by d. Every other node's is unchanged. |
| FlowNetwork.AugmentSkew | task1.py:101-102 | Crediting the reverse arc keeps the flow skew-symmetric. |
| FlowNetwork.AugmentWithinCapacity | task1.py:89-103 | Pushing at most the bottleneck keeps every cell within capacity. |
| FlowNetwork.AugmentPreservesFlow | task1.py:87-106 | Augmenting a flow along an augmenting path by at most its bottleneck gives a flow whose value is larger by exactly that amount. |
| FlowNetwork.ZeroIsFlow | task1.py:82 | The all-zero starting matrix is a flow of value 0. |
| FlowNetwork.ValueAtMostSourceCapacity | task1.py:106 | A flow's value never exceeds the total capacity out of the source. |
| Cuts.FlowAcrossCut | task1.py:80-108 | The value of a flow equals the net flow on the arcs leaving any set that holds the source and not the sink. |
| Cuts.WeakDuality | task1.py:80-108 | No flow's value exceeds the capacity of any cut separating source from sink. |
| Cuts.SaturatedCut | task1.py:65-77 | Suppose the set of nodes a search reached is closed under positive-residual arcs and excludes the sink. Then every arc leaving it is saturated, and the flow's value equals its capacity. |
| Cuts.MaxFlowMinCut | task1.py:80-108 | A flow with a residual-closed cut is maximum: no flow is worth more, and no cut has less capacity. |
| Cuts.NoAugmentingPath | task1.py:65-77 | A residual-closed set holding the source but not the sink rules out every augmenting path. |
| Cuts.ClosedSetHoldsPath | task1.py:65-76 | A residual-closed set holding a path's start holds every node of that path. |
| Cuts.SourceIsSinkValue | task1.py:61-63 | With the sink equal to the source, every flow has value 0. |
| MaxFlowEngine.SearchStarts | task1.py:61-63 | The search begins with only the source visited and queued, and with its path [source]. |
| MaxFlowEngine.SearchVisits | task1.py:70-75 | Reaching a new node other than the sink sets its parent, marks it and queues it. This keeps the search invariant, including a known simple path to the new node. |
| MaxFlowEngine.SearchFindsSink | task1.py:70-74 | Reaching the sink yields an augmenting path that the parent links follow back to the source. |
| MaxFlowEngine.SearchScans | task1.py:66-76 | After a node's scan, all its positive-residual successors have been reached. |
| MaxFlowEngine.SearchExhausted | task1.py:65-77 | When the queue runs dry, the reached set is closed under positive-residual arcs. It contains the sink only if the sink is the source. |
| MaxFlowEngine.TreeLinks | task1.py:71 | Every reached node other than the source has a reached parent, joined to it by a positive-residual arc. |
| MaxFlowEngine.FrontierOpens | task1.py:66 | Popping the front of the queue starts its scan: every reached node is scanned, queued or the one being scanned, and the rest of the queue lies within one layer of it. |
| MaxFlowEngine.FrontierCloses | task1.py:65-76 | Once a node's scan ends, every reached node is scanned or queued, and the queue is ordered by path length within one layer of its front. |
| MaxFlowEngine.WalkToUnreached | task1.py:65-76 | While a node is being scanned, any positive-residual walk from the source to a node not yet reached is longer than the scanned node's path. |
| MaxFlowEngine.ShortestStarts | task1.py:61-63 | The search starts with the source's one-node path, which no walk undercuts. |
| MaxFlowEngine.ShortestVisits | task1.py:70-75 | Reaching a new node gives it a path no walk undercuts, and queues it in the layer after the scanned node's. |
| MaxFlowEngine.ShortestToSink | task1.py:70-74 | The augmenting path found on reaching the sink is no longer than any augmenting path. |
| MaxFlowEngine.GrownStep | task1.py:70-72 | Reaching one more positive-residual successor of the scanned node and making that node its parent keeps every earlier parent, and only adds to the reached set. |
| MaxFlowEngine.ScanNeighbours | task1.py:68-76 | Scanning one node only adds to the reached set. Every node it reaches is a positive-residual successor of the scanned node and gets it as parent. Parents of nodes reached earlier are kept. Without the sink, the queue is the old one with the new nodes appended, every positive-residual successor of the node has been reached, and the search invariant and the queue's layering are kept. On reaching the sink it returns a shortest augmenting path that the parent links follow. |
| MaxFlowEngine.Bfs | task1.py:60-77 | On True, the parent links lead from the sink back to the source along an augmenting path, and no augmenting path is shorter. On False, the reached set holds the source, is closed under residual arcs and excludes the sink unless the sink is the source, so no augmenting path exists. Parent entries outside the reached set are untouched. |
| MaxFlowEngine.PathBottleneck | task1.py:89-95 | The value read along the parent links equals the bottleneck of the path found. |
| MaxFlowEngine.PushArc | task1.py:100-102 | The flow matrix afterwards is the old one with d added on (u, v) and taken from (v, u). |
| MaxFlowEngine.AugmentPath | task1.py:98-103 | The flow matrix afterwards is the old one augmented by pathFlow along the path found. |
| MaxFlowEngine.AugmentAlongPath | task1.py:89-106 | One round pushes exactly the path's bottleneck: the new matrix is the old one augmented by it along the path. The result is again a flow. Its value grows by that positive amount and stays within the source's outgoing capacity. |
| MaxFlowEngine.ZeroFlow | task1.py:82 | A fresh n×n flow array whose every cell is 0, holding the zero matrix. |
| MaxFlowEngine.SearchFailedMaximum | task1.py:87-108 | When a search fails, the reached set is a cut whose capacity is the flow's value, so the flow is maximum and the cut minimum; with source equal to sink the value is 0. |
| MaxFlowEngine.EdmondsKarp | task1.py:80-108 | The result is the value of a flow, between 0 and the source's outgoing capacity, and 0 when source equals sink. No flow is worth more and no cut has less capacity. The last search's reached set is a cut of exactly that capacity, with every leaving arc saturated. |
| RepositoryNetwork.SinkColumn | task1.py:25-29 | In any indexing of the table, "Склад 4" → "Магазин 14" has capacity 10, and no other node has an arc into "Магазин 14". |
| RepositoryNetwork.SourceArc | task1.py:14 | "Термінал 2" → "Склад 4" has capacity 30. |
| RepositoryNetwork.TableBounds | task1.py:9-30 | The cut leaving only "Магазин 14" outside has capacity 10, and some flow from "Термінал 2" to "Магазин 14" has value 10. |
| RepositoryNetwork.RepositoryMaxFlow | task1.py:122-126 | Building the network from the table and running Edmonds–Karp from "Термінал 2" to "Магазин 14" returns 10. |

## Left out

- The graph library object and its drawing (task1.py:1-6, 32-57, 128-138) are left out. So is the printed result: they are I/O. The edge table's own order stands in for the graph's node and edge iteration order. Its node order is the order of first appearance, and its edge order ends with the same cell values, because only the last weight listed for an ordered pair survives.
- task2.py is not part of this model.
- The `node_index_map` argument of `bfs` and `edmonds_karp` is never used by either function, so the model omits it.
- `float('Inf')` as the starting bottleneck is not modelled. PathBottleneck starts from the residual of the arc into the sink, which gives the same minimum, since the path has at least one arc.
- Capacities are natural numbers. The code accepts any weight and does not check for negatives. EdmondsKarp requires a non-negative capacity matrix.
- Source and sink are required to be valid indices. The code obtains them from the index map, so a label missing from it would raise a KeyError before the engine runs; that error is not modelled.
- The ghost matrices are specification only. EdmondsKarp takes the capacity matrix C as a ghost parameter beside the array and returns the flow and the cut as ghost results. Bfs, ScanNeighbours, PathBottleneck and AugmentAlongPath take the capacity and flow matrices as ghost parameters; AugmentPath and PushArc take only the flow matrix. The paths found and the reached sets are ghost as well.
- MaxFlowEngine.EdmondsKarp: the O(V·E) bound on the number of augmentation rounds is not proved. Termination is proved instead from the bound on the value by the source's outgoing capacity. Each search scans a whole matrix row for every node it takes from the queue (task1.py:68), so one search costs O(V²) steps, not O(E).
- Integers are unbounded, as Python's are; no overflow is modelled.
