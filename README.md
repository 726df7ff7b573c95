# Graph algorithms: shortest paths, spanning trees and maximum flow

This project models the algorithm core of a small C++ graph library. Each
algorithm takes a `Graph`: a vertex count, a directedness flag and an ordered
list of `(from, to, weight)` edges over the vertices `1..vertexCount`. Every
per-vertex vector has `n + 1` slots. The algorithms modelled are:

- **Bellman–Ford** (`bellman_ford.dfy`). `dist` starts at `INF_1` except for
  the start vertex. There are `n - 1` rounds; each round scans the edge list
  and relaxes `u -> v` and, in an undirected graph, also `v -> u`.
- **Dijkstra** (`dijkstra.dfy`). It builds adjacency lists from the edge list
  and runs a lazy-deletion min-heap of `(distance, vertex)` entries. A
  popped entry whose distance is stale is skipped.
- **Kruskal** (`kruskal.dfy`, `disjoint_set.dfy`). It sorts the edges by
  weight and keeps every edge whose endpoints are in different classes of a
  disjoint-set forest, merging those classes. The forest has path
  compression and links the root of `b` under the root of `a`.
- **Prim** (`prim.dfy`). It grows a tree from vertex 1, using a min-heap of
  `(weight, from, to)` candidates and an `inMST` vector. Candidates that lead
  back into the tree are skipped. The loop stops when the heap is empty or
  `n - 1` edges have been taken.
- **The flow network** (`flow_network.dfy`). `addEdge` appends an edge and
  its partner to two adjacency lists; each records the other's index in
  `rev`. The partner has capacity 0 when the graph is directed and the full
  capacity when it is not.
- **Edmonds–Karp** (`edmonds_karp.dfy`). A breadth-first search runs over
  edges with positive residual capacity. The bottleneck is taken along the
  parent chain from the sink. Flow is pushed along the chain, and the
  partner's flow is lowered by the same amount.
- **Dinic** (`dinic.dfy`). Each phase assigns levels by breadth-first search,
  then runs depth-first searches along edges that climb one level. A
  per-vertex `start` pointer skips edges already found useless. Phases
  repeat while the sink gets a level.

Shared material:

- `graph.dfy` holds the input graph, walks over its edge list and the
  adjacency lists that Dijkstra and Prim build.
- `seq_util.dfy` holds small counting helpers.

**How things are modelled.**

- Vectors that the source changes in place become `seq` values that methods
  reassign. Where the source has a class, they are fields of a class:
  - `FlowNetwork.adj`;
  - `Dinic.level` and `Dinic.start`;
  - `DisjointSet.parent`, which is an `array`.
- Each loop of the source is a `while` loop with invariants. Each loop is
  proved against a specification function (`Round`, `Scan`, `AugmentPath`,
  `WithEdge`, …) or against the property the algorithm promises.
- Where the source throws `runtime_error`, the model returns `Err` of a
  `Result`.
- `Excess(adj, x)` is the net flow out of x: the sum of the flows on x's
  own list, where each partner edge carries the negated flow. It is the
  negative of the textbook excess, so a flow of `total` from s to t raises
  it by `total` at s and lowers it by `total` at t.
- `CapacityIn(adj, x)` is the capacity of the edges into x, which are the
  partners of the edges on x's list.

**Neither solver handles `source == sink`.** In that case neither one
returns:

- `edmondsKarp`: the sink has a parent from the start, so the bottleneck
  walk does nothing. Every round then adds `INF_2` without changing the
  network.
- Dinic's `maxFlow`: `dfs(s, s, INF)` returns `INF` at once, and every
  phase does the same.

The model follows the code, so both solvers require `source != sink`.

**Dijkstra's comment and its code.** A comment in `DijkstraAlgorithm.hpp`
says the adjacency list uses only one direction of an undirected edge. The
code adds both directions, and the model follows the code.

## Model

| member | source | states |
|---|---|---|
| Graphs.BuildAdjacency | DijkstraAlgorithm.hpp:17-28 | builds exactly `Adjacency(g)`: edge `(u, v, w)` appends `(v, w)` to u's list and, when undirected, `(u, w)` to v's list, in edge order |
| Graphs.ArcHop | DijkstraAlgorithm.hpp:19-25 | every adjacency entry of u is a hop of some input edge leaving u, with the same head and weight |
| Graphs.HopArc | DijkstraAlgorithm.hpp:19-25 | every hop along an input edge (both directions when undirected) appears in the tail's adjacency list |
| Graphs.ArcsWellFormed | PrimAlgorithm.hpp:14-20 | every adjacency entry names a vertex 0..n, and its weight is non-negative when all edge weights are |
| BellmanFord.RelaxArc | BellmanFordAlgorithm.hpp:20-22 | the guarded relaxation keeps the length of `dist` |
| BellmanFord.RelaxOne | BellmanFordAlgorithm.hpp:18-25 | the two guarded updates of one edge compute `RelaxEdge`: forward always, backward only in an undirected graph |
| BellmanFord.RelaxAll | BellmanFordAlgorithm.hpp:17-26 | one scan of the edge list computes the left fold `Round` of the edge relaxations |
| BellmanFord.BellmanFord | BellmanFordAlgorithm.hpp:11-29 | the result is `Distances(g, start)`: `n - 1` rounds (none when n <= 1) from INF_1 everywhere except 0 at start |
| BellmanFord.RoundLowers | BellmanFordAlgorithm.hpp:17-26 | a round never raises an entry |
| BellmanFord.RoundsLower | BellmanFordAlgorithm.hpp:16-27 | any number of rounds never raises an entry |
| BellmanFord.NeverRaised | BellmanFordAlgorithm.hpp:13-28 | the result has n + 1 entries, at most 0 at start and at most INF_1 everywhere |
| BellmanFord.HopWitnessed | BellmanFordAlgorithm.hpp:20-25 | relaxing along a hop keeps every finite entry the weight of some walk from start |
| BellmanFord.RelaxEdgeWitnessed | BellmanFordAlgorithm.hpp:18-25 | relaxing one edge (both directions when undirected) keeps every finite entry a walk weight |
| BellmanFord.RoundWitnessed | BellmanFordAlgorithm.hpp:17-26 | a round over any prefix of the edge list keeps every finite entry a walk weight |
| BellmanFord.RoundsWitnessed | BellmanFordAlgorithm.hpp:16-27 | any number of rounds keeps every finite entry a walk weight |
| BellmanFord.DistancesWitnessed | BellmanFordAlgorithm.hpp:11-29 | every entry of the result below INF_1 is the weight of a walk from start to that vertex |
| BellmanFord.Unreached | BellmanFordAlgorithm.hpp:13-28 | a vertex that no walk from start reaches keeps INF_1 |
| BellmanFord.LightWalkIsShort | BellmanFordAlgorithm.hpp:20 | with non-negative weights, a walk lighter than INF_1 keeps every prefix below INF_1, so the `dist[u] < INF_1` guard never blocks it |
| BellmanFord.RelaxEdgeLowers | BellmanFordAlgorithm.hpp:18-25 | relaxing an edge keeps the length and never raises an entry |
| BellmanFord.RelaxEdgeHop | BellmanFordAlgorithm.hpp:18-25 | after relaxing an edge, its head along a hop is at most tail + weight whenever the tail is finite |
| BellmanFord.RoundHop | BellmanFordAlgorithm.hpp:17-26 | after a round, the head of any edge scanned is at most the tail's old entry + weight |
| BellmanFord.RoundsBound | BellmanFordAlgorithm.hpp:16-27 | after k rounds, every walk of at most k hops whose prefixes stay below INF_1 bounds its end's entry |
| BellmanFord.DistancesBound | BellmanFordAlgorithm.hpp:11-29 | the result at t is at most the weight of every such walk from start with at most n - 1 hops |
| BellmanFord.DistancesBoundNonNegative | BellmanFordAlgorithm.hpp:11-29 | with non-negative weights, the result at t is at most the weight of every walk from start of at most n - 1 hops lighter than INF_1 |
| Dijkstra.PopMin | DijkstraAlgorithm.hpp:38-41 | top/pop of the min-heap: a smallest entry (by distance, then vertex), and the rest is the heap minus that entry |
| Dijkstra.PopMembers | DijkstraAlgorithm.hpp:41 | the rest holds exactly the other entries of the heap |
| Dijkstra.RelaxedKept | DijkstraAlgorithm.hpp:51 | lowering one entry keeps every other vertex's edges relaxed |
| Dijkstra.RelaxedBound | DijkstraAlgorithm.hpp:37-55 | when every vertex's edges are relaxed and start is at most 0, every walk from start bounds its end's entry |
| Dijkstra.ScanKeep | DijkstraAlgorithm.hpp:50 | an edge that does not improve its head keeps the scan's queue bookkeeping |
| Dijkstra.WitnessRelax | DijkstraAlgorithm.hpp:50-51 | `dist[v] = cur_dist + weight` keeps every finite entry the weight of a walk from start |
| Dijkstra.PendingRelax | DijkstraAlgorithm.hpp:51-52 | lowering `dist[v]` and pushing `(dist[v], v)` keeps every vertex either relaxed or queued at its current distance |
| Dijkstra.RelaxedBelowStep | DijkstraAlgorithm.hpp:50-51 | after the improvement, u's edges up to this one are relaxed |
| Dijkstra.DistRelax | DijkstraAlgorithm.hpp:50-52 | one improvement keeps the scan's distance invariant |
| Dijkstra.QueueRelax | DijkstraAlgorithm.hpp:50-52 | one improvement keeps the scan's queue invariant |
| Dijkstra.RelaxFrom | DijkstraAlgorithm.hpp:47-54 | scanning u's list lowers entries only, keeps them walk weights, leaves every vertex relaxed or queued, and either lowers the total or keeps the heap size |
| Dijkstra.Dijkstra | DijkstraAlgorithm.hpp:15-57 | n + 1 entries with 0 at start and 0..INF everywhere; each finite entry is a walk weight from start, and every walk from start weighs at least its end's entry (so entries are the shortest distances) |
| Prim.PopMin | PrimAlgorithm.hpp:41-43 | top/pop of the min-heap: a lexicographically smallest `(weight, from, to)` and the rest |
| Prim.PopMembers | PrimAlgorithm.hpp:43 | the rest holds exactly the other candidates |
| Prim.TreeVertices | PrimAlgorithm.hpp:22-30 | the tree's vertices are the root followed by the `to` end of each taken edge |
| Prim.TreeVerticesDistinct | PrimAlgorithm.hpp:45-50 | no vertex enters the tree twice |
| Prim.TreeReachable | PrimAlgorithm.hpp:47-49 | every tree vertex is reachable from the root by a walk |
| Prim.ClosedHoldsWalks | PrimAlgorithm.hpp:52-58 | a vertex set closed under the graph's edges contains the end of every walk that starts in it |
| Prim.SkipStep | PrimAlgorithm.hpp:45 | dropping a candidate whose `to` end is already in the tree keeps the heap invariant |
| Prim.AcceptTree | PrimAlgorithm.hpp:47-50 | accepting a candidate to a non-tree vertex extends the tree by a real edge and keeps `inMST` equal to the tree's vertex set |
| Prim.AcceptQueue | PrimAlgorithm.hpp:52-58 | after the new vertex's arcs are offered, every arc from the tree to outside it is in the heap |
| Prim.OfferStart | PrimAlgorithm.hpp:32-36 | pushes `(weight, start, to)` for every arc of start, in order |
| Prim.OfferArcs | PrimAlgorithm.hpp:52-58 | keeps the heap and adds exactly arcs of v to non-tree vertices, all of them |
| Prim.TreeSpans | PrimAlgorithm.hpp:40-59 | when the heap runs empty, every walk from vertex 1 ends inside the tree |
| Prim.Prim | PrimAlgorithm.hpp:8-62 | error exactly for directed graphs; otherwise the total is the weight of the edges, the edges grow a tree from 1 (each joins a new vertex by an input edge), there are at most n - 1 of them, and fewer only when the tree already holds every vertex reachable from 1 |
| DisjointSets.Merge | KruskalAlgorithm.hpp:27 | each element in b's class moves to a's class and nothing else changes |
| DisjointSets.Singletons | KruskalAlgorithm.hpp:8-12 | every element 0..n alone in its class |
| DisjointSets.Compress | KruskalAlgorithm.hpp:16 | repointing an element at its root keeps the forest ranked and every element's root |
| DisjointSets.Link | KruskalAlgorithm.hpp:27 | linking b's root under a's keeps the forest ranked and gives the roots `Merge(repr, a, b)` |
| DisjointSets.DisjointSet.constructor | KruskalAlgorithm.hpp:8-12 | n + 1 elements, each its own parent, each alone in its class |
| DisjointSets.DisjointSet.Find | KruskalAlgorithm.hpp:14-19 | returns x's root, a self-parented element; compression changes no element's class |
| DisjointSets.DisjointSet.UnionSets | KruskalAlgorithm.hpp:21-29 | returns true exactly when a and b were in different classes; then b's class joins a's and b's root points at a's root, otherwise the classes are unchanged |
| Kruskal.SortByWeight | KruskalAlgorithm.hpp:41-45 | the result is sorted by weight and a permutation of the input |
| Kruskal.InsertByWeight | KruskalAlgorithm.hpp:42-45 | inserting one edge into a sorted list keeps it sorted and adds exactly that edge |
| Kruskal.SortedInsert | KruskalAlgorithm.hpp:42-45 | an edge placed between lighter and heavier edges keeps the list sorted |
| Kruskal.Scan | KruskalAlgorithm.hpp:49-56 | the fold over the sorted edges keeps one label per vertex |
| Kruskal.WalkKeepsLabel | KruskalAlgorithm.hpp:52 | if every chosen edge joins equal labels, every walk over them stays in one label |
| Kruskal.ComponentsInitial | KruskalAlgorithm.hpp:46 | with no edges, the singleton labels are exactly the connected components |
| Kruskal.MergeLinks | KruskalAlgorithm.hpp:52-53 | after merging e's classes, equal labels imply connection by the edges plus e |
| Kruskal.MergeSeparates | KruskalAlgorithm.hpp:52-53 | connection by the edges plus e implies equal labels after merging |
| Kruskal.ComponentsMerge | KruskalAlgorithm.hpp:52-53 | merging e's classes and taking e keeps the labels exactly the components |
| Kruskal.ScanComponents | KruskalAlgorithm.hpp:49-56 | after the scan, two vertices share a label iff the chosen edges connect them |
| Kruskal.ScanAcyclic | KruskalAlgorithm.hpp:52-53 | each chosen edge joins vertices the earlier chosen edges do not connect, so the chosen edges form a forest |
| Kruskal.ScanKept | KruskalAlgorithm.hpp:53 | the chosen edges are a sub-multiset of the scanned ones |
| Kruskal.ScanSorted | KruskalAlgorithm.hpp:41-53 | the chosen edges keep the sorted order |
| Kruskal.ScanSpans | KruskalAlgorithm.hpp:49-56 | the endpoints of every scanned edge are connected by the chosen edges |
| Kruskal.MergeLabels | KruskalAlgorithm.hpp:27 | a real merge removes exactly one label |
| Kruskal.ScanCount | KruskalAlgorithm.hpp:49-56 | the number of chosen edges plus the number of classes is n + 1 |
| Kruskal.SingletonLabels | KruskalAlgorithm.hpp:8-12 | the fresh forest has n + 1 classes |
| Kruskal.NoWalkFromZero | KruskalAlgorithm.hpp:46-56 | with every edge over 1..n, the only walk from the unused vertex 0 is the empty one |
| Kruskal.ZeroAlone | KruskalAlgorithm.hpp:46-56 | vertex 0 stays apart from vertex 1 after the scan |
| Kruskal.ScanBound | KruskalAlgorithm.hpp:49-56 | for edges over 1..n the scan chooses at most n - 1 edges |
| Kruskal.ScanNext | KruskalAlgorithm.hpp:52-54 | one more edge scanned is one step of the fold: merge and keep the edge iff the labels differ |
| Kruskal.WeightAppend | KruskalAlgorithm.hpp:54 | the total weight grows by the kept edge's weight |
| Kruskal.SortedEndpoints | KruskalAlgorithm.hpp:41-45 | sorting keeps every endpoint a valid index |
| Kruskal.SortedWithin | KruskalAlgorithm.hpp:41-45 | sorting keeps the edges over 1..n |
| Kruskal.Kruskal | KruskalAlgorithm.hpp:36-58 | error exactly for directed graphs; otherwise the edges are scanned in a weight-sorted permutation of the input, the result is what the fold keeps, and the total is its weight |
| Kruskal.KruskalForest | KruskalAlgorithm.hpp:36-58 | error exactly for directed graphs; otherwise the total is the weight, and the result is a forest sorted by weight and drawn from the input edges. Every input edge's endpoints are connected by it, and when n >= 1 and every edge joins two different vertices of 1..n it has at most n - 1 edges |
| FlowNet.FlowNetwork.constructor | FlowEdge.hpp:16-18 | n + 1 empty adjacency lists |
| FlowNet.FlowNetwork.AddEdge | FlowEdge.hpp:20-31 | appends `(u, v, capacity, 0, |adj[v]|)` to u's list and `(v, u, capacity or 0, 0, |adj[u]|)` to v's, and touches no other list |
| FlowNet.WithEdgePaired | FlowEdge.hpp:23-30 | the two new edges name each other through `rev`, and the old pairing is kept |
| FlowNet.WithEdgeConsistent | FlowEdge.hpp:20-31 | with a non-negative capacity, adding an edge pair keeps flows within capacity and skew-symmetric, and every vertex's net outflow unchanged |
| FlowNet.WithEdgeZero | FlowEdge.hpp:23-27 | new edges carry no flow |
| FlowNet.WithEdgeCount | FlowEdge.hpp:29-30 | each added edge adds two entries |
| FlowNet.BuiltConsistent | FlowEdge.hpp:34-43 | with non-negative capacities the built network is paired, consistent and carries no flow |
| FlowNet.BuiltCount | FlowEdge.hpp:34-43 | the built network has two entries per input edge |
| FlowNet.BuiltPrefix | FlowEdge.hpp:37-41 | adding the next edge of the list to the network built so far gives the network built from the longer prefix |
| FlowNet.BuildFlowNetwork | FlowEdge.hpp:34-43 | for any n >= 0 and edges that each join two different vertices of 0..n, the network is the fold `Built` of `addEdge` over the edges, in order: two entries per edge, and valid and flow-free when capacities are non-negative |
| FlowNet.PairInvolution | FlowEdge.hpp:23-27 | the partner of an edge is another edge, and its partner is the edge itself |
| FlowNet.Push | FordFulkerson.hpp:55-57 | pushing along an edge keeps every list's shape and the pairing |
| FlowNet.PushAt | FordFulkerson.hpp:55-57 | a push raises the edge's flow by d, lowers its partner's by d, and leaves every other edge alone |
| FlowNet.PushConsistent | FordFulkerson.hpp:55-57 | pushing at most the residual capacity keeps flows within capacity and skew-symmetric |
| FlowNet.PushExcess | FordFulkerson.hpp:55-57 | a push raises the net outflow of the edge's tail by d and lowers its head's by d |
| FlowNet.AugmentPath | FordFulkerson.hpp:50-59 | augmenting along a path keeps every list's shape and the pairing |
| FlowNet.AugmentExcess | FordFulkerson.hpp:50-59 | augmenting an s-t path by d raises s's net outflow by d, lowers t's by d, and changes no other vertex's |
| FlowNet.AugmentOffPath | FordFulkerson.hpp:50-59 | an edge off the path never gains flow |
| FlowNet.AugmentAt | FordFulkerson.hpp:50-59 | after augmenting by d along any path, every edge's flow is its old flow plus d for each time it is on the path, minus d for each time its partner is |
| FlowNet.AugmentFrame | FordFulkerson.hpp:50-59 | along distinct edges none of which is another's partner: path edges gain d, partners of path edges lose d, and every other edge keeps its flow |
| FlowNet.ClimbingFrame | FordFulkerson.hpp:54-57 | on a path whose every edge climbs one step of a distance, no edge's partner is on the path |
| FlowNet.AugmentConsistent | FordFulkerson.hpp:50-59 | augmenting along distinct edges that can carry d keeps the network consistent |
| FlowNet.AugmentRound | FordFulkerson.hpp:50-61 | one round keeps the network consistent and its shape, and moves d units of net outflow to the source from the sink |
| FlowNet.CarriesNothing | FordFulkerson.hpp:11 | the unchanged network has carried 0 |
| FlowNet.CarriesMore | FordFulkerson.hpp:61 | augmenting by d adds d to what has been carried |
| FlowNet.CarriesCompose | DinicAlgorithm.hpp:69-70 | what two successive stretches carry adds up |
| FlowNet.ExcessAtLeastMinusCapacityIn | FlowEdge.hpp:23-30 | in a consistent network, a vertex's net outflow is at least minus the capacity of the edges into it |
| FlowNet.CapacityInShape | FlowEdge.hpp:23-30 | pushing flow never changes the capacity into a vertex |
| FlowNet.CarriesBounds | FordFulkerson.hpp:61-63 | a flow of `total` from s to t is at most the capacity left out of s and at most the capacity into t plus t's net outflow at the start |
| FlowNet.ExcessAtMostCapacity | FordFulkerson.hpp:13-62 | within capacities, a vertex's net outflow is at most its outgoing capacity (the termination measure) |
| FlowNet.ClosedKeepsPaths | FordFulkerson.hpp:35-37 | if the marked vertices are closed under positive-residual edges, every augmenting path from a marked vertex ends at a marked vertex |
| FlowNet.Exhausted | FordFulkerson.hpp:21-33 | when the queue runs empty and every reached vertex has been expanded, the reached set is closed under positive-residual edges |
| FlowNet.ClosedNoPath | FordFulkerson.hpp:35-37 | a closed reached set that misses the sink leaves no augmenting path from the source |
| FlowNet.LayerPop | FordFulkerson.hpp:22-23 | taking the head of a queue in breadth-first order starts its scan in that order |
| FlowNet.LayerLabel | FordFulkerson.hpp:27-30 | giving an unreached head the distance of u plus one and appending it to the queue keeps the breadth-first order |
| FlowNet.LayerKeep | FordFulkerson.hpp:27 | an edge with no residual capacity or with a reached head keeps the breadth-first order, and if it has residual its head lies at most one step beyond u |
| FlowNet.LayerFinish | FordFulkerson.hpp:24-32 | a fully scanned vertex joins the finished ones in breadth-first order |
| FlowNet.LayeredPath | FordFulkerson.hpp:21-33 | in breadth-first order, an augmenting path from a finished vertex to a reached one is at least as long as their distance difference |
| FordFulkerson.Discover | FordFulkerson.hpp:27-31 | giving a new vertex a parent keeps the search tree and the frontier bookkeeping |
| FordFulkerson.Visit | FordFulkerson.hpp:22-32 | scanning u's list keeps the search tree and the breadth-first order and expands u: every positive-residual edge out of u ends at a vertex with a parent, at most one step deeper |
| FordFulkerson.FindPaths | FordFulkerson.hpp:14-33 | the parent vectors form a search tree of positive-residual edges from the source, each one step deeper; a sink without a parent means no augmenting path exists, and a sink with one has no augmenting path shorter than its depth |
| FordFulkerson.SearchStart | FordFulkerson.hpp:14-19 | the search starts with the source alone, reached, and in the queue |
| FordFulkerson.SearchEnd | FordFulkerson.hpp:21-37 | when the search stops (queue empty or sink reached): no parent for the sink means no augmenting path, and a parent means every augmenting path has at least depth[sink] edges |
| FordFulkerson.ScanStart | FordFulkerson.hpp:22-23 | popping u from the queue starts its scan |
| FordFulkerson.ScanEdge | FordFulkerson.hpp:25-31 | one edge of u's list: a new vertex gets parent u through this edge and joins the queue, otherwise nothing changes; the scan state is kept for one more edge |
| FordFulkerson.ScanLabel | FordFulkerson.hpp:27-30 | giving the head a parent keeps the scan state |
| FordFulkerson.ScanSkip | FordFulkerson.hpp:27 | skipping the edge keeps the scan state |
| FordFulkerson.ScanFinish | FordFulkerson.hpp:24-32 | after u's whole list, u is finished and expanded |
| FordFulkerson.TreeEdge | FordFulkerson.hpp:43-45 | the recorded parent edge of a reached vertex ends there, has positive residual and comes from a shallower reached vertex |
| FordFulkerson.WalkPath | FordFulkerson.hpp:42-47 | the parent edge extends the path back by one edge |
| FordFulkerson.WalkMin | FordFulkerson.hpp:46 | the running minimum is the minimum residual of the path so far, capped by INF_2 |
| FordFulkerson.ChainStep | FordFulkerson.hpp:42-48 | one step of the first walk: the parent edge extends the tree path, its running minimum and its depth order to the parent |
| FordFulkerson.Bottleneck | FordFulkerson.hpp:39-48 | returns the minimum residual of the tree path from source to sink, capped at INF_2, and at least 1; the path is augmenting, can carry it, and has depth[sink] edges, so it is a shortest augmenting path |
| FordFulkerson.TreePathFrame | FordFulkerson.hpp:50-59 | the tree path meets `FlowNet.AugmentFrame`'s condition: its edges are distinct and none is another's partner |
| FordFulkerson.Augment | FordFulkerson.hpp:50-59 | the network becomes `AugmentPath` of the old one along that path |
| FordFulkerson.AugmentStep | FordFulkerson.hpp:51-58 | on the second walk the current vertex is the source only at the end, and otherwise its parent edge is the next path edge, whose push extends the augmentation |
| FordFulkerson.EdmondsKarp | FordFulkerson.hpp:10-64 | keeps the network consistent and its shape; the result is at least 0, raises the source's net outflow and lowers the sink's by exactly that much with every other vertex unchanged, and is at most the source's outgoing capacity and at most the capacity into the sink (plus its starting net outflow); no augmenting path is left at the end, and none at the start means 0 |
| DinicAlgorithm.LevelPathAugmenting | DinicAlgorithm.hpp:52 | a path that climbs one level per edge with positive residuals is augmenting and has distinct tails |
| DinicAlgorithm.LevelPathFrame | DinicAlgorithm.hpp:56-57 | a level path meets `FlowNet.AugmentFrame`'s condition: its edges are distinct and none is another's partner |
| DinicAlgorithm.ExtendLevelPath | DinicAlgorithm.hpp:52-54 | an eligible edge into a level path's start extends it |
| DinicAlgorithm.ReachesPath | DinicAlgorithm.hpp:38 | reachability in the level graph is witnessed by a level path whose length is the level difference |
| DinicAlgorithm.EligibleAfterPush | DinicAlgorithm.hpp:56-57 | pushing along a level-climbing edge makes no new edge eligible |
| DinicAlgorithm.ReachesAfterPush | DinicAlgorithm.hpp:56-57 | pushing along a level-climbing edge creates no new reachability |
| DinicAlgorithm.PointerInvPush | DinicAlgorithm.hpp:56-57 | a push keeps every skipped edge useless |
| DinicAlgorithm.SkipEdge | DinicAlgorithm.hpp:50 | advancing `start[u]` past a useless edge keeps the pointer invariant |
| DinicAlgorithm.AllBlocked | DinicAlgorithm.hpp:62 | with every edge out of u useless, t is not reachable from u |
| DinicAlgorithm.PushStep | DinicAlgorithm.hpp:55-58 | pushing the delivered amount along the edge completes an augmentation along a longer level path and keeps the network consistent |
| DinicAlgorithm.Label | DinicAlgorithm.hpp:32-34 | labelling a new vertex keeps the level tree and the frontier bookkeeping |
| DinicAlgorithm.TreeReaches | DinicAlgorithm.hpp:33 | a labelled vertex that reaches t shows that s reaches t |
| DinicAlgorithm.TreeReachesAll | DinicAlgorithm.hpp:33 | every labelled vertex is reachable from s in the level graph |
| DinicAlgorithm.Scan | DinicAlgorithm.hpp:29-36 | scanning u's list keeps the level tree and the breadth-first order and expands u: every positive-residual edge out of u ends at a labelled vertex at most one level higher |
| DinicAlgorithm.Levels | DinicAlgorithm.hpp:24-37 | s has level 0; the labelled vertices are closed under positive-residual edges and each is reachable from s by level-climbing edges; no positive-residual edge climbs more than one level, and no augmenting path from s to t is shorter than level[t], so levels are shortest residual distances |
| DinicAlgorithm.LevelsStart | DinicAlgorithm.hpp:24-27 | the labelling starts with s alone at level 0 in the queue |
| DinicAlgorithm.LevelsEnd | DinicAlgorithm.hpp:28-37 | with the queue empty, the labelling is closed, reachable from s and gives shortest distances |
| DinicAlgorithm.LabelStart | DinicAlgorithm.hpp:29-30 | popping u from the queue starts its scan |
| DinicAlgorithm.LabelEdge | DinicAlgorithm.hpp:31-35 | one edge of u's list: an unlabelled head with `flow < capacity` gets level[u] + 1 and joins the queue, otherwise nothing changes; the scan state is kept for one more edge |
| DinicAlgorithm.LabelStep | DinicAlgorithm.hpp:32-34 | labelling the head keeps the scan state |
| DinicAlgorithm.LabelSkip | DinicAlgorithm.hpp:32 | skipping the edge keeps the scan state |
| DinicAlgorithm.LabelFinish | DinicAlgorithm.hpp:31-36 | after u's whole list, u is finished and expanded |
| DinicAlgorithm.Augment | DinicAlgorithm.hpp:41-63 | delivers between 0 and flow, and all of flow at t. A positive amount is an augmentation along a level path that can carry it; 0 leaves the network alone and means t is unreachable from u. Skipped edges stay useless, no pointer moves back, and only pointers of u and of higher levels move |
| DinicAlgorithm.Advance | DinicAlgorithm.hpp:50-62 | the pointer loop delivers as `Augment` does; its pointers only move forward, and only those of u and of higher levels |
| DinicAlgorithm.Follow | DinicAlgorithm.hpp:51-59 | following an eligible edge either augments along a level path through it or shows the edge useless; pointers only move forward, and none of u's level or lower |
| DinicAlgorithm.Dinic.constructor | DinicAlgorithm.hpp:18-21 | binds the network; level and start get n + 1 entries |
| DinicAlgorithm.Dinic.Bfs | DinicAlgorithm.hpp:23-39 | returns whether t has a level, which holds exactly when an augmenting path exists; unreached vertices keep level -1 and the labelled ones are closed under edges of positive residual capacity; every labelled vertex is reachable from s in the level graph; the levels are shortest residual distances from s |
| DinicAlgorithm.Dinic.Dfs | DinicAlgorithm.hpp:41-63 | `Augment` on the solver's network and pointers; the pointers never move back |
| DinicAlgorithm.Dinic.BlockingFlow | DinicAlgorithm.hpp:68-70 | one phase delivers at least one unit, all of it from s to t |
| DinicAlgorithm.Dinic.MaxFlow | DinicAlgorithm.hpp:65-73 | the same guarantees as `FordFulkerson.EdmondsKarp`: consistent, conserving, bounded by the capacity out of the source and into the sink, and no augmenting path left |

## Left out

- `GraphGenerator.hpp` (random graph generation, printing) and `main.cpp` are not part of this model. Graphs are inputs.
- Exceptions: `runtime_error` becomes `Err` of a `Result`.
- Integer width: all arithmetic is unbounded. The model does not capture overflow of `int` sums (`totalWeight`, `max_flow`, `dist[u] + w`).
- Complexity bounds (O(V·E²), O(V²·E), heap costs) are not modelled.
- Heaps and queues are sequences. The heap returns a smallest entry, with ties broken by the pair's own order as in `std::priority_queue` with `greater`.
- Kruskal.SortByWeight: models `std::sort` as an insertion sort on a sequence. Its tie order is one admissible order, not necessarily the library's. For that reason `Kruskal.Kruskal` returns the order it used as a ghost value, and `Kruskal.KruskalForest` states only order-independent facts.
- Kruskal.KruskalForest: proves a spanning forest, not that its weight is minimal.
- Prim.Prim: proves a tree grown from vertex 1 that spans what vertex 1 reaches, not that its weight is minimal. It requires `vertexCount >= 1`, because the source writes `inMST[1]`.
- Dijkstra.Dijkstra: requires non-negative weights. With a negative edge the lazy-deletion loop need not end (a negative undirected edge re-lowers forever).
- BellmanFord.DistancesBound: proves each entry is a walk weight and at most the weight of every walk of at most n - 1 hops. It does not prove exactness with negative cycles, and does not detect them, as the source does not.
- FordFulkerson.EdmondsKarp: proves that the result is the flow leaving the source, that it is bounded by the capacity out of the source and into the sink, and that no augmenting path is left. Maximality (max-flow = min-cut) and the equality of the Edmonds–Karp and Dinic totals are not proved.
- DinicAlgorithm.Dinic.MaxFlow: same scope as `FordFulkerson.EdmondsKarp`.
- FordFulkerson.EdmondsKarp: requires `source != sink` (see the introduction).
- DinicAlgorithm.Dinic.MaxFlow: requires `source != sink`.
- FlowNet.FlowNetwork.AddEdge: requires `u != v`. For a self-loop the source gives both new edges the `rev` index of the first one, which breaks the pairing.
- FlowNet.BuildFlowNetwork: requires every edge to join two different vertices of 0..n. An endpoint outside 0..n would index past `adj`, and a self-loop breaks the pairing (see `AddEdge` above).
- FlowNet.BuildFlowNetwork: consistency is promised only for non-negative capacities.
- DinicAlgorithm.Augment: the depth-first search is written on values. It returns the new residual network and pointers instead of updating the solver's fields during the recursion; `Dinic.Dfs` stores them back.
- Dinic's `dfs(s, t, INF)` uses `INF` from `DijkstraAlgorithm.hpp`. The unused constant `INF_3` is left out.
- DisjointSets.DisjointSet.UnionSets: when it returns false, the path compression done by `find` is still visible in `parent`; only the classes are stated unchanged.
- DisjointSets.DisjointSet: the `rank`, `top` and `repr` fields are ghost bookkeeping for the proof; the source has no union by rank.
- Loop bodies appear as separate methods where a loop nest is long: `Visit`, `ScanEdge`, `Scan`, `LabelEdge`, `Levels`, `Advance`, `Follow`, `BlockingFlow`, `RelaxFrom`, `RelaxAll`, `RelaxOne`, `OfferStart`, `OfferArcs` and `InsertByWeight`. The breadth-first searches also carry their distances (`depth` in Edmonds–Karp) as ghost state.
