# Weighted graphs: two container drafts and their algorithms

This project models the core of a C++ coursework repository on undirected,
weighted graphs and proves properties of the model in Dafny.

- **The dense draft** (`Assignment1/weighted_graph.hpp`) keeps a vector of
  vertices and a square adjacency matrix in which 0 means "no edge". It also
  keeps two counters, `edges_count` and `weight_total`, which the mutators
  update with the matrix. Its member algorithms are index-based depth-first
  and breadth-first search and Prim's minimum spanning tree (`mst` with
  `get_min_key`).
- **The Kruskal fragment** (`Assignment1/spanning_tree_algorithms.cpp`) has a
  disjoint set over int indices (`make_set`, `find`, `make_union`), a
  selection sort of edge records by weight, and a Kruskal driver. The
  fragment does not compile as written: it uses `.weight` on a `std::pair`
  and scopes `disjoint_set` as a graph member. The model takes its evident
  reading: edge records `{u_index, v_index, weight}` and a standalone
  disjoint set.
- **The hash draft** (`Assignment2/weighted_graph.hpp`) keeps an
  `unordered_set` of vertices and an `unordered_map` from each vertex to an
  `unordered_map` of neighbours and weights, with counters `n` and `m`.
  Free functions run over it:
  - depth- and breadth-first search whose priority queues fix the
    neighbour order (`Assignment2/easy_weighted_graph_algorithms.cpp`);
  - `is_connected`, `connected_components`, Dijkstra's shortest paths
    (`dijkstras`, `min_distance`) and brute-force `articulation_points`
    (`Assignment2/graph_algorithms.cpp`).

Each C++ class whose fields change in place is a Dafny `class`:
`MatrixGraph.WeightedGraph`, `AdjGraph.WeightedGraph` and
`UnionFind.DisjointSet`.

- Their mutators are methods with `modifies this`.
- Each method states the whole new state in terms of pure functions on
  values: `SetPair`, `RemoveVertexM` and `AddVertexM` on matrices;
  `WriteBoth`, `EraseBoth` and `Without` on adjacency maps.
- Lemmas then show that these keep the container's invariants (`Valid`,
  `Counted`).
- The loops of the source are `while` or `for` loops with invariants. Where
  a loop reasons about many facts at once it runs on values in a static
  method, and a lemma does each step's reasoning.

Vertices are `int`. An `unordered_map` of neighbours is a duplicate-free
list of `Adjacent(to, weight)` entries, and the vertex set is a
duplicate-free list, so the hash order becomes "some order". Insertion
appends and erasure removes in place. Nothing proved depends on where an
entry sits, except through the priority-queue tie-breaks the source itself
imposes.

Reachability (`Paths.Reachable`) is stated over a graph `map<int,
set<int>>`: v is reachable from s when v lies in every neighbour-closed set
that contains s. `MatrixSpec.IndexGraph` and `AdjSpec.NbrGraph` turn the two
containers into such graphs.

Two intentions the repository states outright shape what is proved:
- `mst` is declared as returning a minimum spanning tree
  (Assignment1/weighted_graph.hpp:131), and its test checks that the tree of
  a connected graph has n - 1 edges and is connected
  (Assignment1/tests.h:900-904). For `mst` and for the corrected Kruskal the
  model proves a spanning tree of least total weight: it weighs no more than
  any connected spanning sub-matrix of the graph (module `CutProperty`, by
  the cut property and an exchange argument). There, a *competitor* is a
  symmetric matrix made of graph edges at their weights that joins every
  pair the graph joins, and the chosen edges stay "inside some lightest
  competitor": every competitor can be traded for one at most as heavy
  that contains them.
- The dense draft says that the two indices of an edge must differ
  (Assignment1/weighted_graph.hpp:298) and `add_edge` enforces it through
  `index_are_valid` (line 354). The hash draft's `add_edge`
  (Assignment2/weighted_graph.hpp:90-96) has no such guard, so a self-loop
  can be stored there and counts as one edge in `m`; the model follows that
  code.

## Model

| member | source | states |
|---|---|---|
| MatrixSpec.IndexOf | Assignment1/weighted_graph.hpp:285-295 | get_index: -1 exactly when the vertex is absent, otherwise the first position holding it |
| MatrixGraph.WeightedGraph.GetIndex | Assignment1/weighted_graph.hpp:285-295 | the index loop returns IndexOf of the vertex list |
| MatrixSpec.IndexOfDistinct | Assignment1/weighted_graph.hpp:285-295 | in a duplicate-free vertex list the index of vertices[k] is k |
| MatrixGraph.WeightedGraph.constructor | Assignment1/weighted_graph.hpp:306-310 | a new graph has no vertices, an empty matrix, both counters 0, and the counters agree |
| MatrixGraph.WeightedGraph.HasVertex | Assignment1/weighted_graph.hpp:315-325 | true exactly when the vertex is in the vertex list |
| MatrixGraph.WeightedGraph.AreAdjacent | Assignment1/weighted_graph.hpp:328-333 | true exactly when both vertices are present and their cell is positive |
| MatrixGraph.WeightedGraph.GetEdgeWeight | Assignment1/weighted_graph.hpp:412-417 | the cell of the two vertices, 0 when either is absent |
| MatrixSpec.EdgeWeightSymmetric | Assignment1/weighted_graph.hpp:412-417 | the edge weight is symmetric and non-negative, 0 for an absent vertex, and 0 on the diagonal |
| MatrixGraph.WeightedGraph.Degree | Assignment1/weighted_graph.hpp:419-430 | 0 for an absent vertex, otherwise the number of positive cells in its row |
| MatrixGraph.WeightedGraph.WeightedDegree | Assignment1/weighted_graph.hpp:432-443 | 0 for an absent vertex, otherwise the sum of its row |
| MatrixGraph.WeightedGraph.GetNeighbours | Assignment1/weighted_graph.hpp:461-474 | [] for an absent vertex, otherwise the vertices with a positive cell in its row, in index order |
| MatrixSpec.SelectLength | Assignment1/weighted_graph.hpp:461-474 | the neighbour list is exactly as long as the degree |
| MatrixSpec.SelectMembers | Assignment1/weighted_graph.hpp:461-474 | the neighbour list repeats nothing and holds vertices[k] exactly when cell k is positive |
| MatrixGraph.WeightedGraph.NumVertices | Assignment1/weighted_graph.hpp:445-447 | the number of vertices, which is also the size of the matrix |
| MatrixGraph.WeightedGraph.NumEdges | Assignment1/weighted_graph.hpp:449-451 | returns edges_count in every valid state, drifted or not; while the counters agree, twice it is the sum of the degrees |
| MatrixGraph.WeightedGraph.TotalWeight | Assignment1/weighted_graph.hpp:453-455 | returns weight_total in every valid state, drifted or not; while the counters agree, twice it is the sum of the matrix |
| MatrixGraph.WeightedGraph.GetVertices | Assignment1/weighted_graph.hpp:457-459 | the vertex list, duplicate-free, of length num_vertices |
| MatrixGraph.WeightedGraph.AddVertex | Assignment1/weighted_graph.hpp:335-347 | idempotent for a present vertex; otherwise appends it with a zero row and column; counters unchanged and still agreeing |
| MatrixSpec.AddVertexKeeps | Assignment1/weighted_graph.hpp:335-347 | the appended vertex keeps the matrix square, symmetric, with zero diagonal, and keeps the counters right |
| MatrixGraph.WeightedGraph.AddEdge | Assignment1/weighted_graph.hpp:349-361 | acts exactly when both vertices exist, differ, are not adjacent and the weight is positive: both cells set, edges_count + 1, weight_total + weight; otherwise nothing changes |
| MatrixSpec.SetPairKeeps | Assignment1/weighted_graph.hpp:349-361 | writing a symmetric pair of cells keeps the shape and moves the counters by the change in edge indicator and in weight |
| MatrixGraph.WeightedGraph.RemoveVertex | Assignment1/weighted_graph.hpp:363-382 | no-op for an absent vertex; otherwise removes exactly its row and column, and lowers edges_count by its degree and weight_total by its weighted degree |
| MatrixSpec.RemoveVertexKeeps | Assignment1/weighted_graph.hpp:363-382 | deleting a row and column keeps the shape and moves the counters by that row's degree and sum |
| MatrixGraph.WeightedGraph.RemoveEdge | Assignment1/weighted_graph.hpp:385-397 | as written: with both vertices present it zeroes both cells and decrements edges_count, and the counters stay right exactly when the edge existed |
| MatrixSpec.RemoveEdgeDrifts | Assignment1/weighted_graph.hpp:385-397 | on two present, non-adjacent vertices the matrix is unchanged but the decremented counter no longer agrees |
| MatrixSpec.RemoveEdgeDriftExample | Assignment1/weighted_graph.hpp:385-397 | the two-vertex graph without edges on which remove_edge leaves edges_count at -1 |
| MatrixGraph.WeightedGraph.RemoveEdgeChecked | Assignment1/weighted_graph.hpp:385-397 | remove_edge that decrements only for an existing edge: the counters stay right |
| MatrixGraph.WeightedGraph.SetEdgeWeight | Assignment1/weighted_graph.hpp:399-410 | acts exactly on an existing edge and a positive weight: both cells change, weight_total moves by new minus old, edges_count unchanged |
| MatrixSpec.FirstPositive | Assignment1/weighted_graph.hpp:476-546 | the lowest index with a positive cell, or the row length when there is none |
| MatrixSpec.DescTopIsFirst | Assignment1/weighted_graph.hpp:476-510 | neighbours pushed by descending index leave the lowest-index neighbour on top of the stack |
| MatrixSpec.AscFrontIsFirst | Assignment1/weighted_graph.hpp:512-546 | neighbours enqueued by ascending index put the lowest-index neighbour at the front |
| MatrixSpec.DepthPop | Assignment1/weighted_graph.hpp:476-510 | one pop of the depth-first loop keeps the search invariant, whether the vertex was visited or not |
| MatrixSpec.BreadthPop | Assignment1/weighted_graph.hpp:512-546 | one dequeue of the breadth-first loop keeps the search invariant |
| MatrixSpec.SearchDone | Assignment1/weighted_graph.hpp:476-546 | when the frontier is empty the expanded indices are exactly those reachable from the start |
| MatrixGraph.WeightedGraph.DepthFirst | Assignment1/weighted_graph.hpp:476-510 | [] for an absent start; otherwise starts at the start, repeats nothing, holds exactly the reachable vertices, and visits the lowest-index neighbour second |
| MatrixGraph.WeightedGraph.BreadthFirst | Assignment1/weighted_graph.hpp:512-546 | the same traversal properties for the queue-based search |
| MatrixGraph.WeightedGraph.GetMinKey | Assignment1/weighted_graph.hpp:585-596 | an unselected index of least key below INT_MAX, the first such in index order |
| MatrixGraph.WeightedGraph.RelaxFrom | Assignment1/weighted_graph.hpp:562-567 | the inner loop of mst: each unselected j with a non-zero cell lighter than key[j] gets that key and parent i; nothing else changes |
| PrimSpec.PrimStart | Assignment1/weighted_graph.hpp:550-555 | the initial keys and parents (key[0] = 0, parent[0] = -1) satisfy Prim's invariant |
| PrimSpec.PrimStep | Assignment1/weighted_graph.hpp:557-568 | selecting the minimum-key index and relaxing from it keeps Prim's invariant |
| PrimSpec.CandidateExists | Assignment1/weighted_graph.hpp:557-568 | in a connected graph with weights below INT_MAX an unselected index with finite key remains while fewer than n - 1 are selected |
| PrimSpec.PrimDone | Assignment1/weighted_graph.hpp:557-568 | after n - 1 rounds the parent links form a tree rooted at index 0 over graph edges |
| PrimSpec.TreeConnected | Assignment1/weighted_graph.hpp:570-580 | the graph built from the parent links is connected and only holds edges of the input with their weights |
| MatrixGraph.WeightedGraph.Mst | Assignment1/weighted_graph.hpp:548-583 | on a non-empty connected graph: a new graph on the same vertices with n - 1 edges of the input, at the input's weights, that is connected and weighs no more than any connected spanning sub-matrix of the input, i.e. a minimum spanning tree |
| MatrixGraph.WeightedGraph.PrimParents | Assignment1/weighted_graph.hpp:550-568 | the main loop of mst leaves parent links that form a tree rooted at index 0 over graph edges, and a matrix holding exactly those parent edges weighs no more than any connected spanning sub-matrix |
| MatrixGraph.WeightedGraph.BuildTree | Assignment1/weighted_graph.hpp:570-582 | the tail of mst: a new graph on the same vertices holding exactly the parent edges at the input's weights, n - 1 edges, connected |
| PrimSpec.ChosenStart | Assignment1/weighted_graph.hpp:550-555 | before the loop no edge is chosen, and every competitor contains the empty choice |
| PrimSpec.ChosenRelaxed | Assignment1/weighted_graph.hpp:562-567 | relaxation only moves the parents of unselected indices, so the chosen parent edges stay the same |
| PrimSpec.ChosenReach | Assignment1/weighted_graph.hpp:557-568 | every selected index is joined to index 0 by chosen parent edges |
| PrimSpec.ChosenRespects | Assignment1/weighted_graph.hpp:557-568 | no chosen edge leaves the selected set, and the chosen edges join every selected index to any selected p |
| PrimSpec.PrimLightest | Assignment1/weighted_graph.hpp:557-568 | the parent edge of the index get_min_key picks is a lightest edge leaving the selected set |
| PrimSpec.ChosenAdd | Assignment1/weighted_graph.hpp:557-560 | selecting i adds exactly its parent edge to the chosen edges |
| PrimSpec.PrimGrow | Assignment1/weighted_graph.hpp:557-560 | selecting the index get_min_key picks keeps the chosen edges inside some lightest competitor |
| PrimSpec.PrimLast | Assignment1/weighted_graph.hpp:557-568 | when the loop stops exactly one index is unselected, and it has a finite key |
| PrimSpec.ChosenAll | Assignment1/weighted_graph.hpp:570-580 | with every index selected, the chosen edges are exactly the parent edges the tail adds |
| PrimSpec.PrimMinimal | Assignment1/weighted_graph.hpp:131 | the tree the tail of mst builds weighs no more than any connected spanning sub-matrix of the graph |
| CutProperty.ConnectedSpans | Assignment1/weighted_graph.hpp:131 | every connected sub-matrix made of graph edges, so every spanning tree of a connected graph, is a competitor |
| CutProperty.TotalLe | Assignment1/weighted_graph.hpp:131 | a matrix no cell of which exceeds the same cell of another has no larger total |
| CutProperty.ExtendableStart | Assignment1/weighted_graph.hpp:131 | the empty choice lies inside a lightest competitor |
| CutProperty.ExtendableMinimal | Assignment1/weighted_graph.hpp:131 | a choice inside a lightest competitor weighs no more than any competitor |
| CutProperty.ExtendableGrow | Assignment1/weighted_graph.hpp:131 | the cut property: adding a lightest edge leaving a set that the choice neither leaves nor splits keeps it inside a lightest competitor |
| CutProperty.Exchange | Assignment1/weighted_graph.hpp:131 | a competitor containing the choice can trade an edge leaving the set for the lightest one, staying a competitor and getting no heavier |
| CutProperty.Crossing | Assignment1/weighted_graph.hpp:131 | a symmetric matrix joining a vertex outside a set to one inside has an edge leaving the set whose outer end is reached without entering it |
| CutProperty.SwapTotal | Assignment1/weighted_graph.hpp:131 | swapping an edge for one no heavier does not increase the total |
| CutProperty.SwapSpans | Assignment1/weighted_graph.hpp:131 | the swapped matrix is a competitor containing the choice and the new edge |
| CutProperty.SwapJoins | Assignment1/weighted_graph.hpp:131 | in the swapped matrix the ends of the removed edge are still joined |
| UnionFind.DisjointSet.constructor | Assignment1/spanning_tree_algorithms.cpp:7-15 | a new disjoint set has no entries |
| UnionFind.DisjointSet.MakeSet | Assignment1/spanning_tree_algorithms.cpp:17-21 | every index 0..size-1 becomes its own parent; other entries keep their parent |
| UnionFind.DisjointSet.Find | Assignment1/spanning_tree_algorithms.cpp:23-27 | returns the root reached by following parent links from k; an absent key is inserted (operator[]) with parent 0 |
| UnionFind.DisjointSet.Climb | Assignment1/spanning_tree_algorithms.cpp:23-27 | the recursion terminates on the distance to the root and ends at k's root |
| UnionFind.RootIsRoot | Assignment1/spanning_tree_algorithms.cpp:23-27 | the root of every key is its own parent |
| UnionFind.DisjointSet.MakeUnion | Assignment1/spanning_tree_algorithms.cpp:29-33 | afterwards u and v share a root; exactly the keys whose root was u's old root move to v's root, and the links stay acyclic |
| UnionFind.LinkedForest | Assignment1/spanning_tree_algorithms.cpp:29-33 | setting parent[x] = y for two different roots keeps an acyclic forest with the same keys |
| UnionFind.LinkedRoots | Assignment1/spanning_tree_algorithms.cpp:29-33 | linking two roots removes exactly one root |
| SpanningTree.CollectEdges | Assignment1/spanning_tree_algorithms.cpp:60-70 | the records of the upper triangle j >= i with a positive cell, row by row |
| SpanningTree.UpperEdgesMembers | Assignment1/spanning_tree_algorithms.cpp:60-70 | a record is collected exactly when it names an upper-triangle cell and its positive weight |
| SpanningTree.MaxFrom | Assignment1/spanning_tree_algorithms.cpp:38-41 | the first index of a heaviest record in the rest of the list |
| SpanningTree.SelectRound | Assignment1/spanning_tree_algorithms.cpp:37-48 | one outer round extends the sorted prefix by one place and permutes the list |
| SpanningTree.SortEdges | Assignment1/spanning_tree_algorithms.cpp:35-49 | sort_edges leaves a permutation of its input in non-increasing weight order |
| KruskalSpec.KruskalAdd | Assignment1/spanning_tree_algorithms.cpp:78-91 | taking the smallest pending record whose ends have different roots, adding the edge and uniting keeps Kruskal's invariant |
| KruskalSpec.SkipTaken | Assignment1/spanning_tree_algorithms.cpp:78-91 | skipping a record whose ends share a root keeps Kruskal's invariant |
| KruskalSpec.KruskalDone | Assignment1/spanning_tree_algorithms.cpp:78-93 | when the loop stops, the tree joins exactly the pairs the graph joins, and a connected graph's tree has n - 1 edges |
| MatrixGraph.WeightedGraph.Kruskal | Assignment1/spanning_tree_algorithms.cpp:51-94 | corrected kruskal: a new graph on the same vertices holding only input edges at their weights, joining exactly the pairs the input joins, with n - 1 edges when the input is connected, and weighing no more than any sub-matrix that joins what the input joins (a minimum spanning forest) |
| MatrixGraph.WeightedGraph.KruskalFrom | Assignment1/spanning_tree_algorithms.cpp:51-94 | the same on the vertex list and matrix of the graph |
| MatrixGraph.WeightedGraph.KruskalRound | Assignment1/spanning_tree_algorithms.cpp:79-91 | one round keeps Kruskal's invariant and keeps the tree inside a lightest competitor |
| KruskalSpec.KruskalLightest | Assignment1/spanning_tree_algorithms.cpp:78-91 | a popped record whose ends have different roots is a lightest edge leaving the component of its first end, since lighter records were popped earlier |
| KruskalSpec.KruskalRespects | Assignment1/spanning_tree_algorithms.cpp:78-91 | no tree edge leaves a component, and the tree joins each component |
| KruskalSpec.KruskalGrow | Assignment1/spanning_tree_algorithms.cpp:85-91 | adding that edge keeps the tree inside a lightest competitor |
| KruskalAsWritten.AsWrittenPicks | Assignment1/spanning_tree_algorithms.cpp:78-92 | when the loop as written stops it holds m - 1 records, all taken from the sorted list, after those already added |
| KruskalAsWritten.FindNoUnions | Assignment1/spanning_tree_algorithms.cpp:82-83 | without unions every find returns the index itself below m and 0 for any other key |
| KruskalAsWritten.MissingUnion | Assignment1/spanning_tree_algorithms.cpp:85-91 | a graph on which the loop as written takes all three edges of a triangle and leaves a vertex out |
| KruskalAsWritten.MakeSetTooSmall | Assignment1/spanning_tree_algorithms.cpp:75-76 | a graph on which make_set(edge count) makes an unjoined pair look joined, so a tree edge is skipped |
| KruskalAsWritten.StopTestTooEarly | Assignment1/spanning_tree_algorithms.cpp:78 | a one-edge graph on which the loop stops at 0 edges |
| KruskalAsWritten.PopsEmptyList | Assignment1/spanning_tree_algorithms.cpp:78-80 | a graph without edges on which the loop pops an empty list |
| AdjGraph.WeightedGraph.constructor | Assignment2/weighted_graph.hpp:19-24 | a new graph is empty with n = m = 0 and its counters right |
| AdjGraph.WeightedGraph.CopyFrom | Assignment2/graph_algorithms.cpp:135 | the copy assignment takes over vertices, neighbour maps and counters, and keeps validity |
| AdjGraph.WeightedGraph.HasVertex | Assignment2/weighted_graph.hpp:75 | true exactly when the vertex has a neighbour map |
| AdjGraph.WeightedGraph.AreAdjacent | Assignment2/weighted_graph.hpp:77-80 | true exactly when both vertices are present and v is a key of u's map |
| AdjGraph.WeightedGraph.GetEdgeWeight | Assignment2/weighted_graph.hpp:128 | a weight exactly when the vertices are adjacent; None stands for the throw of at() |
| AdjGraph.WeightedGraph.Symmetric | Assignment2/weighted_graph.hpp:77-80 | adjacency and edge weight are symmetric |
| AdjGraph.WeightedGraph.Degree | Assignment2/weighted_graph.hpp:130 | defined exactly for a present vertex, and then the number of its neighbours |
| AdjGraph.WeightedGraph.WeightedDegree | Assignment2/weighted_graph.hpp:132-138 | the accumulator loop returns the sum of the weights in the vertex's map; None for an absent vertex |
| AdjSpec.RowTotals | Assignment2/weighted_graph.hpp:130-138 | counting a row vertex by vertex gives its size, and summing it gives its weight sum |
| AdjGraph.WeightedGraph.NumVertices | Assignment2/weighted_graph.hpp:140 | n is the number of vertices |
| AdjGraph.WeightedGraph.NumEdges | Assignment2/weighted_graph.hpp:141 | returns m in every valid state, also after set_edge_weight has made it drift; while m is right, twice it is the degree sum plus one per self-loop |
| AdjGraph.WeightedGraph.TotalWeight | Assignment2/weighted_graph.hpp:143-149 | half the sum of the weighted degrees, truncated toward zero; without self-loops, twice it is the sum of the weight matrix |
| AdjSpec.WeightMatrixSums | Assignment2/weighted_graph.hpp:143-149 | the weighted-degree sum is the total of a symmetric weight matrix, and the self-loops are its trace |
| AdjSpec.WeightsEven | Assignment2/weighted_graph.hpp:143-149 | the weighted-degree sum minus the self-loop weights is even |
| AdjGraph.WeightedGraph.AddVertex | Assignment2/weighted_graph.hpp:82-88 | idempotent for a present vertex; otherwise appends it with an empty map and n + 1; m unchanged |
| AdjSpec.AddVertexKeeps | Assignment2/weighted_graph.hpp:82-88 | a new vertex with an empty map keeps the shape, the symmetry and the edge count |
| AdjGraph.WeightedGraph.AddEdge | Assignment2/weighted_graph.hpp:90-96 | acts exactly when both vertices are present and not adjacent: writes the weight both ways and m + 1; otherwise nothing changes; self-loops are not refused |
| AdjSpec.WriteBothLookup | Assignment2/weighted_graph.hpp:92-93 | after writing both directions u-v and v-u hold the weight and every other entry is unchanged |
| AdjSpec.WriteBothKeeps | Assignment2/weighted_graph.hpp:123-124 | writing both directions keeps the shape and the symmetry |
| AdjSpec.WriteBothCounts | Assignment2/weighted_graph.hpp:90-96 | writing a new edge needs m + 1 to stay right, rewriting an old one needs m unchanged; the weight sum moves by the change in weight |
| AdjGraph.WeightedGraph.RemoveVertex | Assignment2/weighted_graph.hpp:98-110 | for a present vertex: n - 1, m - degree, u erased from every neighbour's map and from both containers, the rest unchanged; false and no change otherwise |
| AdjGraph.WeightedGraph.RemoveFrom | Assignment2/weighted_graph.hpp:104-109 | the erasing loop and the two erases leave the graph without u, valid, with the edge count lowered by u's degree |
| AdjGraph.WeightedGraph.EraseFromNeighbours | Assignment2/weighted_graph.hpp:104-106 | exactly the maps of u's neighbours lose their entry for u |
| AdjSpec.WithoutKeeps | Assignment2/weighted_graph.hpp:98-110 | the graph without a vertex keeps the shape and the symmetry |
| AdjSpec.WithoutCounts | Assignment2/weighted_graph.hpp:98-110 | the graph without u has m - degree(u) edges when the graph had m |
| AdjSpec.WithoutLookup | Assignment2/weighted_graph.hpp:104-109 | without u, no key is u, no map has an entry for u, and all other entries are kept |
| AdjGraph.WeightedGraph.RemoveEdge | Assignment2/weighted_graph.hpp:113-119 | with both vertices present erases both directions and decrements m exactly when the edge existed; ignores absent vertices; afterwards not adjacent |
| AdjSpec.EraseBothKeeps | Assignment2/weighted_graph.hpp:116-117 | erasing both directions keeps the shape and the symmetry |
| AdjSpec.EraseBothCounts | Assignment2/weighted_graph.hpp:113-119 | erasing an edge needs m - 1 to stay right, erasing a non-edge needs m unchanged |
| AdjGraph.WeightedGraph.SetEdgeWeight | Assignment2/weighted_graph.hpp:121-126 | as written: with both vertices present writes both directions with m unchanged; m stays right exactly when they were already adjacent |
| AdjGraph.WeightedGraph.SetEdgeWeightChecked | Assignment2/weighted_graph.hpp:121-126 | set_edge_weight acting only on an existing edge: m stays right |
| EasyAlgorithms.NeighbourKeys | Assignment2/easy_weighted_graph_algorithms.cpp:28-30 | the neighbours pushed into the priority queue, each once |
| EasyAlgorithms.MaxAt | Assignment2/easy_weighted_graph_algorithms.cpp:32-34 | the position of a largest element: the top of a max-heap |
| EasyAlgorithms.MinAt | Assignment2/easy_weighted_graph_algorithms.cpp:65-67 | the position of a smallest element: the top of a min-heap |
| EasyAlgorithms.DrainDescending | Assignment2/easy_weighted_graph_algorithms.cpp:26-35 | draining the max-heap pushes every neighbour exactly once, largest first |
| EasyAlgorithms.DrainAscending | Assignment2/easy_weighted_graph_algorithms.cpp:59-68 | draining the min-heap enqueues every neighbour exactly once, smallest first |
| EasyAlgorithms.DepthExpand | Assignment2/easy_weighted_graph_algorithms.cpp:19-38 | expanding an unvisited vertex keeps the depth-first invariant, with the start's least neighbour on top after the first expansion |
| EasyAlgorithms.BreadthExpand | Assignment2/easy_weighted_graph_algorithms.cpp:52-71 | expanding a dequeued unvisited vertex keeps the breadth-first invariant |
| EasyAlgorithms.SearchDone | Assignment2/easy_weighted_graph_algorithms.cpp:19-38 | when the frontier is empty the output is exactly the set of vertices reachable from the start |
| EasyAlgorithms.Within | Assignment2/easy_weighted_graph_algorithms.cpp:19-38 | a duplicate-free output of vertices is no longer than the vertex list, which bounds the loop |
| EasyAlgorithms.DepthFirst | Assignment2/easy_weighted_graph_algorithms.cpp:10-41 | starts at the start, repeats nothing, holds exactly the reachable vertices, and has the start's least other neighbour second; g is not changed |
| EasyAlgorithms.BreadthFirst | Assignment2/easy_weighted_graph_algorithms.cpp:43-74 | the same traversal properties for the queue-based search |
| GraphAlgorithms.ConnectedIff | Assignment2/graph_algorithms.cpp:22-28 | a traversal from a vertex is as long as the vertex list exactly when the graph is connected |
| GraphAlgorithms.IsConnected | Assignment2/graph_algorithms.cpp:22-28 | true exactly when the graph is empty or connected |
| GraphAlgorithms.TestVertex | Assignment2/graph_algorithms.cpp:135-140 | copying g into the test graph and removing v, the copy is disconnected exactly when v is a cut vertex of g |
| GraphAlgorithms.CutIff | Assignment2/graph_algorithms.cpp:135-140 | the test graph after removing v is connected exactly when g without v is |
| GraphAlgorithms.ArticulationPoints | Assignment2/graph_algorithms.cpp:124-146 | lists each vertex once, and v exactly when v is a vertex whose removal disconnects g, in the order of g's vertex list; g is not changed |
| GraphAlgorithms.CutsInMembers | Assignment2/graph_algorithms.cpp:124-146 | the cut vertices taken in vertex-list order from a duplicate-free list are listed once each, exactly the members whose removal disconnects the graph |
| GraphAlgorithms.ComponentClosed | Assignment2/graph_algorithms.cpp:43-45 | a traversal holds every neighbour of each of its vertices |
| GraphAlgorithms.CopyStep | Assignment2/graph_algorithms.cpp:53-57 | copying one edge keeps "the copy holds exactly the edges copied so far", and re-adding it from the other end does nothing |
| GraphAlgorithms.BuildComponent | Assignment2/graph_algorithms.cpp:46-57 | a new graph on exactly the traversal's vertices, with every edge among them at its weight and m right; those vertices join visited |
| GraphAlgorithms.NewComponent | Assignment2/graph_algorithms.cpp:43-58 | from an unvisited vertex: a traversal starting there and the component graph induced on it |
| GraphAlgorithms.ComponentJoins | Assignment2/graph_algorithms.cpp:39-59 | a traversal from an unvisited vertex meets no earlier component, so the component lists stay disjoint and cover the vertices up to it |
| GraphAlgorithms.ConnectedComponents | Assignment2/graph_algorithms.cpp:32-61 | new graphs, each the traversal-closed component induced on its vertices with the weights copied; together their vertex lists hold every vertex of g exactly once |
| GraphAlgorithms.ComponentCount | Assignment2/graph_algorithms.cpp:32-61 | a partition into components has at most one part per vertex, none for the empty graph, and one per vertex when no vertex has a neighbour |
| ShortestPaths.MinDistance | Assignment2/graph_algorithms.cpp:63-79 | an unsettled vertex of least distance, the last such in iteration order because of <=; None exactly when every unsettled vertex lies above INT_MAX |
| ShortestPaths.Relax | Assignment2/graph_algorithms.cpp:106-116 | only an unsettled neighbour of a finite u whose distance strictly drops gets d[u] + w; distances never grow and every finite one has a walk of that weight |
| ShortestPaths.SettleOptimal | Assignment2/graph_algorithms.cpp:98-104 | with non-negative weights, the vertex min_distance picks has no lighter walk from the source |
| ShortestPaths.RelaxKeeps | Assignment2/graph_algorithms.cpp:106-116 | after relaxing, every edge from a settled to an unsettled vertex satisfies the triangle inequality |
| ShortestPaths.Unreached | Assignment2/graph_algorithms.cpp:93-96 | every vertex starts at INT_MAX |
| ShortestPaths.Settle | Assignment2/graph_algorithms.cpp:98-117 | one round settles one more vertex and keeps the round invariant |
| ShortestPaths.AllOptimal | Assignment2/graph_algorithms.cpp:98-119 | once all vertices are settled, with non-negative weights no walk from the source is lighter than the distance of its end |
| ShortestPaths.Dijkstras | Assignment2/graph_algorithms.cpp:84-120 | empty for the empty graph; otherwise a key for every vertex and the source, 0 at the source; every finite distance is the weight of a walk from the source, and with non-negative weights no walk is lighter |

## Left out

- The iterator stubs, `print`, the driver `Assignment1/main.cpp` and the
  test files: the stubs have empty bodies, the rest is console output or test
  scaffolding.
- The vertex template parameter: vertices are `int`, and the traversals
  break ties with `int`'s `<`.
- Hash iteration order: it is modelled as the order of a duplicate-free list
  in which insertion appends. Results that depend on it (the order of
  `connected_components`, which of the tied vertices `min_distance` picking
  the last one means) depend on that list.
- Machine-integer overflow: weights, degrees, counters and sums are
  mathematical integers. `INT_MAX` appears only as Prim's and Dijkstra's
  infinity. `TotalWeight` models C++'s truncating division by 2 explicitly.
- Exceptions from `at()` become `Option` results (`AdjGraph.WeightedGraph.GetEdgeWeight`,
  `AdjGraph.WeightedGraph.Degree`, `AdjGraph.WeightedGraph.WeightedDegree`) or preconditions (the algorithms).
- AdjGraph.WeightedGraph.RemoveVertex: for an absent vertex it returns false and changes nothing, where the source throws from `neighbours_begin` before changing anything.
- AdjGraph.WeightedGraph.RemoveVertex: with a self-loop the source erases from the map it is iterating (undefined behaviour); the model erases u from its neighbours' maps after reading the list of neighbours.
- EasyAlgorithms.DepthFirst: requires a present start (the source throws from `adj_list.at`), and states the visiting order only through its first two entries, not vertex by vertex.
- EasyAlgorithms.BreadthFirst: requires a present start, and states the order only through its first two entries.
- MatrixGraph.WeightedGraph.DepthFirst: states the visiting order only through its first two entries, beyond membership and no repeats.
- MatrixGraph.WeightedGraph.BreadthFirst: states the visiting order only through its first two entries.
- GraphAlgorithms.TestVertex: requires v to be a vertex of g, as articulation_points only passes its own vertices.
- GraphAlgorithms.ConnectedComponents: states that the component graphs are not g itself rather than that each is freshly allocated.
- ShortestPaths.MinDistance: returns None where the source returns an uninitialised vertex; inside dijkstras this never happens, as proved.
- ShortestPaths.Dijkstras: with a negative weight only the soundness half (every finite distance is a walk's weight) is stated, since nothing tighter holds.
- MatrixGraph.WeightedGraph.Mst: requires a non-empty graph, because the loop bound `vertices.size() - 1` wraps for an empty one. It requires a connected graph with weights below INT_MAX, because otherwise `get_min_key` returns an uninitialised index. Index 0's `add_edge` with `vertices[parent[0]] = vertices[-1]` reads outside the vector; the model treats it as adding nothing.
- SpanningTree.SortEdges: ends at once on an empty list, where the source does not: its bound `edges.size() - 1` is an unsigned `size_t` that wraps to 2^64 - 1 when `size_t` is 64 bits, the 32-bit `unsigned int i` wraps before reaching it, and the loop never ends (undefined behaviour, as it has no side effects).
- UnionFind.DisjointSet.MakeSet: requires each index it resets to be absent or a root already (as in kruskal, which calls it on a new set), so the forest stays acyclic.
- UnionFind.DisjointSet.MakeUnion: requires both keys to be present, where the source's `find` would insert them.
- The matrix draft's `index_are_valid` is inlined into `MatrixSpec.IndicesValid`, a predicate without a contract of its own.

## Findings

| source | as written | input that shows it | evidently intended | confidence | as-written member | corrected member |
|---|---|---|---|---|---|---|
| Assignment1/weighted_graph.hpp:385-397 | remove_edge decrements edges_count whenever both vertices exist | vertices 1 and 2, no edge; remove_edge(1, 2) leaves edges_count at -1 | decrement only when the edge existed | not executed | MatrixSpec.RemoveEdgeDriftExample | MatrixGraph.WeightedGraph.RemoveEdgeChecked |
| Assignment2/weighted_graph.hpp:121-126 | set_edge_weight on two present, non-adjacent vertices creates an edge without m + 1 | vertices 1 and 2, no edge; set_edge_weight(1, 2, 5) gives one edge and num_edges() == 0 | re-weight existing edges only, as the dense draft does | not executed | AdjGraph.WeightedGraph.SetEdgeWeight | AdjGraph.WeightedGraph.SetEdgeWeightChecked |
| Assignment1/spanning_tree_algorithms.cpp:85-91 | no make_union after an edge is added | triangle 0-1-2 with weights 1, 2, 3 and edge 2-3 of weight 4: all three triangle edges are taken and 3 is left out | unite the two roots after adding the edge | not executed | KruskalAsWritten.MissingUnion | MatrixGraph.WeightedGraph.Kruskal |
| Assignment1/spanning_tree_algorithms.cpp:75-76 | make_set is sized by the number of edges | edges 0-3 (1) and 1-2 (2): make_set(2) puts 3 and 2 under 0, so 0-3 is skipped | make_set over the number of vertices | not executed | KruskalAsWritten.MakeSetTooSmall | MatrixGraph.WeightedGraph.Kruskal |
| Assignment1/spanning_tree_algorithms.cpp:78 | the loop stops at edges_count - 1 tree edges and pops without checking for an empty list | one edge 0-1: stops with no edge; two vertices without edges: pops an empty list | stop at vertices - 1 edges or when the list is empty | not executed | KruskalAsWritten.StopTestTooEarly | MatrixGraph.WeightedGraph.Kruskal |
