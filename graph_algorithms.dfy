/**
 * The algorithms of the hash draft built on the container and on
 * depth_first: connectivity, connected components, Dijkstra's shortest
 * distances and articulation points by brute force.
 */
module GraphAlgorithms {
  import opened Sums
  import opened AdjSpec
  import opened AdjGraph
  import opened EasyAlgorithms
  import Paths

  // ---------------------------------------------------------------------------
  // is_connected

  /** A depth-first traversal from the first vertex holds every vertex
      exactly when every vertex reaches every other. */
  lemma ConnectedIff(vs: seq<int>, adj: Adj, order: seq<int>)
    requires Shaped(vs, adj) && Mirrored(adj) && |vs| > 0
    requires vs[0] in adj && IsTraversal(adj, vs[0], order)
    ensures |order| == |vs| <==> Paths.Connected(NbrGraph(adj))
  {
    var G := NbrGraph(adj);
    NbrGraphUndirected(vs, adj);
    forall k | 0 <= k < |order| ensures order[k] in vs {
      var x := order[k];
      assert x in order;
      Paths.ReachInGraph(G, vs[0], x);
      assert x in adj;
    }
    DistinctWithin(order, vs);
    if |order| == |vs| {
      forall v | v in G ensures Paths.Reachable(G, vs[0], v) {
        assert v in vs;
        assert v in order;
      }
      Paths.ConnectedFrom(G, vs[0]);
    }
    if Paths.Connected(G) {
      forall k | 0 <= k < |vs| ensures vs[k] in order {
        var x := vs[k];
        assert x in adj;
        assert Paths.Reachable(G, vs[0], x);
      }
      DistinctWithin(vs, order);
    }
  }

  /** true for the empty graph, and otherwise when the depth-first traversal
      from the first vertex in iteration order reaches num_vertices()
      vertices. */
  method IsConnected(g: WeightedGraph) returns (r: bool)
    requires g.Valid()
    ensures r <==> g.n == 0 || Paths.Connected(NbrGraph(g.adj))
  {
    if g.NumVertices() == 0 {
      return true;
    }
    var order := DepthFirst(g, g.vertices[0]);
    r := |order| == g.NumVertices();
    ConnectedIff(g.vertices, g.adj, order);
  }

  // ---------------------------------------------------------------------------
  // articulation_points

  /** Removing v leaves a graph that is not connected. */
  ghost predicate IsCut(adj: Adj, v: int)
  {
    !Paths.Connected(NbrGraph(Without(adj, v)))
  }

  /** The cut vertices of vs, in the order vs lists them. */
  ghost function CutsIn(adj: Adj, vs: seq<int>): seq<int>
  {
    if vs == [] then []
    else CutsIn(adj, vs[..|vs| - 1]) + (if IsCut(adj, vs[|vs| - 1]) then [vs[|vs| - 1]] else [])
  }

  /** Taking one more vertex of vs appends it exactly when it is a cut vertex. */
  lemma CutsInStep(adj: Adj, vs: seq<int>, i: nat)
    requires i < |vs|
    ensures CutsIn(adj, vs[..i + 1]) == CutsIn(adj, vs[..i]) + (if IsCut(adj, vs[i]) then [vs[i]] else [])
  {
    assert vs[..i + 1][..i] == vs[..i];
  }

  /** The cut vertices of a duplicate-free list are listed once each, and
      they are exactly its members whose removal disconnects the graph. */
  lemma {:induction false} CutsInMembers(adj: Adj, vs: seq<int>)
    requires Distinct(vs)
    ensures Distinct(CutsIn(adj, vs))
    ensures forall v :: v in CutsIn(adj, vs) <==> v in vs && IsCut(adj, v)
    decreases |vs|
  {
    if vs != [] {
      var p, x := vs[..|vs| - 1], vs[|vs| - 1];
      assert vs == p + [x];
      assert Distinct(p) && x !in p;
      CutsInMembers(adj, p);
      if IsCut(adj, x) {
        AppendDistinct(CutsIn(adj, p), x);
      }
    }
  }

  /** A graph with no vertices is connected. */
  lemma EmptyConnected(adj: Adj)
    requires forall u :: u !in adj
    ensures Paths.Connected(NbrGraph(adj))
  {
  }

  /** What is_connected says of the test graph is whether v is a cut vertex. */
  lemma CutIff(test: Adj, n: int, vs: seq<int>, adj: Adj, v: int)
    requires Shaped(vs, test) && n == |vs| && SameAdj(Without(adj, v), test)
    ensures !(n == 0 || Paths.Connected(NbrGraph(test))) <==> IsCut(adj, v)
  {
    SameAdjConnected(Without(adj, v), test);
    if n == 0 {
      EmptyConnected(test);
    }
  }

  lemma AppendDistinct(s: seq<int>, x: int)
    requires Distinct(s) && x !in s
    ensures Distinct(s + [x])
  {
  }

  /** The vertices, in iteration order, whose removal from a copy of g
      disconnects it; the empty graph has none, and g is left as it was. */
  method ArticulationPoints(g: WeightedGraph) returns (r: seq<int>)
    requires g.Valid()
    ensures Distinct(r)
    ensures forall v :: v in r <==> v in g.vertices && IsCut(g.adj, v)
    ensures r == CutsIn(g.adj, g.vertices)
  {
    r := [];
    var test := new WeightedGraph();
    if g.NumVertices() == 0 {
      return;
    }
    var vs := g.vertices;
    for i := 0 to |vs|
      invariant r == CutsIn(g.adj, vs[..i])
    {
      var v := vs[i];
      var cut := TestVertex(g, test, v);
      CutsInStep(g.adj, vs, i);
      if cut {
        r := r + [v];
      }
    }
    assert vs[..|vs|] == vs;
    CutsInMembers(g.adj, vs);
  }

  /** One round of articulation_points: reset the test graph to g, remove v
      from it and ask whether it is still connected. */
  method TestVertex(g: WeightedGraph, test: WeightedGraph, v: int) returns (cut: bool)
    requires g.Valid() && test != g && v in g.vertices
    modifies test
    ensures cut <==> IsCut(g.adj, v)
  {
    ghost var ga := g.adj;
    test.CopyFrom(g);
    var ok := test.RemoveVertex(v);
    var c := IsConnected(test);
    CutIff(test.adj, test.n, test.vertices, ga, v);
    cut := !c;
  }

  // ---------------------------------------------------------------------------
  // connected_components

  /** The vertex lists of the components, in order. */
  ghost function VertexLists(cs: seq<WeightedGraph>): (r: seq<seq<int>>)
    reads cs
    ensures |r| == |cs| && forall j :: 0 <= j < |cs| ==> r[j] == cs[j].vertices
  {
    seq(|cs|, j requires 0 <= j < |cs| reads cs => cs[j].vertices)
  }

  function Flatten(parts: seq<seq<int>>): (r: seq<int>)
  {
    if parts == [] then [] else Flatten(parts[..|parts| - 1]) + parts[|parts| - 1]
  }

  lemma FlattenAppend(parts: seq<seq<int>>, p: seq<int>)
    ensures Flatten(parts + [p]) == Flatten(parts) + p
  {
    assert (parts + [p])[..|parts|] == parts;
  }

  /** Every vertex lies in exactly one of the parts, and the parts hold
      nothing else. */
  ghost predicate Partition(vs: seq<int>, parts: seq<seq<int>>)
  {
    Distinct(Flatten(parts)) && forall x :: x in Flatten(parts) <==> x in vs
  }

  /** A component: a non-empty vertex list that is the depth-first traversal
      from its first vertex. */
  ghost predicate Component(adj: Adj, p: seq<int>)
  {
    |p| > 0 && p[0] in adj && IsTraversal(adj, p[0], p)
  }

  /** ca is the subgraph of ga on ca's vertices with the weights copied: a
      vertex keeps all its edges, so none leaves the component. */
  ghost predicate Induced(ga: Adj, ca: Adj)
  {
    forall x :: x in ca ==> x in ga && forall y :: Lookup(ca[x], y) == Lookup(ga[x], y)
  }

  /** A neighbour of a traversal's vertex is in the traversal. */
  lemma NeighbourInOrder(adj: Adj, s: int, order: seq<int>, u: int, y: int)
    requires s in adj && IsTraversal(adj, s, order) && u in order && u in adj && Has(adj[u], y)
    ensures y in order
  {
    Paths.ReachStep(NbrGraph(adj), s, u, y);
  }

  /** The vertices of order lie in ga and every neighbour of one of them is
      one of them. */
  ghost predicate NeighbourClosed(ga: Adj, order: seq<int>)
  {
    (forall j :: 0 <= j < |order| ==> order[j] in ga) &&
    (forall x, y :: x in order && x in ga && Has(ga[x], y) ==> y in order)
  }

  /** A component is closed under neighbours. */
  lemma ComponentClosed(vs: seq<int>, ga: Adj, order: seq<int>)
    requires Shaped(vs, ga) && Mirrored(ga) && Component(ga, order)
    ensures NeighbourClosed(ga, order) && Distinct(order)
  {
    NbrGraphUndirected(vs, ga);
    forall j | 0 <= j < |order| ensures order[j] in ga {
      var x := order[j];
      assert x in order;
      Paths.ReachInGraph(NbrGraph(ga), order[0], x);
    }
    forall x, y | x in order && x in ga && Has(ga[x], y) ensures y in order {
      NeighbourInOrder(ga, order[0], order, x, y);
    }
  }

  /** The edges copied so far: ca holds ga's weight for the pairs in D and no
      entry for the others; D is symmetric and holds only edges of ga. */
  ghost predicate CopyInv(ga: Adj, ca: Adj, D: set<(int, int)>)
  {
    (forall x :: x in ca ==> x in ga) &&
    (forall x, y :: x in ca ==> Lookup(ca[x], y) == if (x, y) in D then Lookup(ga[x], y) else None) &&
    (forall x, y :: (x, y) in D ==> x in ca && y in ca && (y, x) in D)
  }

  /** One add_edge(u, y, w) of the copy loop, with w the weight ga stores. */
  lemma CopyStep(ga: Adj, ca: Adj, D: set<(int, int)>, u: int, y: int, w: int)
    requires Mirrored(ga) && CopyInv(ga, ca, D) && u in ca && y in ca
    requires u in ga && Lookup(ga[u], y) == Some(w)
    ensures var ca' := if !Has(ca[u], y) then WriteBoth(ca, u, y, w) else ca;
      CopyInv(ga, ca', D + {(u, y), (y, u)})
  {
    LookupHas(ga[u], y);
    MirrorLookup(ga, u, y);
    LookupHas(ca[u], y);
    if !Has(ca[u], y) {
      var ca' := WriteBoth(ca, u, y, w);
      forall x, z | x in ca'
        ensures Lookup(ca'[x], z) == if (x, z) in D + {(u, y), (y, u)} then Lookup(ga[x], z) else None
      {
        WriteBothLookup(ca, u, y, w, x, z);
      }
      forall x | x in ca' ensures x in ga {
        WriteBothLookup(ca, u, y, w, x, x);
      }
    } else {
      assert (u, y) in D;
    }
  }

  /** Builds the component on a traversal's vertices: add_vertex for each of
      them (marking it visited), then add_edge for every entry of each vertex's
      neighbour map. The second add_edge of an edge finds it already there. */
  method BuildComponent(g: WeightedGraph, order: seq<int>, visited: set<int>) returns (c: WeightedGraph, visited': set<int>)
    requires g.Valid() && NeighbourClosed(g.adj, order) && Distinct(order)
    ensures fresh(c) && c.Counted() && c.vertices == order && Induced(g.adj, c.adj)
    ensures forall x :: x in visited' <==> x in visited || x in order
  {
    c := new WeightedGraph();
    visited' := AddVertices(c, order, visited);
    CopyEdges(g.adj, c, order);
  }

  /** The second loop of a component: rebuild the edges of each vertex. */
  method CopyEdges(ga: Adj, c: WeightedGraph, order: seq<int>)
    requires Mirrored(ga) && (forall x :: x in ga ==> KeysDistinct(ga[x])) && NeighbourClosed(ga, order)
    requires c.Counted() && c.vertices == order && forall x :: x in c.adj ==> c.adj[x] == []
    modifies c
    ensures c.Counted() && c.vertices == order && Induced(ga, c.adj)
  {
    CopyStart(ga, c.adj, order);
    ghost var D: set<(int, int)> := {};
    for i := 0 to |order|
      invariant c.Counted() && c.vertices == order
      invariant CopyInv(ga, c.adj, D)
      invariant RowsCopied(ga, order, i, D)
    {
      ghost var before := D;
      D := CopyRow(ga, c, order, order[i], D);
      RowsCopiedStep(ga, order, i, before, D);
    }
    CopyDone(ga, c.adj, order, D);
  }

  /** Every edge at the first i vertices of order is in D. */
  ghost predicate RowsCopied(ga: Adj, order: seq<int>, i: int, D: set<(int, int)>)
  {
    forall j, y :: 0 <= j < i && j < |order| && order[j] in ga && Has(ga[order[j]], y) ==> (order[j], y) in D
  }

  /** Copying row i extends RowsCopied by one vertex. */
  lemma RowsCopiedStep(ga: Adj, order: seq<int>, i: int, D: set<(int, int)>, D': set<(int, int)>)
    requires RowsCopied(ga, order, i, D) && D <= D' && 0 <= i < |order| && order[i] in ga
    requires forall y :: Has(ga[order[i]], y) ==> (order[i], y) in D'
    ensures RowsCopied(ga, order, i + 1, D')
  {
  }

  /** Before the second pass the new graph has the component's vertices and
      no edges. */
  lemma CopyStart(ga: Adj, ca: Adj, order: seq<int>)
    requires NeighbourClosed(ga, order)
    requires Shaped(order, ca) && forall x :: x in ca ==> ca[x] == []
    ensures CopyInv(ga, ca, {})
  {
    forall x | x in ca ensures x in ga {
      var j :| 0 <= j < |order| && order[j] == x;
    }
  }

  /** After the second pass every edge at a component vertex is copied. */
  lemma CopyDone(ga: Adj, ca: Adj, order: seq<int>, D: set<(int, int)>)
    requires CopyInv(ga, ca, D) && Shaped(order, ca) && NeighbourClosed(ga, order)
    requires RowsCopied(ga, order, |order|, D)
    ensures Induced(ga, ca)
  {
    forall x, y | x in ca ensures Lookup(ca[x], y) == Lookup(ga[x], y) {
      var j :| 0 <= j < |order| && order[j] == x;
      LookupHas(ga[x], y);
    }
  }

  /** The first loop of a component: add_vertex and visited.insert for each
      vertex of the traversal, on a new graph. */
  method AddVertices(c: WeightedGraph, order: seq<int>, visited: set<int>) returns (visited': set<int>)
    requires c.Counted() && c.vertices == [] && Distinct(order)
    modifies c
    ensures c.Counted() && c.vertices == order
    ensures forall x :: x in c.adj ==> c.adj[x] == []
    ensures forall x :: x in visited' <==> x in visited || x in order
  {
    visited' := visited;
    for i := 0 to |order|
      invariant c.Counted() && c.vertices == order[..i]
      invariant forall x :: x in c.adj ==> c.adj[x] == []
      invariant forall x :: x in visited' <==> x in visited || x in order[..i]
    {
      assert order[i] !in order[..i];
      assert order[..i + 1] == order[..i] + [order[i]];
      c.AddVertex(order[i]);
      visited' := visited' + {order[i]};
    }
    assert order[..|order|] == order;
  }

  /** The inner loop of the second pass: add_edge(u, n, w) for each entry
      (n, w) of u's neighbour map in g. */
  method CopyRow(ga: Adj, c: WeightedGraph, order: seq<int>, u: int, ghost D: set<(int, int)>)
    returns (ghost D': set<(int, int)>)
    requires Mirrored(ga) && (forall x :: x in ga ==> KeysDistinct(ga[x])) && NeighbourClosed(ga, order) && u in order
    requires c.Counted() && c.vertices == order && CopyInv(ga, c.adj, D)
    modifies c
    ensures c.Counted() && c.vertices == order && CopyInv(ga, c.adj, D')
    ensures D <= D' && forall y :: Has(ga[u], y) ==> (u, y) in D'
  {
    var row := ga[u];
    D' := D;
    for k := 0 to |row|
      invariant c.Counted() && c.vertices == order
      invariant CopyInv(ga, c.adj, D') && D <= D'
      invariant EntriesCopied(row, u, k, D')
    {
      var y, w := row[k].to, row[k].weight;
      HasKeys(row, y);
      assert u in ga;
      EntryLookup(row, k);
      ghost var before := D';
      D' := CopyEdge(c, ga, order, u, y, w, D');
      EntriesCopiedStep(row, u, k, before, D');
    }
    EntriesCopiedDone(row, u, D');
  }

  /** The edges to the first k neighbours in row are in D. */
  ghost predicate EntriesCopied(row: Row, u: int, k: int, D: set<(int, int)>)
    requires 0 <= k <= |row|
  {
    forall y :: y in Keys(row)[..k] ==> (u, y) in D
  }

  /** Copying entry k extends EntriesCopied by one entry. */
  lemma EntriesCopiedStep(row: Row, u: int, k: int, D: set<(int, int)>, D': set<(int, int)>)
    requires 0 <= k < |row| && EntriesCopied(row, u, k, D) && D <= D' && (u, row[k].to) in D'
    ensures EntriesCopied(row, u, k + 1, D')
  {
    assert Keys(row)[..k + 1] == Keys(row)[..k] + [row[k].to];
  }

  /** Once every entry is copied, every neighbour's edge is in D. */
  lemma EntriesCopiedDone(row: Row, u: int, D: set<(int, int)>)
    requires EntriesCopied(row, u, |row|, D)
    ensures forall y :: Has(row, y) ==> (u, y) in D
  {
    forall y | Has(row, y) ensures (u, y) in D {
      HasKeys(row, y);
      assert Keys(row)[..|row|] == Keys(row);
    }
  }

  /** One add_edge(u, y, w) of the copy, w being the weight g stores for u-y. */
  method CopyEdge(c: WeightedGraph, ghost ga: Adj, order: seq<int>, u: int, y: int, w: int, ghost D: set<(int, int)>)
    returns (ghost D': set<(int, int)>)
    requires Mirrored(ga) && u in ga && Lookup(ga[u], y) == Some(w) && u in order && y in order
    requires c.Counted() && c.vertices == order && CopyInv(ga, c.adj, D)
    modifies c
    ensures c.Counted() && c.vertices == order && CopyInv(ga, c.adj, D')
    ensures D' == D + {(u, y), (y, u)}
  {
    CopyStep(ga, c.adj, D, u, y, w);
    c.AddEdge(u, y, w);
    D' := D + {(u, y), (y, u)};
  }

  /** The components in the order their first vertices come in g's
      iteration order: each is a new graph, not g, with its own counters right,
      holding the vertices one traversal reaches and every edge among them;
      together their vertex lists list every vertex of g exactly once. */
  method ConnectedComponents(g: WeightedGraph) returns (cs: seq<WeightedGraph>)
    requires g.Valid()
    ensures g !in cs && forall j :: 0 <= j < |cs| ==> cs[j].Counted()
    ensures forall j :: 0 <= j < |cs| ==> Component(g.adj, cs[j].vertices) && Induced(g.adj, cs[j].adj)
    ensures Partition(g.vertices, VertexLists(cs))
  {
    var vs, adj := g.vertices, g.adj;
    cs := [];
    var visited: set<int> := {};
    ghost var parts: seq<seq<int>> := [];
    for i := 0 to |vs|
      invariant g !in cs
      invariant Comps(adj, cs, parts)
      invariant Covered(vs, adj, parts, visited, i)
    {
      if vs[i] !in visited {
        var c, visited', order := NewComponent(g, vs[i], visited);
        ComponentJoins(vs, adj, parts, visited, i, order, visited');
        CompsAppend(adj, cs, parts, c, order);
        visited := visited';
        cs := cs + [c];
        parts := parts + [order];
      }
    }
    CompsLists(adj, cs, parts);
  }

  /** Steps 2 and 3 of connected_components: traverse from an unvisited
      vertex and build the component on what is reached. */
  method NewComponent(g: WeightedGraph, s: int, visited: set<int>) returns (c: WeightedGraph, visited': set<int>, ghost order: seq<int>)
    requires g.Valid() && s in g.vertices
    ensures fresh(c) && c.Counted() && c.vertices == order && order != [] && order[0] == s
    ensures Component(g.adj, order) && Induced(g.adj, c.adj)
    ensures forall x :: x in visited' <==> x in visited || x in order
  {
    var vertices := DepthFirst(g, s);
    ComponentClosed(g.vertices, g.adj, vertices);
    c, visited' := BuildComponent(g, vertices, visited);
    order := vertices;
  }

  /** No vertex has a neighbour. */
  ghost predicate Isolated(adj: Adj)
  {
    forall x :: x in adj ==> adj[x] == []
  }

  /** Non-empty parts flatten to at least one vertex each, and single-vertex
      parts to exactly one. */
  lemma {:induction false} PartsLength(parts: seq<seq<int>>)
    requires forall j :: 0 <= j < |parts| ==> |parts[j]| >= 1
    ensures |Flatten(parts)| >= |parts|
    ensures (forall j :: 0 <= j < |parts| ==> |parts[j]| == 1) ==> |Flatten(parts)| == |parts|
  {
    if parts != [] {
      PartsLength(parts[..|parts| - 1]);
    }
  }

  /** How many components a partition into traversals has: none for no
      vertices, at most one per vertex, and one per vertex when no vertex
      has a neighbour. */
  lemma ComponentCount(vs: seq<int>, adj: Adj, parts: seq<seq<int>>)
    requires Distinct(vs) && Partition(vs, parts)
    requires forall j :: 0 <= j < |parts| ==> Component(adj, parts[j])
    ensures |parts| <= |vs| && (|vs| == 0 ==> parts == [])
    ensures Isolated(adj) ==> |parts| == |vs|
  {
    var flat := Flatten(parts);
    PartsLength(parts);
    DistinctCard(vs);
    DistinctCard(flat);
    SubsetCard(Elems(flat), Elems(vs));
    SubsetCard(Elems(vs), Elems(flat));
    if Isolated(adj) {
      forall j | 0 <= j < |parts| ensures |parts[j]| == 1 {
        var p := parts[j];
        assert |p| > 0 && p[0] in adj;
        assert adj[p[0]] == [];
      }
    }
  }

  /** The components built so far, with their vertex lists. */
  ghost predicate Comps(adj: Adj, cs: seq<WeightedGraph>, parts: seq<seq<int>>)
    reads cs
  {
    |parts| == |cs| &&
    forall j :: 0 <= j < |cs| ==>
      cs[j].Counted() && cs[j].vertices == parts[j] && Component(adj, parts[j]) && Induced(adj, cs[j].adj)
  }

  lemma CompsAppend(adj: Adj, cs: seq<WeightedGraph>, parts: seq<seq<int>>, c: WeightedGraph, p: seq<int>)
    requires Comps(adj, cs, parts)
    requires c.Counted() && c.vertices == p && Component(adj, p) && Induced(adj, c.adj)
    ensures Comps(adj, cs + [c], parts + [p])
  {
  }

  lemma CompsLists(adj: Adj, cs: seq<WeightedGraph>, parts: seq<seq<int>>)
    requires Comps(adj, cs, parts)
    ensures VertexLists(cs) == parts
  {
  }

  /** The loop invariant on the vertices: the component lists together repeat
      nothing, are closed under neighbours, lie in g, are what visited holds,
      and cover the first i vertices. */
  ghost predicate Covered(vs: seq<int>, adj: Adj, parts: seq<seq<int>>, visited: set<int>, i: int)
  {
    0 <= i <= |vs| &&
    (forall x :: x in visited <==> x in Flatten(parts)) &&
    Distinct(Flatten(parts)) &&
    Paths.Closed(NbrGraph(adj), Elems(Flatten(parts))) &&
    (forall x :: x in Flatten(parts) ==> x in vs) &&
    (forall k :: 0 <= k < i ==> vs[k] in visited)
  }

  /** A new traversal from an unvisited vertex meets no earlier component,
      and adding it keeps the invariant for the next vertex. */
  lemma ComponentJoins(vs: seq<int>, adj: Adj, parts: seq<seq<int>>, visited: set<int>, i: int, order: seq<int>,
                        visited': set<int>)
    requires Shaped(vs, adj) && Mirrored(adj)
    requires Covered(vs, adj, parts, visited, i) && i < |vs| && vs[i] !in visited
    requires vs[i] in adj && order != [] && order[0] == vs[i] && Component(adj, order)
    requires forall x :: x in visited' <==> x in visited || x in order
    ensures Covered(vs, adj, parts + [order], visited', i + 1)
  {
    var G, flat, s := NbrGraph(adj), Flatten(parts), vs[i];
    FlattenAppend(parts, order);
    NbrGraphUndirected(vs, adj);
    forall x | x in order ensures x !in flat && x in vs {
      Paths.ReachInGraph(G, s, x);
      Paths.ReachSym(G, s, x);
      if x in flat {
        Paths.ReachInClosed(G, x, Elems(flat), s);
      }
    }
    forall i, j | 0 <= i < j < |flat + order| ensures (flat + order)[i] != (flat + order)[j] {
      if i < |flat| && j >= |flat| {
        var y := (flat + order)[j];
        assert y in order;
      }
    }
    forall u, w | u in Elems(flat + order) && u in G && w in G[u] ensures w in Elems(flat + order) {
      if u in order {
        Paths.ReachStep(G, s, u, w);
      }
    }
    assert s in order;
  }
}
