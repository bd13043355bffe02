/**
 * The hash draft of the weighted graph container: a set of vertices, one
 * neighbour map per vertex holding the weight of each edge, and the counters
 * n (vertices) and m (edges).
 */
module AdjGraph {
  import opened Sums
  import opened AdjSpec

  class WeightedGraph {
    var vertices: seq<int>
    var adj: Adj
    var n: int
    var m: int

    /** Every operation keeps this: there is a neighbour map for exactly the
        vertices, every edge is stored in both directions with one weight, and
        n counts the vertices. */
    ghost predicate Valid()
      reads this
    {
      Shaped(vertices, adj) && Mirrored(adj) && n == |vertices|
    }

    /** m counts the edges, a self-loop as one. */
    ghost predicate Counted()
      reads this
    {
      Valid() && EdgesCounted(vertices, adj, m)
    }

    constructor ()
      ensures Counted()
      ensures vertices == [] && adj == map[] && n == 0 && m == 0
    {
      vertices, adj, n, m := [], map[], 0, 0;
    }

    /** The copy assignment of the container. */
    method CopyFrom(g: WeightedGraph)
      modifies this
      ensures vertices == old(g.vertices) && adj == old(g.adj) && n == old(g.n) && m == old(g.m)
      ensures old(g.Valid()) ==> Valid()
    {
      vertices, adj, n, m := g.vertices, g.adj, g.n, g.m;
    }

    // -------------------------------------------------------------------------
    // Queries

    function HasVertex(u: int): (r: bool)
      reads this
      requires Valid()
      ensures r <==> u in adj
    {
      u in vertices
    }

    /** Both vertices are present and u's neighbour map has an entry for v. */
    function AreAdjacent(u: int, v: int): (r: bool)
      reads this
      requires Valid()
      ensures r <==> u in vertices && v in vertices && v in Keys(adj[u])
      ensures r <==> u in adj && Lookup(adj[u], v).Some?
    {
      if HasVertex(u) && HasVertex(v) then
        HasKeys(adj[u], v);
        LookupHas(adj[u], v);
        Has(adj[u], v)
      else
        LookupHas(if u in adj then adj[u] else [], v);
        false
    }

    /** The weight of the edge u-v; None where adj_list.at(u).at(v) throws,
        that is for an absent u or a vertex v that is not u's neighbour. */
    function GetEdgeWeight(u: int, v: int): (r: Option<int>)
      reads this
      requires Valid()
      ensures r.Some? <==> AreAdjacent(u, v)
    {
      if u in adj then Lookup(adj[u], v) else None
    }

    /** Adjacency and edge weights read the same from either end. */
    lemma Symmetric(u: int, v: int)
      requires Valid()
      ensures AreAdjacent(u, v) == AreAdjacent(v, u)
      ensures GetEdgeWeight(u, v) == GetEdgeWeight(v, u)
    {
      if u in adj && v in adj {
        MirrorLookup(adj, u, v);
      } else if u in adj {
        LookupHas(adj[u], v);
      } else if v in adj {
        LookupHas(adj[v], u);
      }
    }

    /** The size of u's neighbour map, which is the number of vertices adjacent
        to u; None where adj_list.at(u) throws. */
    function Degree(u: int): (r: Option<int>)
      reads this
      requires Valid()
      ensures r.Some? <==> u in vertices
      ensures r.Some? ==> r.value == Sum(HasFlags(vertices, adj[u]))
    {
      if u in adj then
        RowInVertices(vertices, adj, u);
        RowTotals(vertices, adj[u]);
        Some(|adj[u]|)
      else
        None
    }

    /** The sum of the weights in u's neighbour map, which is the sum of the
        weights of the edges from u to each vertex; None where
        adj_list.at(u) throws. */
    method WeightedDegree(u: int) returns (r: Option<int>)
      requires Valid()
      ensures u !in vertices ==> r == None
      ensures u in vertices ==> r == Some(SumWeights(adj[u]))
      ensures u in vertices ==> r.value == Sum(LookupVals(vertices, adj[u]))
    {
      if u !in adj {
        return None;
      }
      var row := adj[u];
      var total := 0;
      var i := 0;
      while i < |row|
        invariant 0 <= i <= |row|
        invariant total + SumWeights(row[i..]) == SumWeights(row)
      {
        assert row[i..][1..] == row[i + 1..];
        total := total + row[i].weight;
        i := i + 1;
      }
      RowInVertices(vertices, adj, u);
      RowTotals(vertices, row);
      r := Some(total);
    }

    function NumVertices(): (r: int)
      reads this
      requires Valid()
      ensures r == |vertices|
    {
      n
    }

    /** The counter m, in every state. Whenever it agrees with the maps,
        twice it is the sum of the degrees plus the number of self-loops, each
        of which takes one entry in one map (set_edge_weight can make it drift). */
    function NumEdges(): (r: int)
      reads this
      requires Valid()
      ensures r == m
      ensures Counted() ==> 2 * r == Sum(Measure(vertices, adj, DegreeOf)) + Sum(Measure(vertices, adj, LoopOf))
    {
      m
    }

    /** Half the sum of the weighted degrees, rounded toward zero as the C++
        division does. Without self-loops every edge weight is counted twice,
        once from each end, so the halving is exact: twice the result is the
        sum of the weight matrix. */
    method TotalWeight() returns (r: int)
      requires Valid()
      ensures r == CDiv2(Sum(Measure(vertices, adj, WeightOf)))
      ensures NoSelfLoops(adj) ==> 2 * r == Total(WeightMatrix(vertices, adj))
    {
      var total := 0;
      var i := 0;
      while i < |vertices|
        invariant 0 <= i <= |vertices|
        invariant total == Sum(Measure(vertices[..i], adj, WeightOf))
      {
        var d := WeightedDegree(vertices[i]);
        assert Measure(vertices[..i + 1], adj, WeightOf) ==
          Measure(vertices[..i], adj, WeightOf) + [SumWeights(adj[vertices[i]])];
        SumAppend(Measure(vertices[..i], adj, WeightOf), SumWeights(adj[vertices[i]]));
        total := total + d.value;
        i := i + 1;
      }
      assert vertices[..i] == vertices;
      WeightMatrixSums(vertices, adj);
      WeightsEven(vertices, adj);
      if NoSelfLoops(adj) {
        NoLoopWeights(vertices, adj);
      }
      r := CDiv2(total);
    }

    // -------------------------------------------------------------------------
    // Mutators

    /** Adds v with an empty neighbour map unless it is already present. */
    method AddVertex(v: int)
      requires Valid()
      modifies this
      ensures Valid() && m == old(m) && v in vertices
      ensures v in old(vertices) ==> vertices == old(vertices) && adj == old(adj) && n == old(n)
      ensures v !in old(vertices) ==> vertices == old(vertices) + [v] && adj == old(adj)[v := []] && n == old(n) + 1
      ensures old(Counted()) ==> Counted()
    {
      if !HasVertex(v) {
        AddVertexKeeps(vertices, adj, v, m);
        vertices := vertices + [v];
        adj := adj[v := []];
        n := n + 1;
      }
    }

    /** Stores the edge u-v in both maps and counts it, when both vertices are
        present and not yet adjacent; otherwise nothing changes. A self-loop
        (u == v) is allowed and takes one entry. */
    method AddEdge(u: int, v: int, weight: int)
      requires Valid()
      modifies this
      ensures Valid() && vertices == old(vertices) && n == old(n)
      ensures if u in old(vertices) && v in old(vertices) && !Has(old(adj)[u], v) then
          adj == WriteBoth(old(adj), u, v, weight) && m == old(m) + 1
        else
          adj == old(adj) && m == old(m)
      ensures u in vertices && v in vertices ==> AreAdjacent(u, v)
      ensures old(Counted()) ==> Counted()
    {
      if HasVertex(u) && HasVertex(v) && !Has(adj[u], v) {
        WriteBothKeeps(vertices, adj, u, v, weight);
        WriteBothCounts(vertices, adj, u, v, weight, m);
        WriteBothLookup(adj, u, v, weight, u, v);
        adj := WriteBoth(adj, u, v, weight);
        m := m + 1;
        LookupHas(adj[u], v);
      }
    }

    /** Deletes u, its neighbour map and its entry in every neighbour's map,
        and takes its degree off m; ok is false, with nothing changed, where
        adj_list.at(u) throws for an absent u. */
    method RemoveVertex(u: int) returns (ok: bool)
      requires Valid()
      modifies this
      ensures Valid() && u !in vertices
      ensures ok <==> u in old(vertices)
      ensures !ok ==> vertices == old(vertices) && adj == old(adj) && n == old(n) && m == old(m)
      ensures ok ==>
        vertices == RemoveAt(old(vertices), Find(old(vertices), u)) &&
        SameAdj(Without(old(adj), u), adj) &&
        n == old(n) - 1 && m == old(m) - |old(adj)[u]|
      ensures old(Counted()) ==> Counted()
    {
      if !HasVertex(u) {
        return false;
      }
      var k := Find(vertices, u);
      n := n - 1;
      m := m - |adj[u]|;
      vertices, adj := RemoveFrom(vertices, adj, k, old(m));
      ok := true;
    }

    /** remove_vertex on the values, for the vertex at position k. */
    static method RemoveFrom(vs: seq<int>, adj: Adj, k: nat, ghost m: int) returns (vs': seq<int>, adj': Adj)
      requires Shaped(vs, adj) && Mirrored(adj) && k < |vs|
      ensures vs' == RemoveAt(vs, k) && SameAdj(Without(adj, vs[k]), adj')
      ensures Shaped(vs', adj') && Mirrored(adj') && vs[k] !in vs'
      ensures EdgesCounted(vs, adj, m) ==> EdgesCounted(vs', adj', m - |adj[vs[k]]|)
    {
      var u := vs[k];
      NeighboursPresent(adj, u);
      var a1 := EraseFromNeighbours(adj, u, adj[u]);
      vs', adj' := RemoveAt(vs, k), a1 - {u};
      ErasedSame(adj, u, a1);
      WithoutAgrees(vs, adj, k, adj', m);
      RemoveAtMembers(vs, k);
    }

    /** The loop of remove_vertex: erase u from the map of every vertex listed
        in row, a copy of u's own map. */
    static method EraseFromNeighbours(adj: Adj, u: int, row: Row) returns (r: Adj)
      requires forall i :: 0 <= i < |row| ==> row[i].to in adj
      requires forall x :: x in adj ==> KeysDistinct(adj[x])
      ensures forall x :: x in r <==> x in adj
      ensures forall x :: x in r ==> r[x] == if x in Keys(row) then Erase(adj[x], u) else adj[x]
    {
      r := adj;
      var i := 0;
      while i < |row|
        invariant 0 <= i <= |row|
        invariant forall x :: x in r <==> x in adj
        invariant forall x :: x in r ==> r[x] == if x in Keys(row)[..i] then Erase(adj[x], u) else adj[x]
      {
        var w := row[i].to;
        assert Keys(row)[..i + 1] == Keys(row)[..i] + [w];
        EraseLookup(adj[w], u, u);
        EraseSize(adj[w], u);
        EraseAbsent(Erase(adj[w], u), u);
        r := r[w := Erase(r[w], u)];
        i := i + 1;
      }
      assert Keys(row)[..i] == Keys(row);
    }

    /** Erases the edge u-v from both maps when both vertices are present, and
        takes one off m if the edge existed. */
    method RemoveEdge(u: int, v: int)
      requires Valid()
      modifies this
      ensures Valid() && vertices == old(vertices) && n == old(n)
      ensures if u in old(vertices) && v in old(vertices) then
          adj == EraseBoth(old(adj), u, v) && m == old(m) - (if Has(old(adj)[u], v) then 1 else 0)
        else
          adj == old(adj) && m == old(m)
      ensures !AreAdjacent(u, v)
      ensures old(Counted()) ==> Counted()
    {
      if HasVertex(u) && HasVertex(v) {
        EraseBothKeeps(vertices, adj, u, v);
        EraseBothCounts(vertices, adj, u, v, m);
        EraseBothLookup(vertices, adj, u, v, u, v);
        if Has(adj[u], v) {
          m := m - 1;
        }
        adj := EraseBoth(adj, u, v);
        LookupHas(adj[u], v);
      }
    }

    /** set_edge_weight AS WRITTEN: whenever both vertices are present it writes
        the weight in both directions, which creates the edge when there was
        none, and m never changes. m then stays exact only when the edge
        already existed. */
    method SetEdgeWeight(u: int, v: int, weight: int)
      requires Valid()
      modifies this
      ensures Valid() && vertices == old(vertices) && n == old(n) && m == old(m)
      ensures if u in old(vertices) && v in old(vertices) then
          adj == WriteBoth(old(adj), u, v, weight)
        else
          adj == old(adj)
      ensures u in vertices && v in vertices ==> GetEdgeWeight(u, v) == Some(weight)
      ensures old(Counted()) && u in old(vertices) && v in old(vertices) ==>
        (Counted() <==> old(AreAdjacent(u, v)))
    {
      if HasVertex(u) && HasVertex(v) {
        WriteBothKeeps(vertices, adj, u, v, weight);
        WriteBothCounts(vertices, adj, u, v, weight, m);
        WriteBothLookup(adj, u, v, weight, u, v);
        adj := WriteBoth(adj, u, v, weight);
      }
    }

    /** set_edge_weight as evidently intended: it re-weights an existing edge
        and leaves everything else alone, so m stays exact. */
    method SetEdgeWeightChecked(u: int, v: int, weight: int)
      requires Valid()
      modifies this
      ensures Valid() && vertices == old(vertices) && n == old(n) && m == old(m)
      ensures if old(AreAdjacent(u, v)) then
          adj == WriteBoth(old(adj), u, v, weight)
        else
          adj == old(adj)
      ensures old(AreAdjacent(u, v)) ==> GetEdgeWeight(u, v) == Some(weight)
      ensures old(Counted()) ==> Counted()
    {
      if HasVertex(u) && HasVertex(v) && Has(adj[u], v) {
        WriteBothKeeps(vertices, adj, u, v, weight);
        WriteBothCounts(vertices, adj, u, v, weight, m);
        WriteBothLookup(adj, u, v, weight, u, v);
        adj := WriteBoth(adj, u, v, weight);
      }
    }
  }
}
