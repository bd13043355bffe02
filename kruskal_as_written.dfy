/**
 * kruskal's main loop as its code stands: make_set is sized by the number of
 * edges m rather than the number of vertices, no make_union follows an added
 * edge, and the loop runs until the tree holds m - 1 edges, popping the back
 * of the edge list without checking that it is empty.
 */
module KruskalAsWritten {
  import opened Sums
  import opened UnionFind
  import opened SpanningTree

  /** What find returns when no make_union has run since make_set(m): an
      index below m is its own root; any other key is inserted with parent 0,
      whose root is 0 (0 itself being inserted as a root when m <= 0). */
  function NoUnionRoot(k: int, m: int): int
  {
    if 0 <= k < m then k else 0
  }

  /** The disjoint set after make_set(m) and any number of finds. */
  ghost predicate NoUnions(parent: map<int, int>, root: map<int, int>, m: int)
  {
    (forall z :: 0 <= z < m ==> z in parent) &&
    (forall z :: z in parent ==> z in root) &&
    (forall z {:trigger parent[z]} :: z in parent ==> parent[z] == NoUnionRoot(z, m)) &&
    (forall z {:trigger root[z]} :: z in parent ==> root[z] == NoUnionRoot(z, m))
  }

  /** make_set(m) on a new disjoint set. */
  lemma MadeSetsNoUnions(parent: map<int, int>, dist: map<int, nat>, root: map<int, int>, m: int)
    requires Forest(parent, dist, root) && MadeSets(parent, map[], m)
    ensures NoUnions(parent, root, m)
  {
    forall z | z in parent ensures root[z] == NoUnionRoot(z, m) {
      assert Link(parent, dist, root, z);
    }
  }

  /** Every find, as DisjointSet.Find models it, returns NoUnionRoot and
      keeps the shape. */
  lemma FindNoUnions(p0: map<int, int>, r0: map<int, int>, m: int, k: int, p: map<int, int>, r: map<int, int>)
    requires NoUnions(p0, r0, m) && Touched(p0, r0, k, p, r)
    ensures NoUnions(p, r, m) && r[k] == NoUnionRoot(k, m)
  {
    forall z | z in p ensures z in r && p[z] == NoUnionRoot(z, m) && r[z] == NoUnionRoot(z, m) {
      if z in p0 {
        assert p[z] == p0[z] && r[z] == r0[z];
      }
    }
  }

  /** How the loop ends: it pops an empty list (undefined behaviour), or it
      reaches m - 1 tree edges with the records added so far. */
  datatype Outcome = PoppedEmpty | Stopped(added: seq<Edge>)

  /** The loop of kruskal as written, on the records still pending (the
      heaviest first) and those added so far. Each record names a different
      upper-triangle cell with a positive weight, so add_edge acts on every
      record it is given and num_edges() of the tree is |added|. */
  function AsWrittenLoop(pending: seq<Edge>, m: int, added: seq<Edge>): (r: Outcome)
    decreases |pending|
  {
    if |added| == m - 1 then Stopped(added)
    else if pending == [] then PoppedEmpty
    else
      var e := pending[|pending| - 1];
      var rest := pending[..|pending| - 1];
      if NoUnionRoot(e.u, m) != NoUnionRoot(e.v, m) then AsWrittenLoop(rest, m, added + [e])
      else AsWrittenLoop(rest, m, added)
  }

  /** The records added are always taken, in order, from the pending list,
      and the loop never adds more than m - 1 of them once it starts below. */
  lemma {:induction false} AsWrittenPicks(pending: seq<Edge>, m: int, added: seq<Edge>)
    requires |added| <= m - 1
    ensures var r := AsWrittenLoop(pending, m, added);
      r.Stopped? ==> (|r.added| == m - 1 && r.added[..|added|] == added &&
                      forall e :: e in r.added[|added|..] ==> e in pending)
    decreases |pending|
  {
    if |added| != m - 1 && pending != [] {
      var e := pending[|pending| - 1];
      var rest := pending[..|pending| - 1];
      if NoUnionRoot(e.u, m) != NoUnionRoot(e.v, m) {
        AsWrittenPicks(rest, m, added + [e]);
        var r := AsWrittenLoop(rest, m, added + [e]);
        if r.Stopped? {
          assert r.added[..|added|] == (r.added[..|added| + 1])[..|added|];
          assert r.added[|added|..] == [e] + r.added[|added| + 1..];
        }
      } else {
        AsWrittenPicks(rest, m, added);
      }
    }
  }

  // Concrete inputs on which the loop as written goes wrong. Each sorted list
  // is a non-increasing permutation of the collected edges, as sort_edges
  // makes it.

  lemma SwappedPair(a: Edge, b: Edge)
    ensures multiset([a, b]) == multiset([b, a])
  {
  }

  lemma ReversedFour(a: Edge, b: Edge, c: Edge, d: Edge)
    ensures multiset([a, b, c, d]) == multiset([d, c, b, a])
  {
  }

  /** A triangle 0-1-2 with weights 1, 2, 3 and a tail 2-3 of weight 4. */
  const TailedTriangle := [[0, 1, 2, 0], [1, 0, 3, 0], [2, 3, 0, 4], [0, 0, 4, 0]]

  lemma TailedTriangleEdges()
    ensures Square(TailedTriangle)
    ensures UpperEdges(TailedTriangle, 4) == [Edge(0, 1, 1), Edge(0, 2, 2), Edge(1, 2, 3), Edge(2, 3, 4)]
  {
    var adj := TailedTriangle;
    assert RowEdges(adj, 0, 4) == [Edge(0, 1, 1), Edge(0, 2, 2)];
    assert RowEdges(adj, 1, 4) == [Edge(1, 2, 3)];
    assert RowEdges(adj, 2, 4) == [Edge(2, 3, 4)];
    assert RowEdges(adj, 3, 4) == [];
  }

  /** The edge list of TailedTriangle after sort_edges. */
  const TailedTriangleSorted := [Edge(2, 3, 4), Edge(1, 2, 3), Edge(0, 2, 2), Edge(0, 1, 1)]

  lemma TailedTriangleSortedEdges()
    ensures Square(TailedTriangle) && multiset(TailedTriangleSorted) == multiset(UpperEdges(TailedTriangle, 4))
  {
    TailedTriangleEdges();
    ReversedFour(Edge(0, 1, 1), Edge(0, 2, 2), Edge(1, 2, 3), Edge(2, 3, 4));
  }

  lemma TailedTriangleSortedOrder()
    ensures NonIncreasing(TailedTriangleSorted)
  {
  }

  lemma TailedTriangleRun()
    ensures AsWrittenLoop(TailedTriangleSorted, 4, []) == Stopped([Edge(0, 1, 1), Edge(0, 2, 2), Edge(1, 2, 3)])
  {
    var e4, e3, e2, e1 := Edge(2, 3, 4), Edge(1, 2, 3), Edge(0, 2, 2), Edge(0, 1, 1);
    assert [e4, e3, e2, e1][..3] == [e4, e3, e2];
    assert [e4, e3, e2][..2] == [e4, e3];
    assert [e4, e3][..1] == [e4];
    assert [] + [e1] == [e1];
    assert [e1] + [e2] == [e1, e2];
    assert [e1, e2] + [e3] == [e1, e2, e3];
    assert AsWrittenLoop([e4, e3, e2, e1], 4, []) == AsWrittenLoop([e4, e3, e2], 4, [e1]);
    assert AsWrittenLoop([e4, e3, e2], 4, [e1]) == AsWrittenLoop([e4, e3], 4, [e1, e2]);
    assert AsWrittenLoop([e4, e3], 4, [e1, e2]) == AsWrittenLoop([e4], 4, [e1, e2, e3]);
  }

  /** On TailedTriangle, without make_union the three triangle edges are all
      taken and the loop stops at m - 1 = 3 edges: the result holds a cycle
      and leaves vertex 3 out. */
  lemma MissingUnion()
    ensures var sorted := TailedTriangleSorted;
      Square(TailedTriangle) && NonIncreasing(sorted) &&
      multiset(sorted) == multiset(UpperEdges(TailedTriangle, 4)) &&
      AsWrittenLoop(sorted, |sorted|, []) == Stopped([Edge(0, 1, 1), Edge(0, 2, 2), Edge(1, 2, 3)])
  {
    TailedTriangleSortedEdges();
    TailedTriangleSortedOrder();
    TailedTriangleRun();
  }

  /** Two separate edges: 0-3 of weight 1 and 1-2 of weight 2. */
  const TwoEdges := [[0, 0, 0, 1], [0, 0, 2, 0], [0, 2, 0, 0], [1, 0, 0, 0]]

  lemma TwoEdgesEdges()
    ensures Square(TwoEdges) && UpperEdges(TwoEdges, 4) == [Edge(0, 3, 1), Edge(1, 2, 2)]
  {
    var adj := TwoEdges;
    assert RowEdges(adj, 0, 4) == [Edge(0, 3, 1)];
    assert RowEdges(adj, 1, 4) == [Edge(1, 2, 2)];
    assert RowEdges(adj, 2, 4) == [];
    assert RowEdges(adj, 3, 4) == [];
  }

  /** The edge list of TwoEdges after sort_edges. */
  const TwoEdgesSorted := [Edge(1, 2, 2), Edge(0, 3, 1)]

  lemma TwoEdgesSortedEdges()
    ensures Square(TwoEdges) && multiset(TwoEdgesSorted) == multiset(UpperEdges(TwoEdges, 4))
  {
    TwoEdgesEdges();
    SwappedPair(Edge(0, 3, 1), Edge(1, 2, 2));
  }

  lemma TwoEdgesSortedOrder()
    ensures NonIncreasing(TwoEdgesSorted)
  {
  }

  lemma TwoEdgesRun()
    ensures AsWrittenLoop(TwoEdgesSorted, 2, []) == Stopped([Edge(1, 2, 2)])
  {
    var e2, e1 := Edge(1, 2, 2), Edge(0, 3, 1);
    assert [e2, e1][..1] == [e2];
    assert [] + [e2] == [e2];
    assert AsWrittenLoop([e2, e1], 2, []) == AsWrittenLoop([e2], 2, []);
    assert AsWrittenLoop([e2], 2, []) == AsWrittenLoop([], 2, [e2]);
  }

  /** On TwoEdges, make_set(2) leaves 3 and 2 to be inserted below 0, so 0-3
      is taken for a cycle and skipped although 0 and 3 are not yet joined. */
  lemma MakeSetTooSmall()
    ensures var sorted := TwoEdgesSorted;
      Square(TwoEdges) && NonIncreasing(sorted) && multiset(sorted) == multiset(UpperEdges(TwoEdges, 4)) &&
      AsWrittenLoop(sorted, |sorted|, []) == Stopped([Edge(1, 2, 2)])
  {
    TwoEdgesSortedEdges();
    TwoEdgesSortedOrder();
    TwoEdgesRun();
  }

  /** One edge 0-1: the loop stops at once, at m - 1 = 0 edges, instead of
      taking the single edge of the spanning tree. */
  lemma StopTestTooEarly()
    ensures var adj := [[0, 5], [5, 0]];
      Square(adj) && UpperEdges(adj, 2) == [Edge(0, 1, 5)] &&
      AsWrittenLoop([Edge(0, 1, 5)], 1, []) == Stopped([])
  {
    var adj := [[0, 5], [5, 0]];
    assert RowEdges(adj, 0, 2) == [Edge(0, 1, 5)];
    assert RowEdges(adj, 1, 2) == [];
  }

  /** Two vertices and no edge: m - 1 = -1 is never reached and the loop
      pops the empty list. */
  lemma PopsEmptyList()
    ensures var adj := [[0, 0], [0, 0]];
      Square(adj) && UpperEdges(adj, 2) == [] && AsWrittenLoop([], 0, []) == PoppedEmpty
  {
    var adj := [[0, 0], [0, 0]];
    assert RowEdges(adj, 0, 2) == [];
    assert RowEdges(adj, 1, 2) == [];
  }
}
