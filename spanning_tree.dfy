/**
 * The edge records of the dense draft's Kruskal: collecting each undirected
 * edge once from the upper triangle of the matrix, and the selection sort
 * that orders them by non-increasing weight.
 */
module SpanningTree {
  import opened Sums

  datatype Edge = Edge(u: int, v: int, weight: int)

  /** The cell (i, j) as an edge record, or nothing when it holds no edge. */
  function Cell(adj: seq<seq<int>>, i: nat, j: nat): seq<Edge>
    requires Square(adj) && i < |adj| && j < |adj|
  {
    if adj[i][j] > 0 then [Edge(i, j, adj[i][j])] else []
  }

  /** The edges of row i in the columns i, ..., j - 1, in column order. */
  ghost function RowEdges(adj: seq<seq<int>>, i: nat, j: nat): seq<Edge>
    requires Square(adj) && i < |adj| && i <= j <= |adj|
    decreases j - i
  {
    if j == i then [] else RowEdges(adj, i, j - 1) + Cell(adj, i, j - 1)
  }

  /** The upper-triangle edges of the rows 0, ..., i - 1, row by row. */
  ghost function UpperEdges(adj: seq<seq<int>>, i: nat): seq<Edge>
    requires Square(adj) && i <= |adj|
  {
    if i == 0 then [] else UpperEdges(adj, i - 1) + RowEdges(adj, i - 1, |adj|)
  }

  /** An edge record describes the matrix cell it was read from. */
  ghost predicate Upper(adj: seq<seq<int>>, e: Edge)
    requires Square(adj)
  {
    0 <= e.u <= e.v < |adj| && adj[e.u][e.v] > 0 && e.weight == adj[e.u][e.v]
  }

  lemma {:induction false} RowEdgesMembers(adj: seq<seq<int>>, i: nat, j: nat)
    requires Square(adj) && i < |adj| && i <= j <= |adj|
    ensures forall e :: e in RowEdges(adj, i, j) <==> e.u == i && e.v < j && Upper(adj, e)
    decreases j - i
  {
    if j > i {
      RowEdgesMembers(adj, i, j - 1);
    }
  }

  /** Every edge with a positive weight in the upper triangle, and nothing
      else, is collected. */
  lemma {:induction false} UpperEdgesMembers(adj: seq<seq<int>>, i: nat)
    requires Square(adj) && i <= |adj|
    ensures forall e :: e in UpperEdges(adj, i) <==> e.u < i && Upper(adj, e)
  {
    if i > 0 {
      UpperEdgesMembers(adj, i - 1);
      RowEdgesMembers(adj, i - 1, |adj|);
      var prev, row := UpperEdges(adj, i - 1), RowEdges(adj, i - 1, |adj|);
      assert UpperEdges(adj, i) == prev + row;
      forall e: Edge ensures e in prev + row <==> e.u < i && Upper(adj, e) {
        assert e in prev <==> e.u < i - 1 && Upper(adj, e);
        assert e in row <==> e.u == i - 1 && e.v < |adj| && Upper(adj, e);
      }
    }
  }

  /** The inner loop of kruskal's edge collection: row i from column i on. */
  method AppendRow(adj: seq<seq<int>>, i: nat, edges0: seq<Edge>) returns (edges: seq<Edge>)
    requires Square(adj) && i < |adj|
    ensures edges == edges0 + RowEdges(adj, i, |adj|)
  {
    edges := edges0;
    var j := i;
    while j < |adj|
      invariant i <= j <= |adj| && edges == edges0 + RowEdges(adj, i, j)
    {
      assert RowEdges(adj, i, j + 1) == RowEdges(adj, i, j) + Cell(adj, i, j);
      edges := edges + Cell(adj, i, j);
      j := j + 1;
    }
  }

  /** The nested loop of kruskal that gathers the edges with j >= i. */
  method CollectEdges(adj: seq<seq<int>>) returns (edges: seq<Edge>)
    requires Square(adj)
    ensures edges == UpperEdges(adj, |adj|)
  {
    edges := [];
    var i := 0;
    while i < |adj|
      invariant 0 <= i <= |adj| && edges == UpperEdges(adj, i)
    {
      edges := AppendRow(adj, i, edges);
      i := i + 1;
    }
  }

  ghost predicate NonIncreasing(s: seq<Edge>)
  {
    forall a, b :: 0 <= a < b < |s| ==> s[a].weight >= s[b].weight
  }

  /** The first i places hold the i heaviest edges, in order. */
  ghost predicate SortedPrefix(s: seq<Edge>, i: int)
  {
    (forall a, b :: 0 <= a < b < i && b < |s| ==> s[a].weight >= s[b].weight) &&
    (forall a, b :: 0 <= a < i <= b < |s| ==> s[a].weight >= s[b].weight)
  }

  /** The inner loop of sort_edges: the first index of a heaviest edge among
      s[i..]; i itself when that range is empty. */
  method MaxFrom(s: seq<Edge>, i: nat) returns (m: nat)
    ensures i < |s| ==> i <= m < |s|
    ensures i >= |s| ==> m == i
    ensures forall j :: i <= j < |s| ==> s[j].weight <= s[m].weight
    ensures forall j :: i <= j < m ==> s[j].weight < s[m].weight
  {
    m := i;
    var j := i + 1;
    while j < |s|
      invariant i <= m < j && (i < |s| ==> j <= |s|) && (i >= |s| ==> m == i)
      invariant forall k :: i <= k < j && k < |s| ==> s[k].weight <= s[m].weight
      invariant forall k :: i <= k < m && k < |s| ==> s[k].weight < s[m].weight
    {
      if s[j].weight > s[m].weight {
        m := j;
      }
      j := j + 1;
    }
  }

  /** Swapping the i-th and m-th edges after choosing the heaviest of s[i..]
      extends the sorted prefix by one. */
  lemma SwapExtends(s: seq<Edge>, i: nat, m: nat)
    requires i <= m < |s| && SortedPrefix(s, i)
    requires forall j :: i <= j < |s| ==> s[j].weight <= s[m].weight
    ensures SortedPrefix(s[i := s[m]][m := s[i]], i + 1)
    ensures multiset(s[i := s[m]][m := s[i]]) == multiset(s)
  {
  }

  /** One round of sort_edges' outer loop: move a heaviest edge of a[i..]
      to place i. Past the end of the list nothing moves. */
  method SelectRound(a: array<Edge>, i: nat)
    requires SortedPrefix(a[..], i)
    modifies a
    ensures i < a.Length ==> SortedPrefix(a[..], i + 1)
    ensures i >= a.Length ==> a[..] == old(a[..])
    ensures multiset(a[..]) == multiset(old(a[..]))
  {
    var m := MaxFrom(a[..], i);
    ghost var s := a[..];
    if m != i {
      SwapExtends(s, i, m);
      a[i], a[m] := a[m], a[i];
      assert a[..] == s[i := s[m]][m := s[i]];
    } else if i < a.Length {
      SwapExtends(s, i, m);
      assert s[i := s[m]][m := s[i]] == s;
    }
  }

  /** sort_edges: selection sort into non-increasing weight order, with
      edges.size() - 1 rounds. The model ends at once on an empty list. */
  method SortEdges(a: array<Edge>)
    modifies a
    ensures NonIncreasing(a[..]) && multiset(a[..]) == multiset(old(a[..]))
  {
    var bound := if a.Length == 0 then 0 else a.Length - 1;
    var i := 0;
    while i < bound
      invariant 0 <= i <= bound && (a.Length > 0 ==> i <= a.Length - 1)
      invariant SortedPrefix(a[..], i) && multiset(a[..]) == multiset(old(a[..]))
    {
      SelectRound(a, i);
      i := i + 1;
    }
  }
}
