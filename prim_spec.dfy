/**
 * Value-level reasoning behind the dense draft's mst (Prim's algorithm).
 *
 * The search keeps, for every index, a key (the lightest known edge into the
 * tree, INT_MAX for none), a parent (the tree end of that edge) and a flag
 * saying whether the index has joined the tree. A ghost rank records when
 * each index joined: a parent always joined before its child, which is what
 * makes the parent edges a tree.
 *
 * The parent edges of the indices already in the tree are a lightest
 * choice: at each round the new edge is a lightest one leaving the tree, so
 * by the cut property the chosen edges stay inside some lightest competitor
 * (CutProperty.Extendable), and the finished tree weighs no more than any
 * connected spanning sub-matrix of the graph.
 */
module PrimSpec {
  import opened Sums
  import opened MatrixSpec
  import Paths
  import CutProperty

  /** Every weight is below INT_MAX, so every edge can lower a key. */
  ghost predicate Bounded(adj: seq<seq<int>>)
    requires Square(adj)
  {
    forall i, j :: 0 <= i < |adj| && 0 <= j < |adj| ==> adj[i][j] < INT_MAX
  }

  /** i may be chosen by get_min_key: outside the tree with a finite key. */
  predicate Candidate(key: seq<int>, sel: seq<bool>, i: int)
  {
    0 <= i < |key| && i < |sel| && !sel[i] && key[i] < INT_MAX
  }

  /** The invariant of mst's main loop; order lists the indices that joined. */
  ghost predicate PrimInv(adj: seq<seq<int>>, key: seq<int>, parent: seq<int>, sel: seq<bool>,
                          rank: seq<nat>, order: seq<int>)
  {
    var n := |adj|;
    WellShapedIdx(adj) && n >= 1 &&
    |key| == n && |parent| == n && |sel| == n && |rank| == n &&
    Distinct(order) && (forall k :: 0 <= k < |order| ==> 0 <= order[k] < n) &&
    (forall v :: 0 <= v < n ==> (sel[v] <==> v in order)) &&
    (order == [] ==> key[0] == 0 && forall v :: 1 <= v < n ==> key[v] == INT_MAX) &&
    (order != [] ==> order[0] == 0) &&
    parent[0] == -1 && rank[0] == 0 &&
    (forall v :: 0 <= v < n && sel[v] ==> rank[v] < |order|) &&
    // an index in the tree hangs off one that joined earlier
    (forall v :: 1 <= v < n && sel[v] ==>
      0 <= parent[v] < n && sel[parent[v]] && rank[parent[v]] < rank[v] && adj[v][parent[v]] > 0) &&
    // an index outside the tree with a finite key is joined to the tree by an edge of that weight
    (forall v :: 1 <= v < n && !sel[v] && key[v] < INT_MAX ==>
      0 <= parent[v] < n && sel[parent[v]] && adj[v][parent[v]] == key[v] && key[v] > 0) &&
    // every edge leaving the tree bounds the key of its far end
    (forall a, b :: 0 <= a < n && 0 <= b < n && sel[a] && !sel[b] && adj[a][b] > 0 ==> key[b] <= adj[a][b])
  }

  /** The matrix facts the search relies on. */
  ghost predicate WellShapedIdx(adj: seq<seq<int>>)
  {
    Square(adj) && Symmetric(adj) && ZeroDiagonal(adj) &&
    forall i, j :: 0 <= i < |adj| && 0 <= j < |adj| ==> adj[i][j] >= 0
  }

  /** The vectors as mst sets them up: key 0 for index 0 and INT_MAX for the
      rest, parent -1 for index 0, nothing in the tree. */
  lemma PrimStart(adj: seq<seq<int>>, key: seq<int>, parent: seq<int>, sel: seq<bool>, rank: seq<nat>)
    requires WellShapedIdx(adj) && |adj| >= 1
    requires |key| == |parent| == |sel| == |rank| == |adj|
    requires key[0] == 0 && parent[0] == -1 && rank[0] == 0
    requires forall v :: 1 <= v < |adj| ==> key[v] == INT_MAX
    requires forall v :: 0 <= v < |adj| ==> !sel[v]
    ensures PrimInv(adj, key, parent, sel, rank, [])
  {
  }

  /** The relaxation loop of mst after i joined: every index outside the tree
      reached from i by a lighter edge takes i as its parent. */
  ghost predicate Relaxed(adj: seq<seq<int>>, i: int, sel: seq<bool>, key: seq<int>, parent: seq<int>,
                          key': seq<int>, parent': seq<int>)
    requires Square(adj) && 0 <= i < |adj| && |sel| == |key| == |parent| == |adj|
  {
    |key'| == |parent'| == |adj| &&
    forall j :: 0 <= j < |adj| ==>
      if adj[i][j] != 0 && !sel[j] && adj[i][j] < key[j] then key'[j] == adj[i][j] && parent'[j] == i
      else key'[j] == key[j] && parent'[j] == parent[j]
  }

  /** One round of the main loop keeps the invariant. */
  lemma PrimStep(adj: seq<seq<int>>, key: seq<int>, parent: seq<int>, sel: seq<bool>,
                 rank: seq<nat>, order: seq<int>, i: int, key': seq<int>, parent': seq<int>)
    requires PrimInv(adj, key, parent, sel, rank, order)
    requires Candidate(key, sel, i)
    requires Relaxed(adj, i, sel[i := true], key, parent, key', parent')
    ensures PrimInv(adj, key', parent', sel[i := true], rank[i := |order|], order + [i])
  {
    var n := |adj|;
    if order == [] {
      assert i == 0;
    }
    var sel', rank', order' := sel[i := true], rank[i := |order|], order + [i];
    assert forall v :: 0 <= v < n ==> (sel'[v] <==> v in order');
    forall a, b | 0 <= a < n && 0 <= b < n && sel'[a] && !sel'[b] && adj[a][b] > 0
      ensures key'[b] <= adj[a][b]
    {
      if a != i {
        assert sel[a] && !sel[b] && key[b] <= adj[a][b];
      }
    }
  }

  /** An index below n that a short duplicate-free sequence misses. */
  lemma {:induction false} Missing(order: seq<int>, n: nat) returns (v: int)
    requires Distinct(order) && (forall k :: 0 <= k < |order| ==> 0 <= order[k] < n) && |order| < n
    ensures 0 <= v < n && v !in order
  {
    if n - 1 !in order {
      v := n - 1;
    } else {
      var p :| 0 <= p < |order| && order[p] == n - 1;
      var rest := RemoveAt(order, p);
      assert forall k :: 0 <= k < |rest| ==> rest[k] in order && rest[k] != n - 1;
      v := Missing(rest, n - 1);
      assert forall k :: 0 <= k < |order| && k != p ==> order[k] in rest;
    }
  }

  /** A sequence of n - 1 distinct indices below n misses exactly one. */
  lemma OnlyMissing(order: seq<int>, n: nat, u: int, b: int)
    requires Distinct(order) && (forall k :: 0 <= k < |order| ==> 0 <= order[k] < n) && |order| + 1 == n
    requires 0 <= u < n && 0 <= b < n && u !in order && b !in order
    ensures u == b
  {
    DistinctCard(order);
    var rest := Below(n) - {u} - {b};
    assert Elems(order) <= rest;
    SubsetCard(Elems(order), rest);
    assert |Below(n) - {u}| == n - 1;
  }

  /** In a connected graph, some index outside a partial tree has a finite key. */
  lemma CandidateExists(adj: seq<seq<int>>, key: seq<int>, parent: seq<int>, sel: seq<bool>,
                        rank: seq<nat>, order: seq<int>)
    requires PrimInv(adj, key, parent, sel, rank, order)
    requires Paths.Connected(IndexGraph(adj)) && Bounded(adj) && |order| < |adj|
    ensures exists i :: Candidate(key, sel, i)
  {
    if order == [] {
      assert Candidate(key, sel, 0);
    } else {
      var n := |adj|;
      var u := Missing(order, n);
      var g := IndexGraph(adj);
      var T := Elems(order);
      assert Paths.Reachable(g, 0, u);
      assert !Paths.Closed(g, T);
      var a, b :| a in T && a in g && b in g[a] && b !in T;
      CrossingCandidate(adj, key, parent, sel, rank, order, a, b);
    }
  }

  /** The far end of an edge leaving the tree is a candidate. */
  lemma CrossingCandidate(adj: seq<seq<int>>, key: seq<int>, parent: seq<int>, sel: seq<bool>,
                          rank: seq<nat>, order: seq<int>, a: int, b: int)
    requires PrimInv(adj, key, parent, sel, rank, order) && Bounded(adj)
    requires a in order && 0 <= b < |adj| && b !in order
    requires 0 <= a < |adj| && adj[a][b] > 0
    ensures Candidate(key, sel, b)
  {
  }

  /** The shape mst's parent vector has at the end: every index but the root
      hangs off one of smaller rank by an edge of the graph. */
  ghost predicate TreeShape(adj: seq<seq<int>>, parent: seq<int>, rank: seq<nat>)
  {
    var n := |adj|;
    Square(adj) && n >= 1 && |parent| == n && |rank| == n &&
    parent[0] == -1 && rank[0] == 0 &&
    forall v :: 1 <= v < n ==> 0 <= parent[v] < n && rank[parent[v]] < rank[v] && adj[v][parent[v]] > 0
  }

  /** When the main loop stops, the one index left out of the tree still has a
      parent, so the parents form a tree over all indices. */
  lemma PrimDone(adj: seq<seq<int>>, key: seq<int>, parent: seq<int>, sel: seq<bool>,
                 rank: seq<nat>, order: seq<int>) returns (rank': seq<nat>)
    requires PrimInv(adj, key, parent, sel, rank, order)
    requires Paths.Connected(IndexGraph(adj)) && Bounded(adj) && |order| + 1 == |adj|
    ensures TreeShape(adj, parent, rank')
  {
    var n := |adj|;
    if n == 1 {
      rank' := rank;
    } else {
      var u := PrimLast(adj, key, parent, sel, rank, order);
      rank' := rank[u := n - 1];
      assert u != 0;
    }
  }

  // ---------------------------------------------------------------------------
  // Building the tree graph

  /** The weight between a and b once the parent edges of 1, ..., i - 1 are in. */
  function TreeWeight(adj: seq<seq<int>>, parent: seq<int>, i: nat, a: int, b: int): int
    requires Square(adj) && |parent| == |adj| && 0 <= a < |adj| && 0 <= b < |adj|
  {
    if 1 <= b < i && parent[b] == a then adj[b][a]
    else if 1 <= a < i && parent[a] == b then adj[a][b]
    else 0
  }

  ghost predicate TreeBuilt(m: seq<seq<int>>, adj: seq<seq<int>>, parent: seq<int>, i: nat)
    requires Square(adj) && |parent| == |adj|
  {
    Square(m) && |m| == |adj| &&
    forall a, b :: 0 <= a < |adj| && 0 <= b < |adj| ==> m[a][b] == TreeWeight(adj, parent, i, a, b)
  }

  /** Adding the parent edge of i is a fresh edge of positive weight between two
      different indices, and brings the tree one index further. */
  lemma TreeAddStep(adj: seq<seq<int>>, parent: seq<int>, rank: seq<nat>, m: seq<seq<int>>, i: nat)
    requires TreeShape(adj, parent, rank) && Symmetric(adj)
    requires TreeBuilt(m, adj, parent, i) && 1 <= i < |adj|
    ensures var p := parent[i];
      0 <= p < |adj| && p != i && m[p][i] == 0 && adj[i][p] > 0 &&
      TreeBuilt(SetPair(m, p, i, adj[i][p]), adj, parent, i + 1)
  {
    var p := parent[i];
    var r := SetPair(m, p, i, adj[i][p]);
    forall a, b | 0 <= a < |adj| && 0 <= b < |adj| ensures r[a][b] == TreeWeight(adj, parent, i + 1, a, b) {
      if a == p && b == i {
      } else if a == i && b == p {
      }
    }
  }

  /** Before any edge is added the matrix is all zeros. */
  lemma TreeBuiltStart(adj: seq<seq<int>>, parent: seq<int>, m: seq<seq<int>>)
    requires Square(adj) && |parent| == |adj| && Square(m) && |m| == |adj|
    requires forall a, b :: 0 <= a < |m| && 0 <= b < |m| ==> m[a][b] == 0
    ensures TreeBuilt(m, adj, parent, 1)
  {
  }

  /** The finished tree joins every index to the root, and every edge it holds
      is an edge of the graph with the same weight. */
  lemma TreeConnected(adj: seq<seq<int>>, parent: seq<int>, rank: seq<nat>, m: seq<seq<int>>)
    requires TreeShape(adj, parent, rank) && Symmetric(adj)
    requires TreeBuilt(m, adj, parent, |adj|) && Symmetric(m)
    ensures Paths.Connected(IndexGraph(m))
    ensures forall a, b :: 0 <= a < |m| && 0 <= b < |m| && m[a][b] > 0 ==> m[a][b] == adj[a][b]
  {
    var g := IndexGraph(m);
    forall v | 0 <= v < |adj| ensures Paths.Reachable(g, 0, v) {
      ReachRoot(adj, parent, rank, m, v);
    }
    IndexGraphUndirected(m);
    Paths.ConnectedFrom(g, 0);
  }

  lemma {:induction false} ReachRoot(adj: seq<seq<int>>, parent: seq<int>, rank: seq<nat>, m: seq<seq<int>>, v: int)
    requires TreeShape(adj, parent, rank)
    requires TreeBuilt(m, adj, parent, |adj|) && 0 <= v < |adj|
    ensures Paths.Reachable(IndexGraph(m), 0, v)
    decreases rank[v]
  {
    if v == 0 {
      Paths.ReachRefl(IndexGraph(m), 0);
    } else {
      var p := parent[v];
      ReachRoot(adj, parent, rank, m, p);
      assert m[p][v] > 0;
      Paths.ReachStep(IndexGraph(m), 0, p, v);
    }
  }

  // ---------------------------------------------------------------------------
  // The chosen edges are a lightest choice

  /** The indices in the tree. */
  ghost function InTree(sel: seq<bool>): set<int>
  {
    set z | 0 <= z < |sel| && sel[z]
  }

  /** The weight between a and b among the parent edges of the indices in the
      tree. */
  function ChosenWeight(adj: seq<seq<int>>, parent: seq<int>, sel: seq<bool>, a: int, b: int): int
    requires Square(adj) && |parent| == |sel| == |adj| && 0 <= a < |adj| && 0 <= b < |adj|
  {
    if 1 <= b && sel[b] && parent[b] == a then adj[b][a]
    else if 1 <= a && sel[a] && parent[a] == b then adj[a][b]
    else 0
  }

  /** m holds exactly the parent edges of the indices in the tree. */
  ghost predicate Chosen(m: seq<seq<int>>, adj: seq<seq<int>>, parent: seq<int>, sel: seq<bool>)
    requires Square(adj) && |parent| == |sel| == |adj|
  {
    Square(m) && |m| == |adj| &&
    forall a, b :: 0 <= a < |adj| && 0 <= b < |adj| ==> m[a][b] == ChosenWeight(adj, parent, sel, a, b)
  }

  /** With nothing in the tree nothing is chosen. */
  lemma ChosenStart(adj: seq<seq<int>>, parent: seq<int>, sel: seq<bool>, m: seq<seq<int>>)
    requires Square(adj) && |parent| == |sel| == |adj| && Square(m) && |m| == |adj|
    requires forall v :: 0 <= v < |adj| ==> !sel[v]
    requires forall a, b :: 0 <= a < |m| && 0 <= b < |m| ==> m[a][b] == 0
    ensures Chosen(m, adj, parent, sel) && CutProperty.Extendable(adj, m)
  {
    CutProperty.ExtendableStart(adj, m);
  }

  /** The relaxation loop only moves the parents of indices outside the tree,
      so the chosen edges stay the same. */
  lemma ChosenRelaxed(adj: seq<seq<int>>, i: int, sel: seq<bool>, key: seq<int>, parent: seq<int>,
                      key': seq<int>, parent': seq<int>, m: seq<seq<int>>)
    requires Square(adj) && 0 <= i < |adj| && |sel| == |key| == |parent| == |adj|
    requires Relaxed(adj, i, sel, key, parent, key', parent') && Chosen(m, adj, parent, sel)
    ensures Chosen(m, adj, parent', sel)
  {
  }

  /** Every index in the tree is joined to the root by chosen edges. */
  lemma {:induction false} ChosenReach(adj: seq<seq<int>>, key: seq<int>, parent: seq<int>, sel: seq<bool>,
                                       rank: seq<nat>, order: seq<int>, m: seq<seq<int>>, z: int)
    requires PrimInv(adj, key, parent, sel, rank, order) && Chosen(m, adj, parent, sel)
    requires 0 <= z < |adj| && sel[z]
    ensures Paths.Reachable(IndexGraph(m), 0, z)
    decreases rank[z]
  {
    if z == 0 {
      Paths.ReachRefl(IndexGraph(m), 0);
    } else {
      var p := parent[z];
      ChosenReach(adj, key, parent, sel, rank, order, m, p);
      assert m[p][z] == adj[z][p] > 0;
      Paths.ReachStep(IndexGraph(m), 0, p, z);
    }
  }

  /** The chosen edges stay inside the tree and join all of it to p. */
  lemma ChosenRespects(adj: seq<seq<int>>, key: seq<int>, parent: seq<int>, sel: seq<bool>,
                       rank: seq<nat>, order: seq<int>, m: seq<seq<int>>, p: int)
    requires PrimInv(adj, key, parent, sel, rank, order) && Chosen(m, adj, parent, sel)
    requires 0 <= p < |adj| && sel[p] && sel[0]
    ensures CutProperty.Respects(m, InTree(sel), p)
  {
    var n, S, g := |adj|, InTree(sel), IndexGraph(m);
    assert Symmetric(m);
    IndexGraphUndirected(m);
    ChosenReach(adj, key, parent, sel, rank, order, m, p);
    Paths.ReachSym(g, 0, p);
    forall z | 0 <= z < n && z in S ensures Paths.Reachable(g, p, z) {
      ChosenReach(adj, key, parent, sel, rank, order, m, z);
      Paths.ReachTrans(g, p, 0, z);
    }
  }

  /** The edge get_min_key brings in is a lightest edge leaving the tree. */
  lemma PrimLightest(adj: seq<seq<int>>, key: seq<int>, parent: seq<int>, sel: seq<bool>,
                     rank: seq<nat>, order: seq<int>, i: int)
    requires PrimInv(adj, key, parent, sel, rank, order) && Candidate(key, sel, i) && i != 0
    requires forall j :: 0 <= j < |adj| && !sel[j] ==> key[i] <= key[j]
    ensures CutProperty.LightestLeaving(adj, InTree(sel), parent[i], i)
  {
  }

  /** One round of mst keeps the chosen edges a lightest choice: the new
      matrix adds the parent edge of i, a lightest edge leaving the tree. */
  lemma PrimGrow(adj: seq<seq<int>>, key: seq<int>, parent: seq<int>, sel: seq<bool>,
                 rank: seq<nat>, order: seq<int>, i: int, m: seq<seq<int>>)
    returns (m': seq<seq<int>>)
    requires PrimInv(adj, key, parent, sel, rank, order) && Candidate(key, sel, i)
    requires forall j :: 0 <= j < |adj| && !sel[j] ==> key[i] <= key[j]
    requires Chosen(m, adj, parent, sel) && CutProperty.Extendable(adj, m)
    ensures Chosen(m', adj, parent, sel[i := true]) && CutProperty.Extendable(adj, m')
  {
    if order == [] {
      assert i == 0;
      m' := m;
    } else {
      var u, S := parent[i], InTree(sel);
      assert sel[0] && i != 0;
      PrimLightest(adj, key, parent, sel, rank, order, i);
      ChosenRespects(adj, key, parent, sel, rank, order, m, u);
      CutProperty.ExtendableGrow(adj, m, S, u, i);
      m' := SetPair(m, u, i, adj[u][i]);
      CutProperty.SetPairAt(m, u, i, adj[u][i]);
      ChosenAdd(adj, key, parent, sel, rank, order, i, m, m');
    }
  }

  /** Adding the parent edge of i to the chosen edges. */
  lemma ChosenAdd(adj: seq<seq<int>>, key: seq<int>, parent: seq<int>, sel: seq<bool>,
                  rank: seq<nat>, order: seq<int>, i: int, m: seq<seq<int>>, m': seq<seq<int>>)
    requires PrimInv(adj, key, parent, sel, rank, order) && Candidate(key, sel, i) && i != 0
    requires Chosen(m, adj, parent, sel) && Square(m') && |m'| == |adj|
    requires forall a, b :: 0 <= a < |adj| && 0 <= b < |adj| ==>
      m'[a][b] == if (a == parent[i] && b == i) || (a == i && b == parent[i]) then adj[parent[i]][i] else m[a][b]
    ensures Chosen(m', adj, parent, sel[i := true])
  {
  }

  /** When mst's main loop stops, the matrix its tail builds weighs no more
      than any connected spanning sub-matrix of the graph: the one index left
      outside the tree brings in the last lightest edge. */
  lemma PrimMinimal(adj: seq<seq<int>>, key: seq<int>, parent: seq<int>, sel: seq<bool>,
                    rank: seq<nat>, order: seq<int>, m: seq<seq<int>>, tm: seq<seq<int>>)
    requires PrimInv(adj, key, parent, sel, rank, order)
    requires Paths.Connected(IndexGraph(adj)) && Bounded(adj) && |order| + 1 == |adj|
    requires Chosen(m, adj, parent, sel) && CutProperty.Extendable(adj, m)
    requires TreeBuilt(tm, adj, parent, |adj|)
    ensures forall T :: CutProperty.Spans(adj, T) ==> Total(tm) <= Total(T)
  {
    var u := PrimLast(adj, key, parent, sel, rank, order);
    var m' := PrimGrow(adj, key, parent, sel, rank, order, u, m);
    ChosenAll(adj, parent, sel[u := true], m', tm);
    CutProperty.TotalLe(tm, m');
    CutProperty.ExtendableMinimal(adj, m');
  }

  /** When the main loop stops exactly one index u is left outside the tree,
      and it is a candidate. */
  lemma PrimLast(adj: seq<seq<int>>, key: seq<int>, parent: seq<int>, sel: seq<bool>,
                 rank: seq<nat>, order: seq<int>) returns (u: int)
    requires PrimInv(adj, key, parent, sel, rank, order)
    requires Paths.Connected(IndexGraph(adj)) && Bounded(adj) && |order| + 1 == |adj|
    ensures Candidate(key, sel, u) && forall j :: 0 <= j < |adj| && !sel[j] ==> j == u
  {
    var n := |adj|;
    u := Missing(order, n);
    CandidateExists(adj, key, parent, sel, rank, order);
    var b :| Candidate(key, sel, b);
    OnlyMissing(order, n, u, b);
    forall j | 0 <= j < n && !sel[j] ensures j == u {
      OnlyMissing(order, n, u, j);
    }
  }

  /** With every index in the tree, the chosen edges are the parent edges mst's
      tail adds. */
  lemma ChosenAll(adj: seq<seq<int>>, parent: seq<int>, sel: seq<bool>, m: seq<seq<int>>, tm: seq<seq<int>>)
    requires Square(adj) && |parent| == |sel| == |adj| && Chosen(m, adj, parent, sel)
    requires forall v :: 0 <= v < |adj| ==> sel[v]
    requires TreeBuilt(tm, adj, parent, |adj|)
    ensures forall a, b :: 0 <= a < |tm| && 0 <= b < |tm| ==> tm[a][b] == m[a][b]
  {
  }
}
