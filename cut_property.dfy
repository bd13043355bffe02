/**
 * Why the two greedy spanning-tree builders of the dense draft (Prim's mst
 * and Kruskal) end with the least total weight.
 *
 * A competitor is any symmetric sub-matrix of the graph that joins every pair
 * the graph joins; on a connected graph these are the connected spanning
 * subgraphs, and among them every spanning tree. Both builders keep the
 * invariant "every competitor can be traded for one at most as heavy that
 * contains the edges chosen so far" (Extendable). A chosen edge is always a
 * lightest edge leaving some set S of vertices that the chosen edges neither
 * leave nor leave disconnected (the cut property); Exchange shows that
 * adding it keeps the invariant. At the end the chosen edges lie inside a
 * competitor at most as heavy as any given one, so they weigh no more.
 *
 * Weights are compared through Total, the sum of all cells, which counts each
 * edge of a symmetric matrix twice.
 */
module CutProperty {
  import opened Sums
  import opened MatrixSpec
  import Paths

  /** A symmetric matrix of non-negative weights. */
  ghost predicate WeightMatrix(adj: seq<seq<int>>)
  {
    Square(adj) && Symmetric(adj) &&
    forall a, b :: 0 <= a < |adj| && 0 <= b < |adj| ==> adj[a][b] >= 0
  }

  /** T is made of edges of adj with their weights and is symmetric. */
  ghost predicate Sub(adj: seq<seq<int>>, T: seq<seq<int>>)
    requires Square(adj)
  {
    Square(T) && |T| == |adj| && Symmetric(T) &&
    forall a, b :: 0 <= a < |adj| && 0 <= b < |adj| ==> T[a][b] == 0 || T[a][b] == adj[a][b]
  }

  /** T joins every pair that adj joins. */
  ghost predicate Joins(adj: seq<seq<int>>, T: seq<seq<int>>)
    requires Square(adj)
  {
    forall a, b :: 0 <= a < |adj| && 0 <= b < |adj| && Paths.Reachable(IndexGraph(adj), a, b) ==>
      Paths.Reachable(IndexGraph(T), a, b)
  }

  /** T is a connected spanning sub-matrix of adj: made of its edges and
      joining every pair it joins. */
  ghost predicate Spans(adj: seq<seq<int>>, T: seq<seq<int>>)
    requires Square(adj)
  {
    Sub(adj, T) && Joins(adj, T)
  }

  /** F has no negative cell, and every edge of F is an edge of T with the
      same weight. */
  ghost predicate Inside(F: seq<seq<int>>, T: seq<seq<int>>)
  {
    Square(F) && Square(T) && |F| == |T| &&
    forall a, b :: 0 <= a < |F| && 0 <= b < |F| ==> F[a][b] >= 0 && (F[a][b] > 0 ==> T[a][b] == F[a][b])
  }

  /** T2 is a competitor containing F and at most as heavy as T. */
  ghost predicate Improves(adj: seq<seq<int>>, F: seq<seq<int>>, T: seq<seq<int>>, T2: seq<seq<int>>)
    requires Square(adj)
  {
    Spans(adj, T2) && Inside(F, T2) && Total(T2) <= Total(T)
  }

  /** T is a competitor: Spans under a name of its own, so that the
      quantifier of Extendable does not fire again on the competitor its
      witness names. */
  ghost predicate Competitor(adj: seq<seq<int>>, T: seq<seq<int>>)
    requires Square(adj)
  {
    Spans(adj, T)
  }

  /** Every competitor can be traded for one containing F that is at most as
      heavy: F lies inside some lightest competitor. */
  ghost predicate Extendable(adj: seq<seq<int>>, F: seq<seq<int>>)
    requires Square(adj)
  {
    forall T :: Competitor(adj, T) ==> exists T2 :: Improves(adj, F, T, T2)
  }

  /** The edge u-v leaves S, and no edge leaving S is lighter. */
  ghost predicate LightestLeaving(adj: seq<seq<int>>, S: set<int>, u: int, v: int)
    requires Square(adj)
  {
    0 <= u < |adj| && 0 <= v < |adj| && u in S && v !in S && adj[u][v] > 0 &&
    forall a, b :: 0 <= a < |adj| && 0 <= b < |adj| && a in S && b !in S && adj[a][b] > 0 ==>
      adj[u][v] <= adj[a][b]
  }

  /** No edge of F leaves S, and F joins u to every vertex of S. */
  ghost predicate Respects(F: seq<seq<int>>, S: set<int>, u: int)
  {
    Square(F) &&
    (forall a, b :: 0 <= a < |F| && 0 <= b < |F| && F[a][b] > 0 ==> (a in S <==> b in S)) &&
    (forall z :: 0 <= z < |F| && z in S ==> Paths.Reachable(IndexGraph(F), u, z))
  }

  /** Every connected sub-matrix made of edges of adj, in particular every
      spanning tree of a connected adj, is a competitor. */
  lemma ConnectedSpans(adj: seq<seq<int>>, T: seq<seq<int>>)
    requires Square(adj) && Sub(adj, T) && Paths.Connected(IndexGraph(T))
    ensures Spans(adj, T)
  {
  }

  // ---------------------------------------------------------------------------
  // Sums of cell-wise smaller matrices

  lemma {:induction false} SumLe(s: seq<int>, t: seq<int>)
    requires |s| == |t| && forall i :: 0 <= i < |s| ==> s[i] <= t[i]
    ensures Sum(s) <= Sum(t)
  {
    if s != [] {
      SumLe(s[1..], t[1..]);
    }
  }

  /** A matrix no cell of which exceeds the same cell of another has no
      larger total. */
  lemma TotalLe(a: seq<seq<int>>, b: seq<seq<int>>)
    requires Square(a) && Square(b) && |a| == |b|
    requires forall i, j :: 0 <= i < |a| && 0 <= j < |a| ==> a[i][j] <= b[i][j]
    ensures Total(a) <= Total(b)
  {
    forall i | 0 <= i < |a| ensures Sum(a[i]) <= Sum(b[i]) {
      SumLe(a[i], b[i]);
    }
    SumLe(RowSums(a), RowSums(b));
  }

  // ---------------------------------------------------------------------------
  // The invariant at the start and at the end

  /** Nothing chosen yet: every competitor contains the empty matrix. */
  lemma ExtendableStart(adj: seq<seq<int>>, Z: seq<seq<int>>)
    requires Square(adj) && Square(Z) && |Z| == |adj|
    requires forall a, b :: 0 <= a < |Z| && 0 <= b < |Z| ==> Z[a][b] == 0
    ensures Extendable(adj, Z)
  {
    forall T | Competitor(adj, T) ensures exists T2 :: Improves(adj, Z, T, T2) {
      assert Improves(adj, Z, T, T);
    }
  }

  /** Chosen edges that lie inside a lightest competitor weigh no more than
      any competitor. */
  lemma ExtendableMinimal(adj: seq<seq<int>>, F: seq<seq<int>>)
    requires WeightMatrix(adj) && Extendable(adj, F)
    ensures forall T :: Spans(adj, T) ==> Total(F) <= Total(T)
  {
    forall T | Spans(adj, T) ensures Total(F) <= Total(T) {
      assert Competitor(adj, T);
      var T2 :| Improves(adj, F, T, T2);
      TotalLe(F, T2);
    }
  }

  // ---------------------------------------------------------------------------
  // The exchange step

  /** Adding a lightest edge leaving a set S that F respects keeps F inside a
      lightest competitor. */
  lemma ExtendableGrow(adj: seq<seq<int>>, F: seq<seq<int>>, S: set<int>, u: int, v: int)
    requires WeightMatrix(adj) && Extendable(adj, F) && |F| == |adj|
    requires LightestLeaving(adj, S, u, v) && Respects(F, S, u)
    ensures Extendable(adj, SetPair(F, u, v, adj[u][v]))
  {
    var F' := SetPair(F, u, v, adj[u][v]);
    forall T | Competitor(adj, T) ensures exists T3 :: Improves(adj, F', T, T3) {
      var T2 :| Improves(adj, F, T, T2);
      var T3 := Exchange(adj, F, T2, S, u, v);
      assert Improves(adj, F', T, T3);
    }
  }

  /** The matrix with the pair i-j set to x, cell by cell. */
  lemma SetPairAt(m: seq<seq<int>>, i: nat, j: nat, x: int)
    requires Square(m) && i < |m| && j < |m| && i != j
    ensures Square(SetPair(m, i, j, x))
    ensures forall a, b :: 0 <= a < |m| && 0 <= b < |m| ==>
      SetPair(m, i, j, x)[a][b] == if (a == i && b == j) || (a == j && b == i) then x else m[a][b]
  {
  }

  /** T with every cell at a vertex of S cleared. */
  ghost function Outside(T: seq<seq<int>>, S: set<int>): (r: seq<seq<int>>)
    requires Square(T)
    ensures Square(r) && |r| == |T|
    ensures forall a, b :: 0 <= a < |T| && 0 <= b < |T| ==> r[a][b] == if a in S || b in S then 0 else T[a][b]
  {
    seq(|T|, a requires 0 <= a < |T| => seq(|T|, b requires 0 <= b < |T| => if a in S || b in S then 0 else T[a][b]))
  }

  /** A competitor joins the two ends of every edge of the graph. */
  lemma JoinsEdge(adj: seq<seq<int>>, T: seq<seq<int>>, a: int, b: int)
    requires Square(adj) && Joins(adj, T) && 0 <= a < |adj| && 0 <= b < |adj| && adj[a][b] > 0
    ensures Paths.Reachable(IndexGraph(T), a, b)
  {
    var G := IndexGraph(adj);
    Paths.ReachRefl(G, a);
    Paths.ReachStep(G, a, a, b);
  }

  /** Clearing the cells at S keeps the edges of T between vertices outside S. */
  lemma OutsideEdges(T: seq<seq<int>>, S: set<int>)
    requires Square(T)
    ensures var g, o := IndexGraph(T), IndexGraph(Outside(T, S));
      Paths.WellFormed(o) &&
      forall a, b :: a in g && b in g[a] && a !in S && b !in S ==> a in o && b in o[a]
  {
  }

  /** A symmetric T that joins v outside S to u in S has an edge x-y leaving
      S, with y reached from v without touching S. */
  lemma Crossing(T: seq<seq<int>>, S: set<int>, u: int, v: int) returns (x: int, y: int)
    requires Square(T) && Symmetric(T) && 0 <= u < |T| && 0 <= v < |T| && u in S && v !in S
    requires Paths.Reachable(IndexGraph(T), v, u)
    ensures 0 <= x < |T| && 0 <= y < |T| && x in S && y !in S && T[x][y] > 0
    ensures Paths.Reachable(IndexGraph(Outside(T, S)), v, y)
  {
    var g, o := IndexGraph(T), IndexGraph(Outside(T, S));
    OutsideEdges(T, S);
    var c, d := Paths.LeaveSet(g, o, S, v, u);
    assert 0 <= c < |T| && 0 <= d < |T| && T[c][d] > 0;
    x, y := d, c;
  }

  /** The competitor T with its edge x-y replaced by u-v. */
  ghost function Swap(T: seq<seq<int>>, x: nat, y: nat, u: nat, v: nat, w: int): seq<seq<int>>
    requires Square(T) && x < |T| && y < |T| && u < |T| && v < |T|
  {
    SetPair(SetPair(T, x, y, 0), u, v, w)
  }

  lemma SwapAt(T: seq<seq<int>>, x: nat, y: nat, u: nat, v: nat, w: int)
    requires Square(T) && x < |T| && y < |T| && u < |T| && v < |T| && x != y && u != v
    ensures var r := Swap(T, x, y, u, v, w);
      Square(r) && |r| == |T| &&
      forall a, b :: 0 <= a < |T| && 0 <= b < |T| ==>
        r[a][b] == if (a == u && b == v) || (a == v && b == u) then w
                   else if (a == x && b == y) || (a == y && b == x) then 0
                   else T[a][b]
  {
    SetPairAt(T, x, y, 0);
    SetPairAt(SetPair(T, x, y, 0), u, v, w);
  }

  /** The exchange argument: a competitor T containing F, with a lightest edge
      u-v leaving S missing, gives up its edge x-y leaving S for u-v. The
      result still joins what T joins (x reaches y around the new edge:
      through F to u, across to v, and outside S to y), contains F and u-v,
      and is no heavier, since x-y leaves S and so weighs at least u-v. */
  lemma Exchange(adj: seq<seq<int>>, F: seq<seq<int>>, T: seq<seq<int>>, S: set<int>, u: int, v: int)
    returns (T2: seq<seq<int>>)
    requires WeightMatrix(adj) && Spans(adj, T) && Inside(F, T) && |F| == |adj|
    requires LightestLeaving(adj, S, u, v) && Respects(F, S, u)
    ensures Spans(adj, T2) && Inside(SetPair(F, u, v, adj[u][v]), T2) && Total(T2) <= Total(T)
  {
    var w := adj[u][v];
    SetPairAt(F, u, v, w);
    if T[u][v] > 0 {
      T2 := T;
    } else {
      JoinsEdge(adj, T, v, u);
      var x, y := Crossing(T, S, u, v);
      SwapAt(T, x, y, u, v, w);
      T2 := Swap(T, x, y, u, v, w);
      SwapTotal(adj, T, x, y, u, v);
      SwapSpans(adj, F, T, S, u, v, x, y);
    }
  }

  /** The swap is no heavier. */
  lemma SwapTotal(adj: seq<seq<int>>, T: seq<seq<int>>, x: int, y: int, u: int, v: int)
    requires WeightMatrix(adj) && Spans(adj, T)
    requires 0 <= x < |adj| && 0 <= y < |adj| && 0 <= u < |adj| && 0 <= v < |adj| && x != y && u != v
    requires T[u][v] == 0 && T[x][y] > 0 && adj[u][v] <= adj[x][y]
    ensures Total(Swap(T, x, y, u, v, adj[u][v])) <= Total(T)
  {
    var R := SetPair(T, x, y, 0);
    TotalSetPair(T, x, y, 0);
    SetPairAt(T, x, y, 0);
    assert Symmetric(R);
    assert R[u][v] == 0;
    TotalSetPair(R, u, v, adj[u][v]);
  }

  /** The swap is made of edges of adj and contains F and u-v. */
  lemma SwapSub(adj: seq<seq<int>>, F: seq<seq<int>>, T: seq<seq<int>>, S: set<int>, u: int, v: int, x: int, y: int)
    requires WeightMatrix(adj) && Sub(adj, T) && Inside(F, T) && |F| == |adj|
    requires LightestLeaving(adj, S, u, v) && Respects(F, S, u)
    requires 0 <= x < |adj| && 0 <= y < |adj| && x in S && y !in S
    ensures var T2 := Swap(T, x, y, u, v, adj[u][v]);
      Sub(adj, T2) && Inside(SetPair(F, u, v, adj[u][v]), T2)
  {
    SwapCells(adj, T, x, y, u, v);
    SwapInside(F, T, S, u, v, x, y, adj[u][v]);
  }

  /** The swap is made of edges of adj. */
  lemma SwapCells(adj: seq<seq<int>>, T: seq<seq<int>>, x: int, y: int, u: int, v: int)
    requires WeightMatrix(adj) && Sub(adj, T)
    requires 0 <= x < |adj| && 0 <= y < |adj| && 0 <= u < |adj| && 0 <= v < |adj| && x != y && u != v
    ensures Sub(adj, Swap(T, x, y, u, v, adj[u][v]))
  {
    SwapAt(T, x, y, u, v, adj[u][v]);
  }

  /** The swap contains F with u-v added, since no edge of F leaves S. */
  lemma SwapInside(F: seq<seq<int>>, T: seq<seq<int>>, S: set<int>, u: int, v: int, x: int, y: int, w: int)
    requires Square(T) && Inside(F, T) && Respects(F, S, u) && w >= 0
    requires 0 <= x < |T| && 0 <= y < |T| && 0 <= u < |T| && 0 <= v < |T| && u != v
    requires x in S && y !in S
    ensures Inside(SetPair(F, u, v, w), Swap(T, x, y, u, v, w))
  {
    SwapAt(T, x, y, u, v, w);
    SetPairAt(F, u, v, w);
  }

  /** The swap of a symmetric matrix is symmetric and holds u-v. */
  lemma SwapShape(T: seq<seq<int>>, x: int, y: int, u: int, v: int, w: int)
    requires Square(T) && Symmetric(T)
    requires 0 <= x < |T| && 0 <= y < |T| && 0 <= u < |T| && 0 <= v < |T| && x != y && u != v
    ensures var r := Swap(T, x, y, u, v, w);
      Square(r) && |r| == |T| && Symmetric(r) && r[u][v] == w
  {
    SwapAt(T, x, y, u, v, w);
  }

  /** The swap keeps every edge of T but x-y. */
  lemma SwapEdges(T: seq<seq<int>>, x: int, y: int, u: int, v: int, w: int)
    requires Square(T) && 0 <= x < |T| && 0 <= y < |T| && 0 <= u < |T| && 0 <= v < |T| && x != y && u != v && w > 0
    ensures var g, h := IndexGraph(T), IndexGraph(Swap(T, x, y, u, v, w));
      forall c, d :: c in g && d in g[c] && !(c == x && d == y) && !(c == y && d == x) ==> c in h && d in h[c]
  {
    SwapAt(T, x, y, u, v, w);
  }

  /** The swap joins what T joins, since x still reaches y around the new edge. */
  lemma SwapJoinsAll(adj: seq<seq<int>>, F: seq<seq<int>>, T: seq<seq<int>>, S: set<int>, u: int, v: int, x: int, y: int)
    requires Square(adj) && Square(T) && |T| == |adj| && Symmetric(T) && Joins(adj, T) && Inside(F, T)
    requires LightestLeaving(adj, S, u, v) && Respects(F, S, u) && T[u][v] == 0
    requires 0 <= x < |adj| && 0 <= y < |adj| && x in S && y !in S && T[x][y] > 0
    requires Paths.Reachable(IndexGraph(Outside(T, S)), v, y)
    ensures Joins(adj, Swap(T, x, y, u, v, adj[u][v]))
  {
    var w := adj[u][v];
    var T2 := Swap(T, x, y, u, v, w);
    var g, h := IndexGraph(T), IndexGraph(T2);
    SwapJoins(adj, F, T, S, u, v, x, y);
    SwapShape(T, x, y, u, v, w);
    IndexGraphUndirected(T2);
    SwapEdges(T, x, y, u, v, w);
    Paths.DetourAll(g, h, x, y);
    JoinsTransfer(adj, T, T2);
  }

  /** A matrix joining what a competitor joins is itself joining. */
  lemma JoinsTransfer(adj: seq<seq<int>>, T: seq<seq<int>>, T2: seq<seq<int>>)
    requires Square(adj) && |T2| == |adj| && Joins(adj, T)
    requires forall a, b :: a in IndexGraph(T2) && Paths.Reachable(IndexGraph(T), a, b) ==> Paths.Reachable(IndexGraph(T2), a, b)
    ensures Joins(adj, T2)
  {
  }

  /** The swap is a competitor containing F and u-v. */
  lemma SwapSpans(adj: seq<seq<int>>, F: seq<seq<int>>, T: seq<seq<int>>, S: set<int>, u: int, v: int, x: int, y: int)
    requires WeightMatrix(adj) && Spans(adj, T) && Inside(F, T) && |F| == |adj|
    requires LightestLeaving(adj, S, u, v) && Respects(F, S, u) && T[u][v] == 0
    requires 0 <= x < |adj| && 0 <= y < |adj| && x in S && y !in S && T[x][y] > 0
    requires Paths.Reachable(IndexGraph(Outside(T, S)), v, y)
    ensures var T2 := Swap(T, x, y, u, v, adj[u][v]);
      Spans(adj, T2) && Inside(SetPair(F, u, v, adj[u][v]), T2)
  {
    SwapSub(adj, F, T, S, u, v, x, y);
    SwapJoinsAll(adj, F, T, S, u, v, x, y);
  }

  /** The swap keeps the edges of F, none of which is x-y. */
  lemma SwapKeepsInside(F: seq<seq<int>>, T: seq<seq<int>>, S: set<int>, u: int, v: int, x: int, y: int, w: int)
    requires Square(T) && Inside(F, T) && Respects(F, S, u)
    requires 0 <= x < |T| && 0 <= y < |T| && 0 <= u < |T| && 0 <= v < |T| && x != y && u != v && w > 0
    requires x in S && y !in S
    ensures var f, h := IndexGraph(F), IndexGraph(Swap(T, x, y, u, v, w));
      forall c, d :: c in f && d in f[c] ==> c in h && d in h[c]
  {
    SwapAt(T, x, y, u, v, w);
  }

  /** The swap keeps the edges of T between vertices outside S. */
  lemma SwapKeepsOutside(T: seq<seq<int>>, S: set<int>, u: int, v: int, x: int, y: int, w: int)
    requires Square(T) && 0 <= x < |T| && 0 <= y < |T| && 0 <= u < |T| && 0 <= v < |T| && x != y && u != v && w > 0
    requires x in S
    ensures var o, h := IndexGraph(Outside(T, S)), IndexGraph(Swap(T, x, y, u, v, w));
      forall c, d :: c in o && d in o[c] ==> c in h && d in h[c]
  {
    SwapAt(T, x, y, u, v, w);
    var o, h := IndexGraph(Outside(T, S)), IndexGraph(Swap(T, x, y, u, v, w));
    forall c, d | c in o && d in o[c] ensures c in h && d in h[c] {
      assert 0 <= c < |T| && 0 <= d < |T| && c !in S && d !in S && T[c][d] > 0;
    }
  }

  /** In the swap, x still reaches y: through F to u, across the new edge to
      v, and outside S to y. */
  lemma SwapJoins(adj: seq<seq<int>>, F: seq<seq<int>>, T: seq<seq<int>>, S: set<int>, u: int, v: int, x: int, y: int)
    requires Square(adj) && Square(T) && |T| == |adj| && Symmetric(T) && Inside(F, T)
    requires LightestLeaving(adj, S, u, v) && Respects(F, S, u) && T[u][v] == 0
    requires 0 <= x < |adj| && 0 <= y < |adj| && x in S && y !in S && T[x][y] > 0
    requires Paths.Reachable(IndexGraph(Outside(T, S)), v, y)
    ensures Square(Swap(T, x, y, u, v, adj[u][v])) && Symmetric(Swap(T, x, y, u, v, adj[u][v]))
    ensures Paths.Reachable(IndexGraph(Swap(T, x, y, u, v, adj[u][v])), x, y)
  {
    var w := adj[u][v];
    var T2 := Swap(T, x, y, u, v, w);
    SwapShape(T, x, y, u, v, w);
    IndexGraphUndirected(T2);
    SwapKeepsInside(F, T, S, u, v, x, y, w);
    SwapKeepsOutside(T, S, u, v, x, y, w);
    Paths.Around(IndexGraph(F), IndexGraph(Outside(T, S)), IndexGraph(T2), x, u, v, y);
  }
}
