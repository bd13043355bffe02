/**
 * dijkstras and min_distance of the hash draft: tentative distances in a map
 * from vertex to int with INT_MAX standing for "no path yet", a set of
 * settled vertices, |V| rounds of "settle the nearest unsettled vertex, then
 * relax its edges to unsettled neighbours".
 *
 * What is proved: every finite distance is the weight of a walk from the
 * source (a ghost walk is kept for each), and with non-negative weights no
 * walk from the source is lighter than the distance found.
 */
module ShortestPaths {
  import opened Sums
  import opened AdjSpec
  import opened AdjGraph

  /** std::numeric_limits<int>::max(), the "infinite" distance. */
  const INT_MAX: int := 2147483647

  // ---------------------------------------------------------------------------
  // Walks

  /** The weight get_edge_weight reports for u-v, 0 where there is none. */
  function EdgeWeight(adj: Adj, u: int, v: int): int
  {
    if u in adj then Val(Lookup(adj[u], v)) else 0
  }

  /** A non-empty vertex sequence each of whose steps follows an edge. */
  ghost predicate IsWalk(adj: Adj, p: seq<int>)
  {
    |p| >= 1 && forall i :: 0 <= i < |p| - 1 ==> p[i] in adj && Has(adj[p[i]], p[i + 1])
  }

  /** A walk from s to x. */
  ghost predicate WalkFromTo(adj: Adj, s: int, x: int, p: seq<int>)
  {
    IsWalk(adj, p) && p[0] == s && p[|p| - 1] == x
  }

  /** The sum of the weights of a walk's steps. */
  function WalkWeight(adj: Adj, p: seq<int>): int
    decreases |p|
  {
    if |p| <= 1 then 0 else WalkWeight(adj, p[..|p| - 1]) + EdgeWeight(adj, p[|p| - 2], p[|p| - 1])
  }

  ghost predicate NonNegative(adj: Adj)
  {
    forall u, v :: EdgeWeight(adj, u, v) >= 0
  }

  /** Extending a walk by one edge adds that edge's weight. */
  lemma WalkExtend(adj: Adj, p: seq<int>, x: int)
    requires IsWalk(adj, p) && p[|p| - 1] in adj && Has(adj[p[|p| - 1]], x)
    ensures IsWalk(adj, p + [x]) && (p + [x])[0] == p[0]
    ensures WalkWeight(adj, p + [x]) == WalkWeight(adj, p) + EdgeWeight(adj, p[|p| - 1], x)
  {
    assert (p + [x])[..|p|] == p;
  }

  /** A prefix of a walk is a walk, one step shorter it weighs one edge less. */
  lemma WalkPrefix(adj: Adj, p: seq<int>, k: nat)
    requires IsWalk(adj, p) && 2 <= k <= |p|
    ensures IsWalk(adj, p[..k - 1]) && IsWalk(adj, p[..k])
    ensures WalkWeight(adj, p[..k]) == WalkWeight(adj, p[..k - 1]) + EdgeWeight(adj, p[k - 2], p[k - 1])
  {
    assert p[..k][..k - 1] == p[..k - 1];
  }

  /** With non-negative weights no prefix of a walk is heavier than the walk. */
  lemma {:induction false} PrefixLighter(adj: Adj, p: seq<int>, k: nat)
    requires NonNegative(adj) && 1 <= k <= |p|
    ensures WalkWeight(adj, p[..k]) <= WalkWeight(adj, p)
    decreases |p|
  {
    if k < |p| {
      var q := p[..|p| - 1];
      assert q[..k] == p[..k];
      PrefixLighter(adj, q, k);
    } else {
      assert p[..k] == p;
    }
  }

  lemma {:induction false} WeightNonNegative(adj: Adj, p: seq<int>)
    requires NonNegative(adj)
    ensures WalkWeight(adj, p) >= 0
    decreases |p|
  {
    if |p| > 1 {
      WeightNonNegative(adj, p[..|p| - 1]);
    }
  }

  /** The first position of a walk outside S. */
  function FirstOutside(p: seq<int>, S: set<int>): (k: nat)
    requires |p| >= 1 && p[|p| - 1] !in S
    ensures k < |p| && p[k] !in S && forall j :: 0 <= j < k ==> p[j] in S
  {
    if p[0] !in S then 0 else 1 + FirstOutside(p[1..], S)
  }

  // ---------------------------------------------------------------------------
  // min_distance

  /** The unsettled vertex of least tentative distance found by the scan, the
      last one in iteration order when several tie; None where every
      unsettled vertex is above INT_MAX, in particular when all are settled
      (there the source returns an uninitialised vertex). */
  method MinDistance(dist: map<int, int>, spt: set<int>, g: WeightedGraph) returns (r: Option<int>)
    requires g.Valid() && forall k :: 0 <= k < |g.vertices| ==> g.vertices[k] in dist
    ensures r.None? <==> forall k :: 0 <= k < |g.vertices| && g.vertices[k] !in spt ==> dist[g.vertices[k]] > INT_MAX
    ensures r.Some? ==> r.value in g.vertices && r.value !in spt && dist[r.value] <= INT_MAX
    ensures r.Some? ==> forall k :: 0 <= k < |g.vertices| && g.vertices[k] !in spt ==> dist[r.value] <= dist[g.vertices[k]]
    ensures r.Some? ==> forall k :: Find(g.vertices, r.value) < k < |g.vertices| && g.vertices[k] !in spt ==>
      dist[r.value] < dist[g.vertices[k]]
  {
    var vs := g.vertices;
    var min := INT_MAX;
    r := None;
    ghost var at: nat := 0;
    for i := 0 to |vs|
      invariant r.None? ==> min == INT_MAX && forall k :: 0 <= k < i && vs[k] !in spt ==> dist[vs[k]] > INT_MAX
      invariant r.Some? ==> at < i && vs[at] == r.value && r.value !in spt && dist[r.value] == min <= INT_MAX
      invariant r.Some? ==> forall k :: 0 <= k < i && vs[k] !in spt ==> min <= dist[vs[k]]
      invariant r.Some? ==> forall k :: at < k < i && vs[k] !in spt ==> min < dist[vs[k]]
    {
      var v := vs[i];
      if v !in spt && dist[v] <= min {
        min := dist[v];
        r := Some(v);
        at := i;
      }
    }
    if r.Some? {
      FindAt(vs, at);
    }
  }

  /** In a duplicate-free list the entry at k is found at k. */
  lemma FindAt(vs: seq<int>, k: nat)
    requires Distinct(vs) && k < |vs|
    ensures Find(vs, vs[k]) == k
  {
    var j := Find(vs, vs[k]);
    assert vs[j] == vs[k];
  }

  // ---------------------------------------------------------------------------
  // Relaxation

  /** The test of the inner loop of dijkstras for the iterated vertex x:
      unsettled, adjacent to u, u's distance finite, and the path through u
      strictly shorter. */
  ghost predicate Improves(adj: Adj, d: map<int, int>, spt: set<int>, u: int, x: int)
    requires u in d && x in d
  {
    x !in spt && u in adj && Has(adj[u], x) && d[u] != INT_MAX && d[u] + EdgeWeight(adj, u, x) < d[x]
  }

  /** Every finite distance has a walk from src of exactly that weight. */
  ghost predicate Witnessed(adj: Adj, src: int, d: map<int, int>, walks: map<int, seq<int>>)
  {
    forall x :: x in d && d[x] < INT_MAX ==>
      x in walks && WalkFromTo(adj, src, x, walks[x]) && WalkWeight(adj, walks[x]) == d[x]
  }

  /** d' is d relaxed from u at the vertices of done. */
  ghost predicate RelaxedAt(adj: Adj, d: map<int, int>, spt: set<int>, u: int, done: seq<int>, d': map<int, int>)
    requires u in d
  {
    (forall x :: x in d' <==> x in d) &&
    forall x :: x in d ==>
      d'[x] == if x in done && Improves(adj, d, spt, u, x) then d[u] + EdgeWeight(adj, u, x) else d[x]
  }

  /** Relaxing the next vertex x = vs[i]: u and x still have their old
      distances, and the test on them extends the relaxed prefix by x. */
  lemma RelaxStep(adj: Adj, d: map<int, int>, spt: set<int>, u: int, vs: seq<int>, i: nat, d': map<int, int>)
    requires i < |vs| && Distinct(vs) && u in d && vs[i] in d && u in spt
    requires RelaxedAt(adj, d, spt, u, vs[..i], d')
    ensures u in d' && vs[i] in d' && d'[u] == d[u] && d'[vs[i]] == d[vs[i]]
    ensures var x := vs[i]; RelaxedAt(adj, d, spt, u, vs[..i + 1],
      if Improves(adj, d, spt, u, x) then d'[x := d[u] + EdgeWeight(adj, u, x)] else d')
  {
    var x := vs[i];
    assert x !in vs[..i];
    assert vs[..i + 1] == vs[..i] + [x];
    forall y | y in d ensures y in vs[..i + 1] <==> y in vs[..i] || y == x {
    }
  }

  /** Relaxed at every vertex: improved distances are d[u] + w(u, x) and
      none grows. */
  lemma RelaxedAll(adj: Adj, d: map<int, int>, spt: set<int>, u: int, vs: seq<int>, d': map<int, int>)
    requires u in d && RelaxedAt(adj, d, spt, u, vs[..|vs|], d')
    ensures forall x :: x in d' <==> x in d
    ensures forall x :: x in d ==>
      d'[x] == if x in vs && Improves(adj, d, spt, u, x) then d[u] + EdgeWeight(adj, u, x) else d[x]
    ensures forall x :: x in d ==> d'[x] <= d[x]
  {
    assert vs[..|vs|] == vs;
  }

  /** Extending u's walk by the edge to x witnesses x's new distance. */
  lemma WitnessStep(adj: Adj, src: int, d: map<int, int>, walks: map<int, seq<int>>, u: int, x: int)
    requires Witnessed(adj, src, d, walks) && u in d && x in d && d[u] < INT_MAX
    requires u in adj && Has(adj[u], x)
    ensures Witnessed(adj, src, d[x := d[u] + EdgeWeight(adj, u, x)], walks[x := walks[u] + [x]])
  {
    WalkExtend(adj, walks[u], x);
  }

  /** The inner loop of dijkstras after u is settled: each vertex the test
      passes gets d[u] + w(u, x); the others keep their distance, so no
      distance grows and none passes INT_MAX. */
  method Relax(vs: seq<int>, adj: Adj, d: map<int, int>, spt: set<int>, u: int, ghost src: int, ghost walks: map<int, seq<int>>)
    returns (d': map<int, int>, ghost walks': map<int, seq<int>>)
    requires Shaped(vs, adj) && u in spt && u in vs
    requires (forall k :: 0 <= k < |vs| ==> vs[k] in d) && forall x :: x in d ==> d[x] <= INT_MAX
    requires Witnessed(adj, src, d, walks)
    ensures forall x :: x in d' <==> x in d
    ensures forall x :: x in d ==>
      d'[x] == if x in vs && Improves(adj, d, spt, u, x) then d[u] + EdgeWeight(adj, u, x) else d[x]
    ensures forall x :: x in d ==> d'[x] <= d[x]
    ensures Witnessed(adj, src, d', walks')
  {
    d', walks' := d, walks;
    for i := 0 to |vs|
      invariant RelaxedAt(adj, d, spt, u, vs[..i], d')
      invariant Witnessed(adj, src, d', walks')
    {
      var x := vs[i];
      RelaxStep(adj, d, spt, u, vs, i, d');
      if x !in spt && Has(adj[u], x) && d'[u] != INT_MAX && d'[u] + Val(Lookup(adj[u], x)) < d'[x] {
        WitnessStep(adj, src, d', walks', u, x);
        d' := d'[x := d'[u] + Val(Lookup(adj[u], x))];
        walks' := walks'[x := walks'[u] + [x]];
      }
    }
    RelaxedAll(adj, d, spt, u, vs, d');
  }

  // ---------------------------------------------------------------------------
  // Why the distances are shortest (non-negative weights)

  /** No walk from src to a settled vertex is lighter than its distance. */
  ghost predicate SettledOptimal(adj: Adj, src: int, d: map<int, int>, spt: set<int>)
  {
    forall p :: IsWalk(adj, p) && p[0] == src && p[|p| - 1] in spt && p[|p| - 1] in d ==>
      d[p[|p| - 1]] <= WalkWeight(adj, p)
  }

  /** Every edge from a settled to an unsettled vertex has been relaxed. */
  ghost predicate Frontier(adj: Adj, d: map<int, int>, spt: set<int>)
  {
    forall y, z :: y in spt && y in d && z in d && z !in spt && y in adj && Has(adj[y], z) ==>
      d[z] <= d[y] + EdgeWeight(adj, y, z)
  }

  /** A walk from src that leaves the settled set first at p[k], k >= 1,
      weighs at least d[p[k]] up to p[k]. */
  lemma FrontierBound(adj: Adj, src: int, d: map<int, int>, spt: set<int>, p: seq<int>, k: nat)
    requires NonNegative(adj) && SettledOptimal(adj, src, d, spt) && Frontier(adj, d, spt)
    requires IsWalk(adj, p) && p[0] == src && 1 <= k < |p|
    requires p[k] !in spt && p[k - 1] in spt && p[k] in d && p[k - 1] in d
    ensures IsWalk(adj, p[..k + 1]) && d[p[k]] <= WalkWeight(adj, p[..k + 1])
  {
    var y, z := p[k - 1], p[k];
    WalkPrefix(adj, p, k + 1);
    var q := p[..k];
    assert q[|q| - 1] == y && q[0] == src;
    if k == 1 {
      assert IsWalk(adj, q);
    }
    assert d[y] <= WalkWeight(adj, q);
    assert y in adj && Has(adj[y], z);
  }

  /** One walk from src to the vertex u that min_distance picks. */
  lemma SettleWalk(vs: seq<int>, adj: Adj, src: int, d: map<int, int>, spt: set<int>, u: int, p: seq<int>)
    requires Shaped(vs, adj) && Mirrored(adj) && NonNegative(adj)
    requires (forall k :: 0 <= k < |vs| ==> vs[k] in d) && src in d && d[src] == 0
    requires SettledOptimal(adj, src, d, spt) && Frontier(adj, d, spt)
    requires u in vs && u !in spt && forall k :: 0 <= k < |vs| && vs[k] !in spt ==> d[u] <= d[vs[k]]
    requires IsWalk(adj, p) && p[0] == src && p[|p| - 1] == u
    ensures d[u] <= WalkWeight(adj, p)
  {
    var k := FirstOutside(p, spt);
    var z := p[k];
    WeightNonNegative(adj, p);
    if k == 0 {
      if |p| > 1 {
        assert src in adj;
        var j := Find(vs, src);
      }
    } else {
      var y := p[k - 1];
      assert y in adj && Has(adj[y], z);
      MirrorLookup(adj, y, z);
      var j := Find(vs, z);
      FrontierBound(adj, src, d, spt, p, k);
      PrefixLighter(adj, p, k + 1);
    }
  }

  /** The vertex min_distance settles has its shortest distance already. */
  lemma SettleOptimal(vs: seq<int>, adj: Adj, src: int, d: map<int, int>, spt: set<int>, u: int)
    requires Shaped(vs, adj) && Mirrored(adj) && NonNegative(adj)
    requires (forall k :: 0 <= k < |vs| ==> vs[k] in d) && src in d && d[src] == 0
    requires SettledOptimal(adj, src, d, spt) && Frontier(adj, d, spt)
    requires u in vs && u !in spt && forall k :: 0 <= k < |vs| && vs[k] !in spt ==> d[u] <= d[vs[k]]
    ensures SettledOptimal(adj, src, d, spt + {u})
  {
    forall p | IsWalk(adj, p) && p[0] == src && p[|p| - 1] == u ensures d[u] <= WalkWeight(adj, p) {
      SettleWalk(vs, adj, src, d, spt, u, p);
    }
  }

  /** Relaxing u's edges keeps both invariants once u is settled. */
  lemma RelaxKeeps(vs: seq<int>, adj: Adj, src: int, d: map<int, int>, spt: set<int>, u: int, d': map<int, int>)
    requires Shaped(vs, adj) && Mirrored(adj) && NonNegative(adj)
    requires (forall k :: 0 <= k < |vs| ==> vs[k] in d) && spt <= Elems(vs) && u in vs
    requires forall x :: x in d ==> d[x] <= INT_MAX
    requires SettledOptimal(adj, src, d, spt + {u}) && Frontier(adj, d, spt)
    requires forall x :: x in d' <==> x in d
    requires forall x :: x in d ==>
      d'[x] == if x in vs && Improves(adj, d, spt + {u}, u, x) then d[u] + EdgeWeight(adj, u, x) else d[x]
    ensures SettledOptimal(adj, src, d', spt + {u}) && Frontier(adj, d', spt + {u})
  {
    var S := spt + {u};
    forall y, z | y in S && y in d' && z in d' && z !in S && y in adj && Has(adj[y], z)
      ensures d'[z] <= d'[y] + EdgeWeight(adj, y, z)
    {
      assert d'[y] == d[y];
      MirrorLookup(adj, y, z);
      assert z in vs;
    }
  }

  /** Below |vs| settled vertices of vs some vertex is still unsettled. */
  lemma NotAllSettled(vs: seq<int>, spt: set<int>)
    requires Distinct(vs) && spt <= Elems(vs) && |spt| < |vs|
    ensures !(forall k :: 0 <= k < |vs| ==> vs[k] in spt)
  {
    if forall k :: 0 <= k < |vs| ==> vs[k] in spt {
      DistinctCard(vs);
      SubsetCard(Elems(vs), spt);
    }
  }

  /** With |vs| vertices of vs settled, all are. */
  lemma AllSettled(vs: seq<int>, spt: set<int>)
    requires Distinct(vs) && spt <= Elems(vs) && |spt| == |vs|
    ensures forall x :: x in vs ==> x in spt
  {
    DistinctCard(vs);
    forall x | x in vs ensures x in spt {
      SubsetFull(spt, Elems(vs), x);
    }
  }

  /** No walk from src is lighter than the distance found for its end. */
  ghost predicate Optimal(adj: Adj, src: int, d: map<int, int>)
  {
    forall p :: IsWalk(adj, p) && p[0] == src && p[|p| - 1] in d ==> d[p[|p| - 1]] <= WalkWeight(adj, p)
  }

  // ---------------------------------------------------------------------------
  // dijkstras

  /** What holds of dist, walks and spt before each round of dijkstras. */
  ghost predicate RoundInv(vs: seq<int>, adj: Adj, src: int, dist: map<int, int>, walks: map<int, seq<int>>, spt: set<int>)
  {
    (forall x :: x in dist <==> x in vs || x == src) &&
    (forall x :: x in dist ==> dist[x] <= INT_MAX) &&
    src in dist && dist[src] == 0 &&
    spt <= Elems(vs) &&
    Witnessed(adj, src, dist, walks) &&
    (src in vs && src !in spt ==> spt == {} && forall x :: x in vs && x != src ==> dist[x] == INT_MAX) &&
    (NonNegative(adj) ==> SettledOptimal(adj, src, dist, spt) && Frontier(adj, dist, spt))
  }

  /** The first loop of dijkstras: every vertex at INT_MAX. */
  method Unreached(vs: seq<int>) returns (dist: map<int, int>)
    ensures forall x :: x in dist <==> x in vs
    ensures forall x :: x in dist ==> dist[x] == INT_MAX
  {
    dist := map[];
    for k := 0 to |vs|
      invariant forall x :: x in dist <==> x in vs[..k]
      invariant forall x :: x in dist ==> dist[x] == INT_MAX
    {
      assert vs[..k + 1] == vs[..k] + [vs[k]];
      dist := dist[vs[k] := INT_MAX];
    }
    assert vs[..|vs|] == vs;
  }

  /** One round of the main loop: settle the nearest unsettled vertex u and
      relax the edges leaving it. */
  method Settle(g: WeightedGraph, src: int, dist: map<int, int>, ghost walks: map<int, seq<int>>, spt: set<int>)
    returns (dist': map<int, int>, ghost walks': map<int, seq<int>>, spt': set<int>)
    requires g.Valid() && RoundInv(g.vertices, g.adj, src, dist, walks, spt) && |spt| < |g.vertices|
    ensures RoundInv(g.vertices, g.adj, src, dist', walks', spt')
    ensures |spt'| == |spt| + 1 && spt <= spt'
  {
    var vs, adj := g.vertices, g.adj;
    var next := MinDistance(dist, spt, g);
    NotAllSettled(vs, spt);
    var u := next.value;
    if src in vs && src !in spt {
      var j := Find(vs, src);
    }
    if NonNegative(adj) {
      SettleOptimal(vs, adj, src, dist, spt, u);
    }
    spt' := spt + {u};
    dist', walks' := Relax(vs, adj, dist, spt', u, src, walks);
    assert |spt'| == |spt| + 1;
    if NonNegative(adj) {
      RelaxKeeps(vs, adj, src, dist, spt, u, dist');
    }
  }

  /** The distances from src: an empty map for the empty graph; otherwise a
      key for every vertex and for src, 0 at src, never above INT_MAX, a walk
      of exactly that weight behind every finite one, and, with non-negative
      weights, no walk from src lighter than the distance of its end. */
  method Dijkstras(g: WeightedGraph, src: int) returns (dist: map<int, int>, ghost walks: map<int, seq<int>>)
    requires g.Valid()
    ensures g.n == 0 ==> dist == map[]
    ensures g.n > 0 ==> (forall x :: x in dist <==> x in g.vertices || x == src) && src in dist && dist[src] == 0
    ensures forall x :: x in dist ==> dist[x] <= INT_MAX
    ensures Witnessed(g.adj, src, dist, walks)
    ensures NonNegative(g.adj) ==> Optimal(g.adj, src, dist)
  {
    walks := map[];
    if g.NumVertices() == 0 {
      return map[], walks;
    }
    var vs, adj := g.vertices, g.adj;
    dist := Unreached(vs);
    dist := dist[src := 0];
    walks := map[src := [src]];
    var spt: set<int> := {};
    for round := 0 to |vs|
      invariant RoundInv(vs, adj, src, dist, walks, spt) && |spt| == round
    {
      dist, walks, spt := Settle(g, src, dist, walks, spt);
    }
    AllOptimal(vs, adj, src, dist, walks, spt);
  }

  /** Once every vertex is settled the distances are shortest. */
  lemma AllOptimal(vs: seq<int>, adj: Adj, src: int, dist: map<int, int>, walks: map<int, seq<int>>, spt: set<int>)
    requires Distinct(vs) && RoundInv(vs, adj, src, dist, walks, spt) && |spt| == |vs|
    ensures NonNegative(adj) ==> Optimal(adj, src, dist)
  {
    AllSettled(vs, spt);
    if NonNegative(adj) {
      forall p | IsWalk(adj, p) && p[0] == src && p[|p| - 1] in dist ensures dist[p[|p| - 1]] <= WalkWeight(adj, p) {
        WeightNonNegative(adj, p);
      }
    }
  }
}
