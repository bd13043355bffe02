/**
 * depth_first and breadth_first over the hash draft of the container. Each
 * expanded vertex pours its neighbours into a priority queue and drains it
 * onto the stack or the queue, so the order of the search does not depend on
 * the hash order of the neighbour maps.
 */
module EasyAlgorithms {
  import opened Sums
  import opened AdjSpec
  import opened AdjGraph
  import Paths

  predicate Descending(s: seq<int>)
  {
    forall i, j :: 0 <= i < j < |s| ==> s[i] > s[j]
  }

  predicate Ascending(s: seq<int>)
  {
    forall i, j :: 0 <= i < j < |s| ==> s[i] < s[j]
  }

  // ---------------------------------------------------------------------------
  // The priority queues

  /** Where a largest entry sits: the top of std::priority_queue<vertex>. */
  function MaxAt(pq: seq<int>): (k: nat)
    requires pq != []
    ensures k < |pq| && forall j :: 0 <= j < |pq| ==> pq[j] <= pq[k]
  {
    if |pq| == 1 then 0
    else
      var k := MaxAt(pq[1..]);
      if pq[0] >= pq[k + 1] then 0 else k + 1
  }

  /** Where a smallest entry sits: the top of a priority queue ordered by
      std::greater<vertex>. */
  function MinAt(pq: seq<int>): (k: nat)
    requires pq != []
    ensures k < |pq| && forall j :: 0 <= j < |pq| ==> pq[k] <= pq[j]
  {
    if |pq| == 1 then 0
    else
      var k := MinAt(pq[1..]);
      if pq[0] <= pq[k + 1] then 0 else k + 1
  }

  /** The neighbours of a row, in iteration order: what the loop over
      cneighbours pushes into the priority queue. */
  method NeighbourKeys(row: Row) returns (pq: seq<int>)
    requires KeysDistinct(row)
    ensures Distinct(pq) && forall x :: x in pq <==> Has(row, x)
  {
    pq := [];
    var i := 0;
    while i < |row|
      invariant 0 <= i <= |row|
      invariant pq == Keys(row)[..i]
    {
      pq := pq + [row[i].to];
      i := i + 1;
    }
    assert pq == Keys(row);
    KeysDistinctKeys(row);
    forall x ensures x in pq <==> Has(row, x) {
      HasKeys(row, x);
    }
  }

  /** depth_first's priority queue, filled with the neighbours of a row and
      drained: the neighbours from the largest down. */
  method DrainDescending(row: Row) returns (out: seq<int>)
    requires KeysDistinct(row)
    ensures Descending(out)
    ensures forall x :: x in out <==> Has(row, x)
  {
    var pq := NeighbourKeys(row);
    out := [];
    while pq != []
      invariant Distinct(pq) && Descending(out)
      invariant forall x :: x in out || x in pq <==> Has(row, x)
      invariant forall a, b :: a in out && b in pq ==> a > b
      decreases |pq|
    {
      var k := MaxAt(pq);
      var top := pq[k];
      RemoveAtMembers(pq, k);
      forall i | 0 <= i < |out| ensures out[i] > top {
        assert out[i] in out && top in pq;
      }
      out := out + [top];
      pq := RemoveAt(pq, k);
    }
  }

  /** breadth_first's priority queue, filled with the neighbours of a row and
      drained: the neighbours from the smallest up. */
  method DrainAscending(row: Row) returns (out: seq<int>)
    requires KeysDistinct(row)
    ensures Ascending(out)
    ensures forall x :: x in out <==> Has(row, x)
  {
    var pq := NeighbourKeys(row);
    out := [];
    while pq != []
      invariant Distinct(pq) && Ascending(out)
      invariant forall x :: x in out || x in pq <==> Has(row, x)
      invariant forall a, b :: a in out && b in pq ==> a < b
      decreases |pq|
    {
      var k := MinAt(pq);
      var top := pq[k];
      RemoveAtMembers(pq, k);
      forall i | 0 <= i < |out| ensures out[i] < top {
        assert out[i] in out && top in pq;
      }
      out := out + [top];
      pq := RemoveAt(pq, k);
    }
  }

  // ---------------------------------------------------------------------------
  // What the searches promise

  /** What both searches return from a present start: it begins at start,
      repeats nothing, holds exactly the vertices reachable from start, and
      its second vertex, present exactly when start has a neighbour other than
      itself, is the least such neighbour. */
  ghost predicate IsTraversal(adj: Adj, start: int, order: seq<int>)
    requires start in adj
  {
    |order| >= 1 && order[0] == start && Distinct(order) &&
    (forall x :: x in order <==> Paths.Reachable(NbrGraph(adj), start, x)) &&
    (|order| == 1 <==> forall y :: Has(adj[start], y) ==> y == start) &&
    (|order| > 1 ==>
      order[1] != start && Has(adj[start], order[1]) &&
      forall y :: Has(adj[start], y) && y != start ==> order[1] <= y)
  }

  /** The loop invariant shared by both searches: seen lists the expanded
      vertices, pending the stack or the queue. */
  ghost predicate SearchInv(g: Paths.Graph, s: int, seen: seq<int>, pending: seq<int>)
  {
    s in g &&
    (forall k :: 0 <= k < |pending| ==> pending[k] in g) &&
    (forall k :: 0 <= k < |seen| ==> seen[k] in g) &&
    Distinct(seen) &&
    (forall x :: x in seen ==> Paths.Reachable(g, s, x)) &&
    (forall x :: x in pending ==> Paths.Reachable(g, s, x)) &&
    (forall a, b :: a in seen && a in g && b in g[a] ==> b in seen || b in pending) &&
    (seen == [] ==> pending == [s]) &&
    (seen != [] ==> seen[0] == s)
  }

  lemma SearchStart(g: Paths.Graph, s: int)
    requires s in g
    ensures SearchInv(g, s, [], [s])
  {
  }

  /** Taking off a vertex that was already expanded. */
  lemma SearchSkip(g: Paths.Graph, s: int, seen: seq<int>, pending: seq<int>, x: int, rest: seq<int>)
    requires SearchInv(g, s, seen, pending)
    requires forall y :: y in pending <==> y == x || y in rest
    requires forall k :: 0 <= k < |rest| ==> rest[k] in pending
    requires x in seen
    ensures SearchInv(g, s, seen, rest)
  {
  }

  /** Expanding a vertex not yet seen and adding all its neighbours. */
  lemma SearchExpand(g: Paths.Graph, s: int, seen: seq<int>, pending: seq<int>, x: int, rest: seq<int>, pushed: seq<int>)
    requires SearchInv(g, s, seen, pending) && Paths.WellFormed(g)
    requires forall y :: y in pending <==> y == x || y in rest
    requires forall k :: 0 <= k < |rest| ==> rest[k] in pending
    requires x in pending && x !in seen
    requires forall y :: y in pushed <==> y in g[x]
    ensures SearchInv(g, s, seen + [x], rest + pushed)
  {
    forall y | y in pushed ensures Paths.Reachable(g, s, y) {
      Paths.ReachStep(g, s, x, y);
    }
    var i :| 0 <= i < |pending| && pending[i] == x;
    assert x in g;
    forall k | 0 <= k < |pushed| ensures pushed[k] in g {
      var y := pushed[k];
      assert y in pushed;
    }
  }

  /** With nothing pending, the expanded vertices are exactly those reachable
      from s. */
  lemma SearchDone(g: Paths.Graph, s: int, seen: seq<int>)
    requires SearchInv(g, s, seen, []) && seen != []
    ensures forall x :: x in seen <==> Paths.Reachable(g, s, x)
  {
    var S := Elems(seen);
    assert Paths.Closed(g, S);
    forall x | Paths.Reachable(g, s, x) ensures x in seen {
      Paths.ReachInClosed(g, s, S, x);
    }
  }

  /** The second vertex expanded, if any, is the least neighbour of s other
      than s. */
  ghost predicate SecondLeast(g: Paths.Graph, s: int, seen: seq<int>)
  {
    s in g &&
    (|seen| > 1 ==> seen[1] != s && seen[1] in g[s] && forall y :: y in g[s] && y != s ==> seen[1] <= y)
  }

  /** From the loop invariant with nothing pending to the traversal's promise. */
  lemma TraversalDone(adj: Adj, vs: seq<int>, s: int, seen: seq<int>)
    requires Shaped(vs, adj) && Mirrored(adj) && s in adj
    requires SearchInv(NbrGraph(adj), s, seen, []) && SecondLeast(NbrGraph(adj), s, seen)
    ensures IsTraversal(adj, s, seen)
  {
    var g := NbrGraph(adj);
    SearchDone(g, s, seen);
    if |seen| == 1 {
      forall y | Has(adj[s], y) ensures y == s {
        Paths.ReachStep(g, s, s, y);
      }
    }
  }

  // ---------------------------------------------------------------------------
  // depth_first

  /** The depth-first loop invariant. first is what expanding s pushed; while
      s is the only vertex expanded, the stack holds a prefix of it and what
      was popped off the end was s itself again. */
  ghost predicate DepthInv(g: Paths.Graph, s: int, seen: seq<int>, stack: seq<int>, first: seq<int>)
  {
    SearchInv(g, s, seen, stack) && SecondLeast(g, s, seen) &&
    (seen != [] ==> Descending(first) && forall y :: y in first <==> y in g[s]) &&
    (|seen| == 1 ==>
      |stack| <= |first| && stack == first[..|stack|] &&
      forall j :: |stack| <= j < |first| ==> first[j] == s)
  }

  /** Popping an expanded vertex off the stack. */
  lemma DepthSkip(g: Paths.Graph, s: int, seen: seq<int>, stack: seq<int>, first: seq<int>)
    requires DepthInv(g, s, seen, stack, first) && stack != [] && stack[|stack| - 1] in seen
    ensures DepthInv(g, s, seen, stack[..|stack| - 1], first)
  {
    var x, rest := stack[|stack| - 1], stack[..|stack| - 1];
    assert stack == rest + [x];
    SearchSkip(g, s, seen, stack, x, rest);
  }

  /** Popping a new vertex off the stack, expanding it and pushing its
      neighbours from the largest down. */
  lemma DepthExpand(g: Paths.Graph, s: int, seen: seq<int>, stack: seq<int>, first: seq<int>, pushed: seq<int>)
    requires DepthInv(g, s, seen, stack, first) && Paths.WellFormed(g)
    requires stack != [] && stack[|stack| - 1] !in seen
    requires Descending(pushed) && forall y :: y in pushed <==> y in g[stack[|stack| - 1]]
    ensures var x, rest := stack[|stack| - 1], stack[..|stack| - 1];
      DepthInv(g, s, seen + [x], rest + pushed, if seen == [] then pushed else first)
  {
    var x, rest := stack[|stack| - 1], stack[..|stack| - 1];
    assert stack == rest + [x];
    SearchExpand(g, s, seen, stack, x, rest, pushed);
    if |seen| == 1 {
      assert x == first[|stack| - 1] && x != s;
      forall y | y in g[s] && y != s ensures x <= y {
        var j :| 0 <= j < |first| && first[j] == y;
      }
    }
  }

  /** The search loop of depth_first. */
  method DepthFirst(g: WeightedGraph, start: int) returns (order: seq<int>)
    requires g.Valid() && start in g.vertices
    ensures IsTraversal(g.adj, start, order)
  {
    var vs, adj := g.vertices, g.adj;
    ghost var G := NbrGraph(adj);
    NbrGraphUndirected(vs, adj);
    var visited: set<int> := {};
    var unprocessed := [start];
    ghost var first: seq<int> := [];
    order := [];
    SearchStart(G, start);
    while unprocessed != []
      invariant forall x :: x in visited <==> x in order
      invariant DepthInv(G, start, order, unprocessed, first)
      decreases |vs| - |order|, |unprocessed|
    {
      var u := unprocessed[|unprocessed| - 1];
      ghost var stack, seen := unprocessed, order;
      unprocessed := unprocessed[..|unprocessed| - 1];
      if u !in visited {
        visited := visited + {u};
        order := order + [u];
        var pushed := DrainDescending(adj[u]);
        DepthExpand(G, start, seen, stack, first, pushed);
        unprocessed := unprocessed + pushed;
        if seen == [] {
          first := pushed;
        }
        Within(vs, adj, order);
      } else {
        DepthSkip(G, start, seen, stack, first);
      }
    }
    TraversalDone(adj, vs, start, order);
  }

  /** The vertices expanded so far are at most all of them. */
  lemma Within(vs: seq<int>, adj: Adj, seen: seq<int>)
    requires Shaped(vs, adj) && Distinct(seen)
    requires forall k :: 0 <= k < |seen| ==> seen[k] in NbrGraph(adj)
    ensures |seen| <= |vs|
  {
    forall k | 0 <= k < |seen| ensures seen[k] in vs {
      var y := seen[k];
      assert y in adj;
    }
    DistinctWithin(seen, vs);
  }

  // ---------------------------------------------------------------------------
  // breadth_first

  /** The breadth-first loop invariant. first is what expanding s enqueued;
      while s is the only vertex expanded, the queue holds a suffix of it and
      what was dequeued from the front was s itself again. */
  ghost predicate BreadthInv(g: Paths.Graph, s: int, seen: seq<int>, queue: seq<int>, first: seq<int>)
  {
    SearchInv(g, s, seen, queue) && SecondLeast(g, s, seen) &&
    (seen != [] ==> Ascending(first) && forall y :: y in first <==> y in g[s]) &&
    (|seen| == 1 ==>
      |queue| <= |first| && queue == first[|first| - |queue|..] &&
      forall j :: 0 <= j < |first| - |queue| ==> first[j] == s)
  }

  /** Dequeuing an expanded vertex. */
  lemma BreadthSkip(g: Paths.Graph, s: int, seen: seq<int>, queue: seq<int>, first: seq<int>)
    requires BreadthInv(g, s, seen, queue, first) && queue != [] && queue[0] in seen
    ensures BreadthInv(g, s, seen, queue[1..], first)
  {
    var x, rest := queue[0], queue[1..];
    assert queue == [x] + rest;
    SearchSkip(g, s, seen, queue, x, rest);
    if |seen| == 1 {
      var d := |first| - |queue|;
      assert rest == first[d + 1..];
      assert first[d] == x;
    }
  }

  /** Dequeuing a new vertex, expanding it and enqueuing its neighbours from
      the smallest up. */
  lemma BreadthExpand(g: Paths.Graph, s: int, seen: seq<int>, queue: seq<int>, first: seq<int>, pushed: seq<int>)
    requires BreadthInv(g, s, seen, queue, first) && Paths.WellFormed(g)
    requires queue != [] && queue[0] !in seen
    requires Ascending(pushed) && forall y :: y in pushed <==> y in g[queue[0]]
    ensures BreadthInv(g, s, seen + [queue[0]], queue[1..] + pushed, if seen == [] then pushed else first)
  {
    var x, rest := queue[0], queue[1..];
    assert queue == [x] + rest;
    SearchExpand(g, s, seen, queue, x, rest, pushed);
    if |seen| == 1 {
      assert x == first[|first| - |queue|] && x != s;
      forall y | y in g[s] && y != s ensures x <= y {
        var j :| 0 <= j < |first| && first[j] == y;
      }
    }
  }

  /** The search loop of breadth_first. */
  method BreadthFirst(g: WeightedGraph, start: int) returns (order: seq<int>)
    requires g.Valid() && start in g.vertices
    ensures IsTraversal(g.adj, start, order)
  {
    var vs, adj := g.vertices, g.adj;
    ghost var G := NbrGraph(adj);
    NbrGraphUndirected(vs, adj);
    var visited: set<int> := {};
    var unprocessed := [start];
    ghost var first: seq<int> := [];
    order := [];
    SearchStart(G, start);
    while unprocessed != []
      invariant forall x :: x in visited <==> x in order
      invariant BreadthInv(G, start, order, unprocessed, first)
      decreases |vs| - |order|, |unprocessed|
    {
      var u := unprocessed[0];
      ghost var queue, seen := unprocessed, order;
      unprocessed := unprocessed[1..];
      if u !in visited {
        visited := visited + {u};
        order := order + [u];
        var pushed := DrainAscending(adj[u]);
        BreadthExpand(G, start, seen, queue, first, pushed);
        unprocessed := unprocessed + pushed;
        if seen == [] {
          first := pushed;
        }
        Within(vs, adj, order);
      } else {
        BreadthSkip(G, start, seen, queue, first);
      }
    }
    TraversalDone(adj, vs, start, order);
  }
}
