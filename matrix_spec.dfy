/**
 * Value-level view of the dense draft of the weighted graph: a sequence of
 * distinct vertices and a square adjacency matrix in which 0 means "no edge".
 * The class in MatrixGraph keeps its state in exactly these two values.
 */
module MatrixSpec {
  import opened Sums
  import Paths

  const INT_MAX: int := 0x7fff_ffff

  /** The position of u in s, or -1 (the dense draft's get_index). */
  function IndexOf(s: seq<int>, u: int): (r: int)
    ensures r == -1 <==> u !in s
    ensures r != -1 ==> 0 <= r < |s| && s[r] == u && forall j :: 0 <= j < r ==> s[j] != u
  {
    if s == [] then -1
    else if s[0] == u then 0
    else
      var k := IndexOf(s[1..], u);
      if k == -1 then -1 else k + 1
  }

  lemma IndexOfDistinct(s: seq<int>, k: nat)
    requires Distinct(s) && k < |s|
    ensures IndexOf(s, s[k]) == k
  {
  }

  /** The shape every state of the dense draft keeps. */
  ghost predicate WellShaped(vs: seq<int>, adj: seq<seq<int>>)
  {
    |adj| == |vs| && Square(adj) && Symmetric(adj) && ZeroDiagonal(adj) && Distinct(vs) &&
    forall i, j :: 0 <= i < |adj| && 0 <= j < |adj| ==> adj[i][j] >= 0
  }

  /** The edge and weight counters agree with the matrix (each edge is stored twice). */
  ghost predicate CountersAgree(adj: seq<seq<int>>, edges: int, weight: int)
  {
    2 * edges == DegreeSum(adj) && 2 * weight == Total(adj)
  }

  /** index_are_valid: both indices were found and they differ. */
  predicate IndicesValid(i: int, j: int)
  {
    i >= 0 && j >= 0 && i != j
  }

  /** The weight stored for the pair (u, v); 0 when either vertex is absent. */
  function EdgeWeight(vs: seq<int>, adj: seq<seq<int>>, u: int, v: int): int
    requires |adj| == |vs| && Square(adj)
  {
    if u in vs && v in vs then adj[IndexOf(vs, u)][IndexOf(vs, v)] else 0
  }

  /** The weight is the same in both directions and absent vertices have none. */
  lemma EdgeWeightSymmetric(vs: seq<int>, adj: seq<seq<int>>, u: int, v: int)
    requires WellShaped(vs, adj)
    ensures EdgeWeight(vs, adj, u, v) == EdgeWeight(vs, adj, v, u)
    ensures EdgeWeight(vs, adj, u, v) >= 0
    ensures u !in vs || v !in vs ==> EdgeWeight(vs, adj, u, v) == 0
    ensures EdgeWeight(vs, adj, u, u) == 0
  {
  }

  // ---------------------------------------------------------------------------
  // Index lists built by the query and traversal loops

  /** The vertices vs[k], k < i, whose entry in row is positive, by increasing k. */
  function Select(vs: seq<int>, row: seq<int>, i: nat): seq<int>
    requires |vs| == |row| && i <= |row|
  {
    if i == 0 then [] else Select(vs, row, i - 1) + (if row[i - 1] > 0 then [vs[i - 1]] else [])
  }

  lemma {:induction false} SelectLength(vs: seq<int>, row: seq<int>, i: nat)
    requires |vs| == |row| && i <= |row|
    ensures |Select(vs, row, i)| == Positives(row[..i])
  {
    if i > 0 {
      SelectLength(vs, row, i - 1);
      assert Ind(row[..i]) == Ind(row[..i - 1]) + [if row[i - 1] > 0 then 1 else 0];
      SumAppend(Ind(row[..i - 1]), if row[i - 1] > 0 then 1 else 0);
    }
  }

  lemma {:induction false} SelectMembers(vs: seq<int>, row: seq<int>, i: nat)
    requires |vs| == |row| && i <= |row| && Distinct(vs)
    ensures Distinct(Select(vs, row, i))
    ensures forall k :: 0 <= k < |vs| ==> (vs[k] in Select(vs, row, i) <==> k < i && row[k] > 0)
  {
    if i > 0 {
      SelectMembers(vs, row, i - 1);
    }
  }

  /** The indices k with lo <= k < |row| and a positive entry, by DECREASING k:
      the order in which the dense depth-first search pushes neighbours. */
  function Desc(row: seq<int>, lo: nat): seq<int>
    requires lo <= |row|
    decreases |row| - lo
  {
    if lo == |row| then [] else Desc(row, lo + 1) + (if row[lo] > 0 then [lo] else [])
  }

  /** The indices k < hi with a positive entry, by INCREASING k: the order in
      which the dense breadth-first search enqueues neighbours. */
  function Asc(row: seq<int>, hi: nat): seq<int>
    requires hi <= |row|
  {
    if hi == 0 then [] else Asc(row, hi - 1) + (if row[hi - 1] > 0 then [hi - 1] else [])
  }

  /** The smallest index with a positive entry, or |row| if there is none. */
  function FirstPositive(row: seq<int>): (k: nat)
    ensures k <= |row|
    ensures k < |row| ==> row[k] > 0
    ensures forall j :: 0 <= j < k ==> row[j] <= 0
  {
    if row == [] then 0
    else if row[0] > 0 then 0
    else 1 + FirstPositive(row[1..])
  }

  lemma {:induction false} DescMembers(row: seq<int>, lo: nat)
    requires lo <= |row|
    ensures forall k :: k in Desc(row, lo) <==> lo <= k < |row| && row[k] > 0
    ensures forall j :: 0 <= j < |Desc(row, lo)| ==> lo <= Desc(row, lo)[j] < |row|
    decreases |row| - lo
  {
    if lo < |row| {
      DescMembers(row, lo + 1);
    }
  }

  /** The last index pushed, the one on top of the stack, is the smallest. */
  lemma {:induction false} DescTop(row: seq<int>, lo: nat)
    requires lo <= |row| && Desc(row, lo) != []
    ensures var top := Desc(row, lo)[|Desc(row, lo)| - 1];
      lo <= top < |row| && row[top] > 0 && forall j :: lo <= j < top ==> row[j] <= 0
    decreases |row| - lo
  {
    if row[lo] <= 0 {
      assert Desc(row, lo) == Desc(row, lo + 1);
      DescTop(row, lo + 1);
    }
  }

  /** The top of the stack after pushing a whole row is its first neighbour. */
  lemma DescTopIsFirst(row: seq<int>)
    requires Desc(row, 0) != []
    ensures FirstPositive(row) < |row| && Desc(row, 0)[|Desc(row, 0)| - 1] == FirstPositive(row)
  {
    DescTop(row, 0);
  }

  lemma {:induction false} AscMembers(row: seq<int>, hi: nat)
    requires hi <= |row|
    ensures forall k :: k in Asc(row, hi) <==> 0 <= k < hi && row[k] > 0
    ensures forall j :: 0 <= j < |Asc(row, hi)| ==> 0 <= Asc(row, hi)[j] < hi
  {
    if hi > 0 {
      AscMembers(row, hi - 1);
    }
  }

  /** The first index enqueued, the one at the front of the queue, is the smallest. */
  lemma {:induction false} AscFront(row: seq<int>, hi: nat)
    requires hi <= |row| && Asc(row, hi) != []
    ensures var first := Asc(row, hi)[0];
      0 <= first < hi && row[first] > 0 && forall j :: 0 <= j < first ==> row[j] <= 0
  {
    var a := Asc(row, hi - 1);
    if a != [] {
      AscFront(row, hi - 1);
      assert Asc(row, hi)[0] == a[0];
    } else {
      AscMembers(row, hi - 1);
      assert forall j :: 0 <= j < hi - 1 ==> row[j] <= 0 by {
        forall j | 0 <= j < hi - 1 ensures row[j] <= 0 {
          assert j !in a;
        }
      }
    }
  }

  /** The front of the queue after enqueueing a whole row is its first neighbour. */
  lemma AscFrontIsFirst(row: seq<int>)
    requires Asc(row, |row|) != []
    ensures FirstPositive(row) < |row| && Asc(row, |row|)[0] == FirstPositive(row)
  {
    AscFront(row, |row|);
  }

  /** The vertices at the given indices. */
  function VertexList(vs: seq<int>, idx: seq<int>): (r: seq<int>)
    requires forall k :: 0 <= k < |idx| ==> 0 <= idx[k] < |vs|
    ensures |r| == |idx| && forall k :: 0 <= k < |idx| ==> r[k] == vs[idx[k]]
  {
    seq(|idx|, k requires 0 <= k < |idx| => vs[idx[k]])
  }

  lemma VertexListAppend(vs: seq<int>, idx: seq<int>, k: int)
    requires forall j :: 0 <= j < |idx| ==> 0 <= idx[j] < |vs|
    requires 0 <= k < |vs|
    ensures VertexList(vs, idx + [k]) == VertexList(vs, idx) + [vs[k]]
  {
  }

  lemma VertexListPrefix(vs: seq<int>, idx: seq<int>, m: nat)
    requires forall j :: 0 <= j < |idx| ==> 0 <= idx[j] < |vs|
    requires m <= |idx|
    ensures VertexList(vs, idx[..m]) == VertexList(vs, idx)[..m]
  {
  }

  lemma VertexListSuffix(vs: seq<int>, idx: seq<int>, m: nat)
    requires forall j :: 0 <= j < |idx| ==> 0 <= idx[j] < |vs|
    requires m <= |idx|
    ensures VertexList(vs, idx[m..]) == VertexList(vs, idx)[m..]
  {
  }

  // ---------------------------------------------------------------------------
  // Reachability over indices

  /** Row i's neighbours are the columns holding a positive weight. */
  ghost function IndexGraph(adj: seq<seq<int>>): (g: Paths.Graph)
    ensures forall i :: i in g <==> 0 <= i < |adj|
    ensures forall i, j :: 0 <= i < |adj| ==> (j in g[i] <==> 0 <= j < |adj[i]| && adj[i][j] > 0)
  {
    map i | 0 <= i < |adj| :: set j | 0 <= j < |adj[i]| && adj[i][j] > 0
  }

  lemma IndexGraphUndirected(adj: seq<seq<int>>)
    requires Square(adj) && Symmetric(adj)
    ensures Paths.WellFormed(IndexGraph(adj)) && Paths.Undirected(IndexGraph(adj))
  {
  }

  /** The loop invariant shared by the dense depth-first and breadth-first
      searches: seen lists the expanded indices, pending the stack or queue. */
  ghost predicate SearchInv(adj: seq<seq<int>>, s: int, seen: seq<int>, pending: seq<int>)
  {
    var n := |adj|;
    Square(adj) && 0 <= s < n &&
    (forall k :: 0 <= k < |pending| ==> 0 <= pending[k] < n) &&
    (forall k :: 0 <= k < |seen| ==> 0 <= seen[k] < n) &&
    Distinct(seen) &&
    (forall k :: k in seen ==> Paths.Reachable(IndexGraph(adj), s, k)) &&
    (forall k :: k in pending ==> Paths.Reachable(IndexGraph(adj), s, k)) &&
    (forall a, b :: a in seen && 0 <= b < n && adj[a][b] > 0 ==> b in seen || b in pending) &&
    (seen == [] ==> pending == [s]) &&
    (seen != [] ==> seen[0] == s)
  }

  lemma SearchStart(adj: seq<seq<int>>, s: int)
    requires Square(adj) && 0 <= s < |adj|
    ensures SearchInv(adj, s, [], [s])
  {
  }

  /** Taking off an index that was already expanded. */
  lemma SearchSkip(adj: seq<seq<int>>, s: int, seen: seq<int>, pending: seq<int>, x: int, rest: seq<int>)
    requires SearchInv(adj, s, seen, pending)
    requires forall k :: k in pending <==> k == x || k in rest
    requires forall k :: 0 <= k < |rest| ==> rest[k] in pending
    requires x in seen
    ensures SearchInv(adj, s, seen, rest)
  {
  }

  /** Expanding an index that was not yet seen and adding all its neighbours. */
  lemma SearchExpand(adj: seq<seq<int>>, s: int, seen: seq<int>, pending: seq<int>, x: int, rest: seq<int>, pushed: seq<int>)
    requires SearchInv(adj, s, seen, pending)
    requires forall k :: k in pending <==> k == x || k in rest
    requires forall k :: 0 <= k < |rest| ==> rest[k] in pending
    requires x in pending && x !in seen
    requires forall k :: k in pushed <==> 0 <= k < |adj| && adj[x][k] > 0
    requires forall k :: 0 <= k < |pushed| ==> 0 <= pushed[k] < |adj|
    ensures SearchInv(adj, s, seen + [x], rest + pushed)
    ensures |seen| + 1 <= |adj|
  {
    var g := IndexGraph(adj);
    forall k | k in pushed ensures Paths.Reachable(g, s, k) {
      Paths.ReachStep(g, s, x, k);
    }
    DistinctBelow(seen + [x], |adj|);
  }

  /** With nothing pending, the expanded indices are exactly those reachable from s. */
  lemma SearchDone(adj: seq<seq<int>>, s: int, seen: seq<int>)
    requires SearchInv(adj, s, seen, [])
    ensures seen != [] ==> forall k :: 0 <= k < |adj| ==> (k in seen <==> Paths.Reachable(IndexGraph(adj), s, k))
  {
    if seen != [] {
      var g := IndexGraph(adj);
      var S := Elems(seen);
      assert Paths.Closed(g, S);
      forall k | 0 <= k < |adj| && Paths.Reachable(g, s, k) ensures k in seen {
        Paths.ReachInClosed(g, s, S, k);
      }
    }
  }

  /** The visited flags of a search that has expanded the indices in seen. */
  function Marks(n: nat, seen: seq<int>): (r: seq<bool>)
    ensures |r| == n && forall i :: 0 <= i < n ==> (r[i] <==> i in seen)
  {
    seq(n, i => i in seen)
  }

  lemma MarksAppend(n: nat, seen: seq<int>, x: int)
    requires 0 <= x < n
    ensures Marks(n, seen + [x]) == Marks(n, seen)[x := true]
  {
  }

  /** The depth-first loop invariant: the search invariant over the stack of
      indices, and while only the start has been expanded the stack holds its
      neighbours exactly as they were pushed. */
  ghost predicate DepthInv(adj: seq<seq<int>>, s: int, seen: seq<int>, stack: seq<int>)
  {
    SearchInv(adj, s, seen, stack) &&
    (|seen| == 1 ==> stack == Desc(adj[s], 0)) &&
    (|seen| > 1 ==> FirstPositive(adj[s]) < |adj| && seen[1] == FirstPositive(adj[s]))
  }

  /** Popping the top x of the stack keeps the invariant: x is expanded and its
      neighbours pushed when x is new, and dropped otherwise. */
  lemma DepthPop(adj: seq<seq<int>>, s: int, seen: seq<int>, stack: seq<int>)
    requires DepthInv(adj, s, seen, stack) && ZeroDiagonal(adj) && stack != []
    ensures var x, rest := stack[|stack| - 1], stack[..|stack| - 1];
      (x !in seen ==> |seen| < |adj| && DepthInv(adj, s, seen + [x], rest + Desc(adj[x], 0))) &&
      (x in seen ==> DepthInv(adj, s, seen, rest))
  {
    var x, rest := stack[|stack| - 1], stack[..|stack| - 1];
    assert stack == rest + [x];
    if |seen| == 1 {
      DescTopIsFirst(adj[s]);
    }
    if x !in seen {
      DescMembers(adj[x], 0);
      SearchExpand(adj, s, seen, stack, x, rest, Desc(adj[x], 0));
    } else {
      SearchSkip(adj, s, seen, stack, x, rest);
    }
  }

  /** The breadth-first loop invariant: the search invariant over the queue of
      indices, and while only the start has been expanded the queue holds its
      neighbours exactly as they were enqueued. */
  ghost predicate BreadthInv(adj: seq<seq<int>>, s: int, seen: seq<int>, queue: seq<int>)
  {
    SearchInv(adj, s, seen, queue) &&
    (|seen| == 1 ==> queue == Asc(adj[s], |adj|)) &&
    (|seen| > 1 ==> FirstPositive(adj[s]) < |adj| && seen[1] == FirstPositive(adj[s]))
  }

  /** The members of a non-empty queue are its front and those behind it. */
  lemma FrontSplit(q: seq<int>)
    requires q != []
    ensures forall k :: k in q <==> k == q[0] || k in q[1..]
    ensures forall k :: 0 <= k < |q[1..]| ==> q[1..][k] in q
  {
    assert q == [q[0]] + q[1..];
  }

  /** Right after the start is expanded, the front of the queue is the
      start's lowest-index neighbour, which is not the start. */
  lemma SecondFront(adj: seq<seq<int>>, s: int, seen: seq<int>, queue: seq<int>)
    requires BreadthInv(adj, s, seen, queue) && ZeroDiagonal(adj) && queue != [] && |seen| == 1
    ensures queue[0] !in seen && FirstPositive(adj[s]) < |adj| && queue[0] == FirstPositive(adj[s])
  {
    AscFrontIsFirst(adj[s]);
    assert adj[s][queue[0]] > 0;
  }

  /** Dequeuing an index not yet expanded: expand it and enqueue its neighbours. */
  lemma BreadthExpandIdx(adj: seq<seq<int>>, s: int, seen: seq<int>, queue: seq<int>)
    requires BreadthInv(adj, s, seen, queue) && ZeroDiagonal(adj) && queue != [] && queue[0] !in seen
    ensures |seen| < |adj| && BreadthInv(adj, s, seen + [queue[0]], queue[1..] + Asc(adj[queue[0]], |adj|))
  {
    var x, rest := queue[0], queue[1..];
    if |seen| == 1 {
      SecondFront(adj, s, seen, queue);
    }
    FrontSplit(queue);
    AscMembers(adj[x], |adj|);
    SearchExpand(adj, s, seen, queue, x, rest, Asc(adj[x], |adj|));
    if seen == [] {
      assert rest == [];
      assert rest + Asc(adj[x], |adj|) == Asc(adj[s], |adj|);
    }
  }

  /** Dequeuing an index already expanded: drop it. */
  lemma BreadthSkipIdx(adj: seq<seq<int>>, s: int, seen: seq<int>, queue: seq<int>)
    requires BreadthInv(adj, s, seen, queue) && ZeroDiagonal(adj) && queue != [] && queue[0] in seen
    ensures BreadthInv(adj, s, seen, queue[1..])
  {
    if |seen| == 1 {
      SecondFront(adj, s, seen, queue);
    }
    FrontSplit(queue);
    SearchSkip(adj, s, seen, queue, queue[0], queue[1..]);
  }

  /** Dequeuing the front x keeps the invariant: x is expanded and its
      neighbours enqueued when x is new, and dropped otherwise. */
  lemma BreadthPop(adj: seq<seq<int>>, s: int, seen: seq<int>, queue: seq<int>)
    requires BreadthInv(adj, s, seen, queue) && ZeroDiagonal(adj) && queue != []
    ensures var x, rest := queue[0], queue[1..];
      (x !in seen ==> |seen| < |adj| && BreadthInv(adj, s, seen + [x], rest + Asc(adj[x], |adj|))) &&
      (x in seen ==> BreadthInv(adj, s, seen, rest))
  {
    if queue[0] !in seen {
      BreadthExpandIdx(adj, s, seen, queue);
    } else {
      BreadthSkipIdx(adj, s, seen, queue);
    }
  }

  /** Looking up the vertex of a pending entry gives back its index. */
  lemma LocateEntry(vs: seq<int>, idx: seq<int>, p: nat)
    requires Distinct(vs) && (forall k :: 0 <= k < |idx| ==> 0 <= idx[k] < |vs|) && p < |idx|
    ensures IndexOf(vs, VertexList(vs, idx)[p]) == idx[p]
  {
    IndexOfDistinct(vs, idx[p]);
  }

  /** The state of the dense depth-first loop: the visited flags, the stack of
      vertices and the output all agree with the index-level search. */
  ghost predicate DepthLoop(vs: seq<int>, adj: seq<seq<int>>, s: int, marks: seq<bool>,
                            stack: seq<int>, order: seq<int>, seen: seq<int>, stackIdx: seq<int>)
  {
    |vs| == |adj| && DepthInv(adj, s, seen, stackIdx) &&
    marks == Marks(|vs|, seen) && stack == VertexList(vs, stackIdx) && order == VertexList(vs, seen)
  }

  /** The top of the stack: the vertex at index x, whose flag says whether x
      was expanded, above the vertices of the remaining indices. */
  lemma DepthTop(vs: seq<int>, adj: seq<seq<int>>, s: int, marks: seq<bool>,
                 stack: seq<int>, order: seq<int>, seen: seq<int>, stackIdx: seq<int>)
    requires DepthLoop(vs, adj, s, marks, stack, order, seen, stackIdx)
    requires Distinct(vs) && stack != []
    ensures var x, rest := stackIdx[|stackIdx| - 1], stackIdx[..|stackIdx| - 1];
      0 <= x < |vs| && IndexOf(vs, stack[|stack| - 1]) == x && (marks[x] <==> x in seen) &&
      (forall k :: 0 <= k < |rest| ==> 0 <= rest[k] < |vs|) &&
      stack[..|stack| - 1] == VertexList(vs, rest)
  {
    LocateEntry(vs, stackIdx, |stackIdx| - 1);
    VertexListPrefix(vs, stackIdx, |stackIdx| - 1);
  }

  /** A popped index that was already expanded is dropped. */
  lemma DepthSkip(vs: seq<int>, adj: seq<seq<int>>, s: int, marks: seq<bool>,
                  stack: seq<int>, order: seq<int>, seen: seq<int>, stackIdx: seq<int>)
    requires DepthLoop(vs, adj, s, marks, stack, order, seen, stackIdx)
    requires ZeroDiagonal(adj) && stack != [] && stackIdx[|stackIdx| - 1] in seen
    ensures DepthLoop(vs, adj, s, marks, stack[..|stack| - 1], order, seen, stackIdx[..|stackIdx| - 1])
  {
    DepthPop(adj, s, seen, stackIdx);
    VertexListPrefix(vs, stackIdx, |stackIdx| - 1);
  }

  /** A popped index not yet expanded is expanded: it joins the output and
      its neighbours are pushed by descending index. */
  lemma DepthExpand(vs: seq<int>, adj: seq<seq<int>>, s: int, marks: seq<bool>,
                    stack: seq<int>, order: seq<int>, seen: seq<int>, stackIdx: seq<int>)
    requires DepthLoop(vs, adj, s, marks, stack, order, seen, stackIdx)
    requires ZeroDiagonal(adj) && stack != [] && stackIdx[|stackIdx| - 1] !in seen
    ensures var x, rest := stackIdx[|stackIdx| - 1], stackIdx[..|stackIdx| - 1];
      0 <= x < |vs| && |seen| < |vs| &&
      (forall k :: 0 <= k < |rest + Desc(adj[x], 0)| ==> 0 <= (rest + Desc(adj[x], 0))[k] < |vs|) &&
      DepthLoop(vs, adj, s, marks[x := true], VertexList(vs, rest + Desc(adj[x], 0)),
                order + [vs[x]], seen + [x], rest + Desc(adj[x], 0))
  {
    var x, rest := stackIdx[|stackIdx| - 1], stackIdx[..|stackIdx| - 1];
    DepthPop(adj, s, seen, stackIdx);
    DepthExpandLoop(vs, adj, s, marks, order, seen, rest, x);
  }

  /** The output, flags and stack after expanding x. */
  lemma DepthExpandLoop(vs: seq<int>, adj: seq<seq<int>>, s: int, marks: seq<bool>,
                        order: seq<int>, seen: seq<int>, rest: seq<int>, x: int)
    requires |vs| == |adj| && 0 <= x < |vs| && x !in seen && |seen| < |vs|
    requires forall k :: 0 <= k < |seen| ==> 0 <= seen[k] < |vs|
    requires DepthInv(adj, s, seen + [x], rest + Desc(adj[x], 0))
    requires marks == Marks(|vs|, seen) && order == VertexList(vs, seen)
    ensures forall k :: 0 <= k < |rest + Desc(adj[x], 0)| ==> 0 <= (rest + Desc(adj[x], 0))[k] < |vs|
    ensures DepthLoop(vs, adj, s, marks[x := true], VertexList(vs, rest + Desc(adj[x], 0)),
                      order + [vs[x]], seen + [x], rest + Desc(adj[x], 0))
  {
    MarksAppend(|vs|, seen, x);
    VertexListAppend(vs, seen, x);
  }

  /** The state of the dense breadth-first loop, as DepthLoop with a queue. */
  ghost predicate BreadthLoop(vs: seq<int>, adj: seq<seq<int>>, s: int, marks: seq<bool>,
                              queue: seq<int>, order: seq<int>, seen: seq<int>, queueIdx: seq<int>)
  {
    |vs| == |adj| && BreadthInv(adj, s, seen, queueIdx) &&
    marks == Marks(|vs|, seen) && queue == VertexList(vs, queueIdx) && order == VertexList(vs, seen)
  }

  /** One round of the dense breadth-first loop on the front of the queue. */
  lemma BreadthRound(vs: seq<int>, adj: seq<seq<int>>, s: int, marks: seq<bool>,
                     queue: seq<int>, order: seq<int>, seen: seq<int>, queueIdx: seq<int>)
    requires BreadthLoop(vs, adj, s, marks, queue, order, seen, queueIdx)
    requires ZeroDiagonal(adj) && Distinct(vs) && queue != []
    ensures var x, rest := queueIdx[0], queueIdx[1..];
      0 <= x < |vs| && IndexOf(vs, queue[0]) == x && (marks[x] <==> x in seen) &&
      (forall k :: 0 <= k < |rest| ==> 0 <= rest[k] < |vs|) &&
      queue[1..] == VertexList(vs, rest) &&
      (x in seen ==> BreadthLoop(vs, adj, s, marks, queue[1..], order, seen, rest)) &&
      (x !in seen ==>
         |seen| < |vs| &&
         (forall k :: 0 <= k < |rest + Asc(adj[x], |adj|)| ==> 0 <= (rest + Asc(adj[x], |adj|))[k] < |vs|) &&
         BreadthLoop(vs, adj, s, marks[x := true], VertexList(vs, rest + Asc(adj[x], |adj|)),
                     order + [vs[x]], seen + [x], rest + Asc(adj[x], |adj|)))
  {
    var x, rest := queueIdx[0], queueIdx[1..];
    BreadthPop(adj, s, seen, queueIdx);
    LocateEntry(vs, queueIdx, 0);
    VertexListSuffix(vs, queueIdx, 1);
    if x !in seen {
      MarksAppend(|vs|, seen, x);
      VertexListAppend(vs, seen, x);
    }
  }

  /** The index set {0, ..., n - 1}. */
  function Below(n: nat): (r: set<int>)
    ensures forall i :: i in r <==> 0 <= i < n
    ensures |r| == n
  {
    if n == 0 then {} else Below(n - 1) + {n - 1}
  }

  /** A duplicate-free sequence of indices below n has at most n entries. */
  lemma DistinctBelow(s: seq<int>, n: nat)
    requires Distinct(s) && forall k :: 0 <= k < |s| ==> 0 <= s[k] < n
    ensures |s| <= n
  {
    DistinctCard(s);
    assert Elems(s) <= Below(n);
    SubsetCard(Elems(s), Below(n));
  }


  // ---------------------------------------------------------------------------
  // How each matrix update moves the counters

  function Indicator(x: int): int
  {
    if x > 0 then 1 else 0
  }

  /** A fresh all-zero row and column keep the shape and leave both sums alone. */
  lemma AddVertexKeeps(vs: seq<int>, adj: seq<seq<int>>, v: int, edges: int, weight: int)
    requires WellShaped(vs, adj) && v !in vs
    ensures WellShaped(vs + [v], AddVertexM(adj))
    ensures CountersAgree(adj, edges, weight) ==> CountersAgree(AddVertexM(adj), edges, weight)
  {
    AddVertexShape(adj);
    TotalAddVertex(adj);
    IndAddVertex(adj);
    TotalAddVertex(IndM(adj));
  }

  /** Writing a non-negative weight x into both cells of the pair (i, j). */
  lemma SetPairKeeps(vs: seq<int>, adj: seq<seq<int>>, i: nat, j: nat, x: int, edges: int, weight: int)
    requires WellShaped(vs, adj) && i < |adj| && j < |adj| && i != j && x >= 0
    ensures WellShaped(vs, SetPair(adj, i, j, x))
    ensures CountersAgree(adj, edges, weight) ==>
      CountersAgree(SetPair(adj, i, j, x),
                    edges - Indicator(adj[i][j]) + Indicator(x), weight - adj[i][j] + x)
  {
    SetPairShape(adj, i, j, x);
    TotalSetPair(adj, i, j, x);
    IndSetPair(adj, i, j, x);
    IndShape(adj);
    TotalSetPair(IndM(adj), i, j, Indicator(x));
  }

  /** Deleting row and column k removes that vertex's degree and weighted degree. */
  lemma RemoveVertexKeeps(vs: seq<int>, adj: seq<seq<int>>, k: nat, edges: int, weight: int)
    requires WellShaped(vs, adj) && k < |adj|
    ensures WellShaped(RemoveAt(vs, k), RemoveVertexM(adj, k))
    ensures CountersAgree(adj, edges, weight) ==>
      CountersAgree(RemoveVertexM(adj, k), edges - Positives(adj[k]), weight - Sum(adj[k]))
  {
    RemoveVertexShape(adj, k);
    TotalRemoveVertex(adj, k);
    IndRemoveVertex(adj, k);
    IndShape(adj);
    TotalRemoveVertex(IndM(adj), k);
    var r := RemoveAt(vs, k);
    forall a, b | 0 <= a < b < |r| ensures r[a] != r[b] {
      var a' := if a < k then a else a + 1;
      var b' := if b < k then b else b + 1;
      assert r[a] == vs[a'] && r[b] == vs[b'];
    }
  }

  // ---------------------------------------------------------------------------
  // remove_edge on a missing edge

  /** remove_edge as written decrements the edge counter whenever both vertices
      exist, even when they are not adjacent; the matrix is unchanged in that case,
      so the counters stop agreeing with it. */
  lemma RemoveEdgeDrifts(vs: seq<int>, adj: seq<seq<int>>, edges: int, weight: int, i: nat, j: nat)
    requires WellShaped(vs, adj) && CountersAgree(adj, edges, weight)
    requires i < |adj| && j < |adj| && i != j && adj[i][j] == 0
    ensures SetPair(adj, i, j, 0) == adj
    ensures !CountersAgree(SetPair(adj, i, j, 0), edges - 1, weight - adj[i][j])
  {
    var r := SetPair(adj, i, j, 0);
    forall a | 0 <= a < |adj| ensures r[a] == adj[a] {
    }
  }

  /** The smallest instance: two isolated vertices; remove_edge leaves num_edges() at -1. */
  lemma RemoveEdgeDriftExample()
    ensures var adj := [[0, 0], [0, 0]];
      WellShaped([1, 2], adj) && CountersAgree(adj, 0, 0) &&
      !CountersAgree(SetPair(adj, 0, 1, 0), -1, 0)
  {
    var adj := [[0, 0], [0, 0]];
    assert Ind(adj[0]) == [0, 0] && Ind(adj[1]) == [0, 0];
    assert IndM(adj) == adj;
    assert RowSums(adj) == [0, 0];
    RemoveEdgeDrifts([1, 2], adj, 0, 0, 0, 1);
  }
}
