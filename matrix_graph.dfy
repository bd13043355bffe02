/**
 * The dense draft of the weighted graph container: a vector of vertices, a
 * square adjacency matrix in which 0 means "no edge", and two counters that
 * the mutators keep in step with the matrix.
 */
module MatrixGraph {
  import opened Sums
  import opened MatrixSpec
  import opened PrimSpec
  import Paths
  import UnionFind
  import SpanningTree
  import KruskalSpec
  import CutProperty

  class WeightedGraph {
    var vertices: seq<int>
    var adj: seq<seq<int>>
    var edgesCount: int
    var weightTotal: int

    ghost predicate Valid()
      reads this
    {
      WellShaped(vertices, adj)
    }

    /** The counters hold the number of edges and the sum of their weights. */
    ghost predicate Counted()
      reads this
    {
      Valid() && CountersAgree(adj, edgesCount, weightTotal)
    }

    constructor ()
      ensures Counted()
      ensures vertices == [] && adj == [] && edgesCount == 0 && weightTotal == 0
    {
      vertices := [];
      adj := [];
      edgesCount := 0;
      weightTotal := 0;
    }

    // -------------------------------------------------------------------------
    // Lookups

    method GetIndex(u: int) returns (r: int)
      ensures r == IndexOf(vertices, u)
    {
      r := Locate(vertices, u);
    }

    /** The linear scan behind get_index. */
    static method Locate(vs: seq<int>, u: int) returns (r: int)
      ensures r == IndexOf(vs, u)
    {
      r := -1;
      var i := 0;
      while i < |vs|
        invariant 0 <= i <= |vs|
        invariant forall j :: 0 <= j < i ==> vs[j] != u
      {
        if vs[i] == u {
          return i;
        }
        i := i + 1;
      }
    }

    method HasVertex(u: int) returns (r: bool)
      ensures r <==> u in vertices
    {
      r := false;
      var i := 0;
      while i < |vertices|
        invariant 0 <= i <= |vertices|
        invariant u !in vertices[..i]
      {
        if vertices[i] == u {
          return true;
        }
        assert vertices[..i + 1] == vertices[..i] + [vertices[i]];
        i := i + 1;
      }
      assert vertices[..i] == vertices;
    }

    method AreAdjacent(u: int, v: int) returns (r: bool)
      requires Valid()
      ensures r <==> EdgeWeight(vertices, adj, u, v) > 0
    {
      var hu := HasVertex(u);
      var hv := HasVertex(v);
      if hu && hv {
        var i := GetIndex(u);
        var j := GetIndex(v);
        r := adj[i][j] > 0;
      } else {
        r := false;
      }
    }

    method GetEdgeWeight(u: int, v: int) returns (r: int)
      requires Valid()
      ensures r == EdgeWeight(vertices, adj, u, v)
    {
      var hu := HasVertex(u);
      var hv := HasVertex(v);
      if hu && hv {
        var i := GetIndex(u);
        var j := GetIndex(v);
        r := adj[i][j];
      } else {
        r := 0;
      }
    }

    /** The number of positive entries of u's row; 0 for an absent vertex. */
    method Degree(u: int) returns (d: int)
      requires Valid()
      ensures u !in vertices ==> d == 0
      ensures u in vertices ==> d == Positives(adj[IndexOf(vertices, u)])
    {
      d := 0;
      var k := GetIndex(u);
      if k >= 0 {
        var row := adj[k];
        var i := 0;
        while i < |row|
          invariant 0 <= i <= |row|
          invariant d == Positives(row[..i])
        {
          assert Ind(row[..i + 1]) == Ind(row[..i]) + [if row[i] > 0 then 1 else 0];
          SumAppend(Ind(row[..i]), if row[i] > 0 then 1 else 0);
          d := d + if row[i] > 0 then 1 else 0;
          i := i + 1;
        }
        assert row[..i] == row;
      }
    }

    /** The sum of u's row; 0 for an absent vertex. */
    method WeightedDegree(u: int) returns (d: int)
      requires Valid()
      ensures u !in vertices ==> d == 0
      ensures u in vertices ==> d == Sum(adj[IndexOf(vertices, u)])
    {
      d := 0;
      var k := GetIndex(u);
      if k >= 0 {
        var row := adj[k];
        var i := 0;
        while i < |row|
          invariant 0 <= i <= |row|
          invariant d == Sum(row[..i])
        {
          assert row[..i + 1] == row[..i] + [row[i]];
          SumAppend(row[..i], row[i]);
          d := d + row[i];
          i := i + 1;
        }
        assert row[..i] == row;
      }
    }

    /** The vertices whose matrix entry in u's row is positive, by increasing index. */
    method GetNeighbours(u: int) returns (ns: seq<int>)
      requires Valid()
      ensures u !in vertices ==> ns == []
      ensures u in vertices ==> ns == Select(vertices, adj[IndexOf(vertices, u)], |vertices|)
    {
      ns := [];
      var k := GetIndex(u);
      if k >= 0 {
        var i := 0;
        while i < |adj[k]|
          invariant 0 <= i <= |vertices|
          invariant ns == Select(vertices, adj[k], i)
        {
          if adj[k][i] > 0 {
            ns := ns + [vertices[i]];
          }
          i := i + 1;
        }
      }
    }

    function NumVertices(): (r: int)
      reads this
      requires Valid()
      ensures r == |vertices| == |adj|
    {
      |vertices|
    }

    /** The edge counter, in every state; it counts the edges whenever the
        counters agree with the matrix (remove_edge can make them drift). */
    function NumEdges(): (r: int)
      reads this
      requires Valid()
      ensures r == edgesCount
      ensures Counted() ==> 2 * r == DegreeSum(adj)
    {
      edgesCount
    }

    /** The weight counter, in every state; it is the sum of the edge weights
        whenever the counters agree with the matrix. */
    function TotalWeight(): (r: int)
      reads this
      requires Valid()
      ensures r == weightTotal
      ensures Counted() ==> 2 * r == Total(adj)
    {
      weightTotal
    }

    function GetVertices(): (r: seq<int>)
      reads this
      requires Valid()
      ensures Distinct(r) && |r| == NumVertices()
    {
      vertices
    }

    // -------------------------------------------------------------------------
    // Mutators

    /** Appends v with an all-zero row and column unless it is already present. */
    method AddVertex(v: int)
      requires Valid()
      modifies this
      ensures Valid()
      ensures v in old(vertices) ==> vertices == old(vertices) && adj == old(adj)
      ensures v !in old(vertices) ==> vertices == old(vertices) + [v] && adj == AddVertexM(old(adj))
      ensures edgesCount == old(edgesCount) && weightTotal == old(weightTotal)
      ensures old(Counted()) ==> Counted()
    {
      var present := HasVertex(v);
      if !present {
        ghost var a0 := adj;
        vertices := vertices + [v];
        var rows := AppendZeroColumn(adj);
        adj := rows + [Zeros(|vertices|)];
        assert adj == AddVertexM(a0);
        AddVertexKeeps(old(vertices), a0, v, edgesCount, weightTotal);
      }
    }

    /** The loop of add_vertex that pushes a 0 onto every existing row. */
    static method AppendZeroColumn(rows: seq<seq<int>>) returns (r: seq<seq<int>>)
      ensures |r| == |rows| && forall k :: 0 <= k < |rows| ==> r[k] == rows[k] + [0]
    {
      r := rows;
      var i := 0;
      while i < |r|
        invariant 0 <= i <= |r| == |rows|
        invariant forall k :: 0 <= k < i ==> r[k] == rows[k] + [0]
        invariant forall k :: i <= k < |r| ==> r[k] == rows[k]
      {
        r := r[i := r[i] + [0]];
        i := i + 1;
      }
    }

    /** The loop of remove_vertex that counts the positive entries of a row and sums it. */
    static method RowCounts(row: seq<int>) returns (edges: int, weight: int)
      ensures edges == Positives(row) && weight == Sum(row)
    {
      edges, weight := 0, 0;
      var i := 0;
      while i < |row|
        invariant 0 <= i <= |row|
        invariant edges == Positives(row[..i]) && weight == Sum(row[..i])
      {
        assert Ind(row[..i + 1]) == Ind(row[..i]) + [Indicator(row[i])];
        SumAppend(Ind(row[..i]), Indicator(row[i]));
        assert row[..i + 1] == row[..i] + [row[i]];
        SumAppend(row[..i], row[i]);
        if row[i] > 0 {
          edges := edges + 1;
        }
        weight := weight + row[i];
        i := i + 1;
      }
      assert row[..i] == row;
    }

    /** The two erases of remove_vertex: row k, then entry k of every row. */
    static method DropVertex(m: seq<seq<int>>, k: nat) returns (r: seq<seq<int>>)
      requires Square(m) && k < |m|
      ensures r == RemoveVertexM(m, k)
    {
      r := EraseColumn(RemoveAt(m, k), k);
    }

    /** The loop of remove_vertex that erases column k from every remaining row. */
    static method EraseColumn(rows: seq<seq<int>>, k: nat) returns (r: seq<seq<int>>)
      requires forall i :: 0 <= i < |rows| ==> k < |rows[i]|
      ensures |r| == |rows| && forall i :: 0 <= i < |rows| ==> r[i] == RemoveAt(rows[i], k)
    {
      r := rows;
      var i := 0;
      while i < |r|
        invariant 0 <= i <= |r| == |rows|
        invariant forall j :: 0 <= j < i ==> r[j] == RemoveAt(rows[j], k)
        invariant forall j :: i <= j < |r| ==> r[j] == rows[j]
      {
        r := r[i := RemoveAt(r[i], k)];
        i := i + 1;
      }
    }

    /** Adds the edge u-v with the given weight when both vertices exist, differ,
        are not yet adjacent and the weight is positive; otherwise nothing changes. */
    method AddEdge(u: int, v: int, weight: int)
      requires Valid()
      modifies this
      ensures Valid() && vertices == old(vertices)
      ensures var i, j := IndexOf(vertices, u), IndexOf(vertices, v);
        if IndicesValid(i, j) && old(adj)[i][j] == 0 && weight > 0 then
          adj == SetPair(old(adj), i, j, weight) &&
          edgesCount == old(edgesCount) + 1 && weightTotal == old(weightTotal) + weight
        else
          adj == old(adj) && edgesCount == old(edgesCount) && weightTotal == old(weightTotal)
      ensures old(Counted()) ==> Counted()
    {
      var i := GetIndex(u);
      var j := GetIndex(v);
      if IndicesValid(i, j) && adj[i][j] == 0 && weight > 0 {
        ghost var a0 := adj;
        SetPairKeeps(vertices, a0, i, j, weight, edgesCount, weightTotal);
        adj := SetPair(adj, i, j, weight);
        edgesCount := edgesCount + 1;
        weightTotal := weightTotal + weight;
      }
    }

    /** Deletes u's row and column and takes its edges off the counters; no-op if absent. */
    method RemoveVertex(u: int)
      requires Valid()
      modifies this
      ensures Valid()
      ensures u !in old(vertices) ==>
        vertices == old(vertices) && adj == old(adj) &&
        edgesCount == old(edgesCount) && weightTotal == old(weightTotal)
      ensures u in old(vertices) ==>
        var k := IndexOf(old(vertices), u);
        vertices == RemoveAt(old(vertices), k) && adj == RemoveVertexM(old(adj), k) &&
        edgesCount == old(edgesCount) - Positives(old(adj)[k]) &&
        weightTotal == old(weightTotal) - Sum(old(adj)[k])
      ensures old(Counted()) ==> Counted()
    {
      var vs, a, e, w := RemoveFromState(vertices, adj, edgesCount, weightTotal, u);
      vertices, adj, edgesCount, weightTotal := vs, a, e, w;
    }

    /** remove_vertex on the four fields as values. */
    static method RemoveFromState(vs: seq<int>, m: seq<seq<int>>, edges: int, weight: int, u: int)
      returns (vs': seq<int>, m': seq<seq<int>>, edges': int, weight': int)
      requires WellShaped(vs, m)
      ensures WellShaped(vs', m')
      ensures u !in vs ==> vs' == vs && m' == m && edges' == edges && weight' == weight
      ensures u in vs ==>
        var k := IndexOf(vs, u);
        vs' == RemoveAt(vs, k) && m' == RemoveVertexM(m, k) &&
        edges' == edges - Positives(m[k]) && weight' == weight - Sum(m[k])
      ensures CountersAgree(m, edges, weight) ==> CountersAgree(m', edges', weight')
    {
      var k := Locate(vs, u);
      if k < 0 {
        vs', m', edges', weight' := vs, m, edges, weight;
      } else {
        vs', m', edges', weight' := RemoveIndex(vs, m, k, edges, weight);
      }
    }

    /** The body of remove_vertex on values: drop index k and take its row off the counters. */
    static method RemoveIndex(vs: seq<int>, m: seq<seq<int>>, k: nat, edges: int, weight: int)
      returns (vs': seq<int>, m': seq<seq<int>>, edges': int, weight': int)
      requires WellShaped(vs, m) && k < |m|
      ensures vs' == RemoveAt(vs, k) && m' == RemoveVertexM(m, k)
      ensures edges' == edges - Positives(m[k]) && weight' == weight - Sum(m[k])
      ensures WellShaped(vs', m')
      ensures CountersAgree(m, edges, weight) ==> CountersAgree(m', edges', weight')
    {
      RemoveVertexKeeps(vs, m, k, edges, weight);
      var e, w := RowCounts(m[k]);
      m' := DropVertex(m, k);
      vs', edges', weight' := RemoveAt(vs, k), edges - e, weight - w;
    }

    /** remove_edge AS WRITTEN: whenever both vertices exist and differ it
        decrements the edge counter, whether or not they were adjacent. */
    method RemoveEdge(u: int, v: int)
      requires Valid()
      modifies this
      ensures Valid() && vertices == old(vertices)
      ensures var i, j := IndexOf(vertices, u), IndexOf(vertices, v);
        if IndicesValid(i, j) then
          adj == SetPair(old(adj), i, j, 0) &&
          edgesCount == old(edgesCount) - 1 && weightTotal == old(weightTotal) - old(adj)[i][j]
        else
          adj == old(adj) && edgesCount == old(edgesCount) && weightTotal == old(weightTotal)
      ensures var i, j := IndexOf(vertices, u), IndexOf(vertices, v);
        old(Counted()) && IndicesValid(i, j) ==> (Counted() <==> old(adj)[i][j] > 0)
    {
      var i := GetIndex(u);
      var j := GetIndex(v);
      if IndicesValid(i, j) {
        var a, e, w := ClearPair(vertices, adj, i, j, edgesCount, weightTotal);
        adj, edgesCount, weightTotal := a, e, w;
      }
    }

    /** The body of remove_edge on values: zero both cells and take one edge
        and the old weight off the counters. */
    static method ClearPair(vs: seq<int>, m: seq<seq<int>>, i: nat, j: nat, edges: int, weight: int)
      returns (m': seq<seq<int>>, edges': int, weight': int)
      requires WellShaped(vs, m) && i < |m| && j < |m| && i != j
      ensures m' == SetPair(m, i, j, 0) && edges' == edges - 1 && weight' == weight - m[i][j]
      ensures WellShaped(vs, m')
      ensures CountersAgree(m, edges, weight) ==> (CountersAgree(m', edges', weight') <==> m[i][j] > 0)
    {
      SetPairKeeps(vs, m, i, j, 0, edges, weight);
      if m[i][j] == 0 && CountersAgree(m, edges, weight) {
        RemoveEdgeDrifts(vs, m, edges, weight, i, j);
      }
      m', edges', weight' := SetPair(m, i, j, 0), edges - 1, weight - m[i][j];
    }

    /** remove_edge as evidently intended: the counters change only when the edge exists. */
    method RemoveEdgeChecked(u: int, v: int)
      requires Valid()
      modifies this
      ensures Valid() && vertices == old(vertices)
      ensures var i, j := IndexOf(vertices, u), IndexOf(vertices, v);
        if IndicesValid(i, j) && old(adj)[i][j] > 0 then
          adj == SetPair(old(adj), i, j, 0) &&
          edgesCount == old(edgesCount) - 1 && weightTotal == old(weightTotal) - old(adj)[i][j]
        else
          adj == old(adj) && edgesCount == old(edgesCount) && weightTotal == old(weightTotal)
      ensures old(Counted()) ==> Counted()
    {
      var i := GetIndex(u);
      var j := GetIndex(v);
      if IndicesValid(i, j) && adj[i][j] > 0 {
        ghost var a0 := adj;
        SetPairKeeps(vertices, a0, i, j, 0, edgesCount, weightTotal);
        edgesCount := edgesCount - 1;
        weightTotal := weightTotal - adj[i][j];
        adj := SetPair(adj, i, j, 0);
      }
    }

    /** Re-weights an existing edge to a positive weight; the edge count is unchanged. */
    method SetEdgeWeight(u: int, v: int, weight: int)
      requires Valid()
      modifies this
      ensures Valid() && vertices == old(vertices) && edgesCount == old(edgesCount)
      ensures var i, j := IndexOf(vertices, u), IndexOf(vertices, v);
        if IndicesValid(i, j) && old(adj)[i][j] > 0 && weight > 0 then
          adj == SetPair(old(adj), i, j, weight) &&
          weightTotal == old(weightTotal) + weight - old(adj)[i][j]
        else
          adj == old(adj) && weightTotal == old(weightTotal)
      ensures old(Counted()) ==> Counted()
    {
      var i := GetIndex(u);
      var j := GetIndex(v);
      if IndicesValid(i, j) && adj[i][j] > 0 && weight > 0 {
        ghost var a0 := adj;
        SetPairKeeps(vertices, a0, i, j, weight, edgesCount, weightTotal);
        weightTotal := weightTotal + weight - adj[i][j];
        adj := SetPair(adj, i, j, weight);
      }
    }

    // -------------------------------------------------------------------------
    // Traversals

    /** order is a traversal from start: empty for an absent start, otherwise it
        begins at start, repeats nothing, holds exactly the vertices reachable
        from start, and visits start's lowest-index neighbour second. */
    ghost predicate IsTraversal(start: int, order: seq<int>)
      reads this
      requires Valid()
    {
      if start !in vertices then order == []
      else
        var s := IndexOf(vertices, start);
        |order| >= 1 && order[0] == start && Distinct(order) &&
        (forall x :: x in order ==> x in vertices) &&
        (forall k :: 0 <= k < |vertices| ==> (vertices[k] in order <==> Paths.Reachable(IndexGraph(adj), s, k))) &&
        (|order| > 1 <==> FirstPositive(adj[s]) < |vertices|) &&
        (|order| > 1 ==> order[1] == vertices[FirstPositive(adj[s])])
    }

    /** From the visiting order of indices to the traversal's postcondition. */
    lemma TraversalFromSeen(start: int, seen: seq<int>, order: seq<int>)
      requires Valid() && start in vertices
      requires var s := IndexOf(vertices, start);
        |seen| >= 1 && seen[0] == s && Distinct(seen) &&
        (forall k :: 0 <= k < |seen| ==> 0 <= seen[k] < |vertices|) &&
        order == VertexList(vertices, seen) &&
        (forall k :: k in seen ==> Paths.Reachable(IndexGraph(adj), s, k)) &&
        (forall a, b :: a in seen && 0 <= b < |vertices| && adj[a][b] > 0 ==> b in seen) &&
        (|seen| > 1 <==> FirstPositive(adj[s]) < |vertices|) &&
        (|seen| > 1 ==> seen[1] == FirstPositive(adj[s]))
      ensures IsTraversal(start, order)
    {
      var s := IndexOf(vertices, start);
      var g := IndexGraph(adj);
      var S := Elems(seen);
      assert Paths.Closed(g, S);
      forall k | 0 <= k < |vertices| ensures vertices[k] in order <==> Paths.Reachable(g, s, k) {
        if vertices[k] in order {
          var p :| 0 <= p < |order| && order[p] == vertices[k];
          IndexOfDistinct(vertices, k);
          IndexOfDistinct(vertices, seen[p]);
          assert seen[p] == k;
        }
        if Paths.Reachable(g, s, k) {
          Paths.ReachInClosed(g, s, S, k);
          var p :| 0 <= p < |seen| && seen[p] == k;
          assert order[p] == vertices[k];
        }
      }
      forall a, b | 0 <= a < b < |order| ensures order[a] != order[b] {
        assert seen[a] != seen[b];
      }
    }

    /** A fresh visited buffer with every entry cleared. */
    static method ClearedBuffer(n: nat) returns (visited: array<bool>)
      ensures fresh(visited) && visited[..] == Marks(n, [])
    {
      visited := new bool[n];
      var i := 0;
      while i < n
        modifies visited
        invariant 0 <= i <= n
        invariant forall j :: 0 <= j < i ==> !visited[j]
      {
        visited[i] := false;
        i := i + 1;
      }
    }

    /** The inner loop of depth_first: for i from the last index down to 0, push
        vertex i when the row has an edge to it. */
    static method PushDescending(vs: seq<int>, row: seq<int>, stack: seq<int>, ghost stackIdx: seq<int>)
      returns (stack': seq<int>, ghost stackIdx': seq<int>)
      requires |row| == |vs|
      requires forall k :: 0 <= k < |stackIdx| ==> 0 <= stackIdx[k] < |vs|
      requires stack == VertexList(vs, stackIdx)
      ensures stackIdx' == stackIdx + Desc(row, 0)
      ensures forall k :: 0 <= k < |stackIdx'| ==> 0 <= stackIdx'[k] < |vs|
      ensures stack' == VertexList(vs, stackIdx')
    {
      stack', stackIdx' := stack, stackIdx;
      var i := |vs|;
      while i != 0
        invariant 0 <= i <= |vs|
        invariant stackIdx' == stackIdx + Desc(row, i)
        invariant forall k :: 0 <= k < |stackIdx'| ==> 0 <= stackIdx'[k] < |vs|
        invariant stack' == VertexList(vs, stackIdx')
      {
        assert Desc(row, i - 1) == Desc(row, i) + (if row[i - 1] > 0 then [i - 1] else []);
        if row[i - 1] > 0 {
          VertexListAppend(vs, stackIdx', i - 1);
          stack' := stack' + [vs[i - 1]];
          stackIdx' := stackIdx' + [i - 1];
        }
        i := i - 1;
      }
    }

    /** The inner loop of breadth_first: for i from 0 upwards, enqueue vertex i
        when the row has an edge to it. */
    static method PushAscending(vs: seq<int>, row: seq<int>, queue: seq<int>, ghost queueIdx: seq<int>)
      returns (queue': seq<int>, ghost queueIdx': seq<int>)
      requires |row| == |vs|
      requires forall k :: 0 <= k < |queueIdx| ==> 0 <= queueIdx[k] < |vs|
      requires queue == VertexList(vs, queueIdx)
      ensures queueIdx' == queueIdx + Asc(row, |vs|)
      ensures forall k :: 0 <= k < |queueIdx'| ==> 0 <= queueIdx'[k] < |vs|
      ensures queue' == VertexList(vs, queueIdx')
    {
      queue', queueIdx' := queue, queueIdx;
      var i := 0;
      while i < |vs|
        invariant 0 <= i <= |vs|
        invariant queueIdx' == queueIdx + Asc(row, i)
        invariant forall k :: 0 <= k < |queueIdx'| ==> 0 <= queueIdx'[k] < |vs|
        invariant queue' == VertexList(vs, queueIdx')
      {
        assert Asc(row, i + 1) == Asc(row, i) + (if row[i] > 0 then [i] else []);
        if row[i] > 0 {
          VertexListAppend(vs, queueIdx', i);
          queue' := queue' + [vs[i]];
          queueIdx' := queueIdx' + [i];
        }
        i := i + 1;
      }
    }

    /** Depth-first search over a stack of vertices; each expanded vertex pushes
        its neighbours from the highest index down, so the lowest comes off first. */
    method DepthFirst(start: int) returns (order: seq<int>)
      requires Valid()
      ensures IsTraversal(start, order)
    {
      order := [];
      var s := GetIndex(start);
      if s < 0 {
        return;
      }
      ghost var seen;
      order, seen := DepthFirstFrom(vertices, adj, s);
      SearchDone(adj, s, seen);
      if FirstPositive(adj[s]) < |vertices| {
        var w := FirstPositive(adj[s]);
        assert w in seen;
      }
      TraversalFromSeen(start, seen, order);
    }

    /** The search loop of depth_first, from the vertex at index s; seen lists
        the indices in the order they were visited. */
    static method DepthFirstFrom(vs: seq<int>, adj: seq<seq<int>>, s: int)
      returns (order: seq<int>, ghost seen: seq<int>)
      requires Square(adj) && ZeroDiagonal(adj) && |vs| == |adj| && Distinct(vs) && 0 <= s < |vs|
      ensures SearchInv(adj, s, seen, [])
      ensures order == VertexList(vs, seen)
      ensures |seen| > 1 ==> FirstPositive(adj[s]) < |vs| && seen[1] == FirstPositive(adj[s])
    {
      var n := |vs|;
      var visited := ClearedBuffer(n);
      var unprocessed := [vs[s]];
      ghost var stackIdx := [s];
      order, seen := [], [];
      SearchStart(adj, s);
      while unprocessed != []
        invariant DepthLoop(vs, adj, s, visited[..], unprocessed, order, seen, stackIdx)
        decreases n - |seen|, |unprocessed|
      {
        ghost var x, rest := stackIdx[|stackIdx| - 1], stackIdx[..|stackIdx| - 1];
        DepthTop(vs, adj, s, visited[..], unprocessed, order, seen, stackIdx);
        if x in seen {
          DepthSkip(vs, adj, s, visited[..], unprocessed, order, seen, stackIdx);
        } else {
          DepthExpand(vs, adj, s, visited[..], unprocessed, order, seen, stackIdx);
        }
        var index := Locate(vs, unprocessed[|unprocessed| - 1]);
        unprocessed, stackIdx := unprocessed[..|unprocessed| - 1], rest;
        if !visited[index] {
          visited[index] := true;
          order, seen := order + [vs[index]], seen + [index];
          unprocessed, stackIdx := PushDescending(vs, adj[index], unprocessed, stackIdx);
        }
      }
    }

    /** Breadth-first search over a queue of vertices; each expanded vertex
        enqueues its neighbours from the lowest index up. */
    method BreadthFirst(start: int) returns (order: seq<int>)
      requires Valid()
      ensures IsTraversal(start, order)
    {
      order := [];
      var s := GetIndex(start);
      if s < 0 {
        return;
      }
      ghost var seen;
      order, seen := BreadthFirstFrom(vertices, adj, s);
      SearchDone(adj, s, seen);
      if FirstPositive(adj[s]) < |vertices| {
        var w := FirstPositive(adj[s]);
        assert w in seen;
      }
      TraversalFromSeen(start, seen, order);
    }

    /** The search loop of breadth_first, from the vertex at index s. */
    static method BreadthFirstFrom(vs: seq<int>, adj: seq<seq<int>>, s: int)
      returns (order: seq<int>, ghost seen: seq<int>)
      requires Square(adj) && ZeroDiagonal(adj) && |vs| == |adj| && Distinct(vs) && 0 <= s < |vs|
      ensures SearchInv(adj, s, seen, [])
      ensures order == VertexList(vs, seen)
      ensures |seen| > 1 ==> FirstPositive(adj[s]) < |vs| && seen[1] == FirstPositive(adj[s])
    {
      var n := |vs|;
      var visited := ClearedBuffer(n);
      var unprocessed := [vs[s]];
      ghost var queueIdx := [s];
      order, seen := [], [];
      SearchStart(adj, s);
      while unprocessed != []
        invariant BreadthLoop(vs, adj, s, visited[..], unprocessed, order, seen, queueIdx)
        decreases n - |seen|, |unprocessed|
      {
        ghost var x, rest := queueIdx[0], queueIdx[1..];
        BreadthRound(vs, adj, s, visited[..], unprocessed, order, seen, queueIdx);
        var index := Locate(vs, unprocessed[0]);
        unprocessed, queueIdx := unprocessed[1..], rest;
        if !visited[index] {
          visited[index] := true;
          order, seen := order + [vs[index]], seen + [index];
          unprocessed, queueIdx := PushAscending(vs, adj[index], unprocessed, queueIdx);
        }
      }
    }

    // -------------------------------------------------------------------------
    // Minimum spanning tree (Prim)

    /** The first index outside the tree whose key is smallest; the scan only
        takes keys strictly below INT_MAX, so a candidate must exist. It runs
        over the vertex count, which is the length of key. */
    static method GetMinKey(key: seq<int>, sel: seq<bool>) returns (r: int)
      requires |sel| == |key|
      requires exists i :: Candidate(key, sel, i)
      ensures Candidate(key, sel, r)
      ensures forall j :: 0 <= j < |key| && !sel[j] ==> key[r] <= key[j]
      ensures forall j :: 0 <= j < r && !sel[j] ==> key[r] < key[j]
    {
      var min := INT_MAX;
      r := -1;
      var i := 0;
      while i < |key|
        invariant 0 <= i <= |key|
        invariant r == -1 ==> min == INT_MAX && forall j :: 0 <= j < i ==> !Candidate(key, sel, j)
        invariant r != -1 ==> 0 <= r < i && Candidate(key, sel, r) && min == key[r]
        invariant r != -1 ==> forall j :: 0 <= j < r && !sel[j] ==> key[r] < key[j]
        invariant forall j :: 0 <= j < i && !sel[j] ==> min <= key[j]
      {
        if !sel[i] && key[i] < min {
          min := key[i];
          r := i;
        }
        i := i + 1;
      }
      ghost var w :| Candidate(key, sel, w);
    }

    /** The relaxation loop of mst: every index outside the tree that i reaches
        by an edge lighter than its key takes that edge. */
    static method RelaxFrom(adj: seq<seq<int>>, i: int, sel: seq<bool>, key: seq<int>, parent: seq<int>)
      returns (key': seq<int>, parent': seq<int>)
      requires Square(adj) && 0 <= i < |adj| && |sel| == |key| == |parent| == |adj|
      ensures Relaxed(adj, i, sel, key, parent, key', parent')
    {
      key', parent' := key, parent;
      var j := 0;
      while j < |adj|
        invariant 0 <= j <= |adj| && |key'| == |parent'| == |adj|
        invariant forall k :: 0 <= k < j ==>
          if adj[i][k] != 0 && !sel[k] && adj[i][k] < key[k] then key'[k] == adj[i][k] && parent'[k] == i
          else key'[k] == key[k] && parent'[k] == parent[k]
        invariant forall k :: j <= k < |adj| ==> key'[k] == key[k] && parent'[k] == parent[k]
      {
        if adj[i][j] != 0 && !sel[j] && adj[i][j] < key'[j] {
          parent' := parent'[j := i];
          key' := key'[j := adj[i][j]];
        }
        j := j + 1;
      }
    }

    /** Prim's algorithm from index 0: the result has the same vertices and is a
        spanning tree of the graph, made of n - 1 of its edges with their
        weights, and weighs no more than any connected spanning sub-matrix. */
    method Mst() returns (t: WeightedGraph)
      requires Valid() && |vertices| >= 1
      requires Paths.Connected(IndexGraph(adj)) && Bounded(adj)
      ensures fresh(t) && t.Counted() && t.vertices == vertices
      ensures t.edgesCount == |vertices| - 1
      ensures forall a, b :: 0 <= a < |vertices| && 0 <= b < |vertices| && t.adj[a][b] > 0 ==>
        t.adj[a][b] == adj[a][b]
      ensures Paths.Connected(IndexGraph(t.adj))
      ensures forall T :: CutProperty.Spans(adj, T) ==> Total(t.adj) <= Total(T)
    {
      var parent, rank := PrimParents(adj);
      t := BuildTree(vertices, adj, parent, rank);
    }

    /** The main loop of mst: grow the tree from index 0, each round taking in
        the index get_min_key picks and relaxing the keys through it. Any matrix
        holding exactly the resulting parent edges is a lightest tree. */
    static method PrimParents(adj: seq<seq<int>>) returns (parent: seq<int>, ghost rank: seq<nat>)
      requires WellShapedIdx(adj) && |adj| >= 1
      requires Paths.Connected(IndexGraph(adj)) && Bounded(adj)
      ensures TreeShape(adj, parent, rank)
      ensures forall tm, T :: TreeBuilt(tm, adj, parent, |adj|) && CutProperty.Spans(adj, T) ==> Total(tm) <= Total(T)
    {
      var n := |adj|;
      parent := seq(n, _ => 0);
      var key := seq(n, _ => INT_MAX);
      var sel := seq(n, _ => false);
      key := key[0 := 0];
      parent := parent[0 := -1];
      rank := seq(n, _ => 0);
      ghost var order: seq<int> := [];
      PrimStart(adj, key, parent, sel, rank);
      ghost var chosen := seq(n, _ => seq(n, _ => 0));
      ChosenStart(adj, parent, sel, chosen);
      var count := 0;
      while count < n - 1
        invariant PrimInv(adj, key, parent, sel, rank, order) && count == |order| <= n - 1
        invariant Chosen(chosen, adj, parent, sel) && CutProperty.Extendable(adj, chosen)
      {
        CandidateExists(adj, key, parent, sel, rank, order);
        var i := GetMinKey(key, sel);
        chosen := PrimGrow(adj, key, parent, sel, rank, order, i, chosen);
        var key', parent' := RelaxFrom(adj, i, sel[i := true], key, parent);
        ChosenRelaxed(adj, i, sel[i := true], key, parent, key', parent', chosen);
        PrimStep(adj, key, parent, sel, rank, order, i, key', parent');
        sel, key, parent := sel[i := true], key', parent';
        rank, order := rank[i := |order|], order + [i];
        count := count + 1;
      }
      forall tm, T | TreeBuilt(tm, adj, parent, n) && CutProperty.Spans(adj, T) ensures Total(tm) <= Total(T) {
        PrimMinimal(adj, key, parent, sel, rank, order, chosen, tm);
      }
      rank := PrimDone(adj, key, parent, sel, rank, order);
    }

    /** The tail of mst: add every vertex, then the edge from each index other
        than the root to its parent. */
    static method BuildTree(vs: seq<int>, adj: seq<seq<int>>, parent: seq<int>, ghost rank: seq<nat>)
      returns (t: WeightedGraph)
      requires WellShaped(vs, adj) && TreeShape(adj, parent, rank)
      ensures fresh(t) && t.Counted() && t.vertices == vs
      ensures t.edgesCount == |vs| - 1
      ensures forall a, b :: 0 <= a < |vs| && 0 <= b < |vs| && t.adj[a][b] > 0 ==> t.adj[a][b] == adj[a][b]
      ensures Paths.Connected(IndexGraph(t.adj)) && TreeBuilt(t.adj, adj, parent, |vs|)
    {
      t := WithVertices(vs);
      TreeBuiltStart(adj, parent, t.adj);
      AddParentEdges(t, adj, parent, rank);
      TreeConnected(adj, parent, rank, t.adj);
    }

    /** A new graph holding the given vertices and no edges. */
    static method WithVertices(vs: seq<int>) returns (t: WeightedGraph)
      requires Distinct(vs)
      ensures fresh(t) && t.Counted() && t.vertices == vs && t.edgesCount == 0
      ensures forall a, b :: 0 <= a < |vs| && 0 <= b < |vs| ==> t.adj[a][b] == 0
    {
      var n := |vs|;
      t := new WeightedGraph();
      var i := 0;
      while i < n
        invariant 0 <= i <= n && fresh(t)
        invariant t.Counted() && t.vertices == vs[..i] && t.edgesCount == 0
        invariant forall a, b :: 0 <= a < i && 0 <= b < i ==> t.adj[a][b] == 0
      {
        assert vs[i] !in vs[..i];
        t.AddVertex(vs[i]);
        assert vs[..i + 1] == vs[..i] + [vs[i]];
        i := i + 1;
      }
      assert vs[..n] == vs;
    }

    /** The second loop of mst's tail: one add_edge per index, skipping the root. */
    static method AddParentEdges(t: WeightedGraph, adj: seq<seq<int>>, parent: seq<int>, ghost rank: seq<nat>)
      requires t.Counted() && t.edgesCount == 0 && |t.vertices| == |adj|
      requires TreeShape(adj, parent, rank) && Symmetric(adj) && TreeBuilt(t.adj, adj, parent, 1)
      modifies t
      ensures t.Counted() && t.vertices == old(t.vertices)
      ensures t.edgesCount == |adj| - 1 && TreeBuilt(t.adj, adj, parent, |adj|)
    {
      var n := |adj|;
      var i := 0;
      while i < n
        invariant 0 <= i <= n
        invariant t.Counted() && t.vertices == old(t.vertices)
        invariant TreeBuilt(t.adj, adj, parent, if i == 0 then 1 else i)
        invariant t.edgesCount == if i == 0 then 0 else i - 1
      {
        if i > 0 {
          var p := parent[i];
          TreeAddStep(adj, parent, rank, t.adj, i);
          IndexOfDistinct(t.vertices, p);
          IndexOfDistinct(t.vertices, i);
          t.AddEdge(t.vertices[p], t.vertices[i], adj[i][p]);
        }
        i := i + 1;
      }
    }

    /** kruskal, with the union after each added edge, make_set sized by the
        vertex count and the stop test n - 1 that its code evidently means:
        the result keeps every vertex, holds only edges of the graph with
        their weights, joins exactly the pairs the graph joins, and on a
        connected graph has n - 1 edges, i.e. it is a spanning tree; and it
        weighs no more than any sub-matrix joining what the graph joins. */
    method Kruskal() returns (t: WeightedGraph)
      requires Valid()
      ensures fresh(t) && t.Counted() && t.vertices == vertices
      ensures forall a, b :: 0 <= a < |vertices| && 0 <= b < |vertices| && t.adj[a][b] > 0 ==>
        t.adj[a][b] == adj[a][b]
      ensures forall a, b :: 0 <= a < |vertices| && 0 <= b < |vertices| ==>
        (Paths.Reachable(IndexGraph(t.adj), a, b) <==> Paths.Reachable(IndexGraph(adj), a, b))
      ensures |vertices| >= 1 && Paths.Connected(IndexGraph(adj)) ==> t.edgesCount == |vertices| - 1
      ensures forall T :: CutProperty.Spans(adj, T) ==> Total(t.adj) <= Total(T)
    {
      t := KruskalFrom(vertices, adj);
    }

    /** The body of kruskal on the vertex list and matrix of the graph. */
    static method KruskalFrom(vs: seq<int>, adj: seq<seq<int>>) returns (t: WeightedGraph)
      requires WellShaped(vs, adj)
      ensures fresh(t) && t.Counted() && t.vertices == vs
      ensures forall a, b :: 0 <= a < |vs| && 0 <= b < |vs| && t.adj[a][b] > 0 ==> t.adj[a][b] == adj[a][b]
      ensures forall a, b :: 0 <= a < |vs| && 0 <= b < |vs| ==>
        (Paths.Reachable(IndexGraph(t.adj), a, b) <==> Paths.Reachable(IndexGraph(adj), a, b))
      ensures |vs| >= 1 && Paths.Connected(IndexGraph(adj)) ==> t.edgesCount == |vs| - 1
      ensures forall T :: CutProperty.Spans(adj, T) ==> Total(t.adj) <= Total(T)
    {
      var ds, sorted;
      t, ds, sorted := KruskalSetup(vs, adj);
      ghost var k := KruskalLoop(t, ds, vs, adj, sorted);
      KruskalSpec.KruskalDone(adj, t.adj, ds.parent, ds.dist, ds.root, sorted, k, t.edgesCount);
      CutProperty.ExtendableMinimal(adj, t.adj);
    }

    /** The state before kruskal's main loop: the bare vertices, the sorted
        edges and one set per index. */
    static method KruskalSetup(vs: seq<int>, adj: seq<seq<int>>)
      returns (t: WeightedGraph, ds: UnionFind.DisjointSet, sorted: seq<SpanningTree.Edge>)
      requires WellShaped(vs, adj)
      ensures fresh(t) && fresh(ds) && t.Counted() && t.vertices == vs && t.edgesCount == 0
      ensures KruskalSpec.KruskalInv(adj, t.adj, ds.parent, ds.dist, ds.root, sorted, |sorted|, t.edgesCount)
      ensures forall e :: SpanningTree.Upper(adj, e) ==> e in sorted
      ensures SpanningTree.NonIncreasing(sorted) && CutProperty.Extendable(adj, t.adj)
    {
      t := WithVertices(vs);
      sorted := SortedUpperEdges(adj);
      KruskalSpec.SortedEdges(adj, sorted);
      ds := new UnionFind.DisjointSet();
      ds.MakeSet(|vs|);
      KruskalSpec.KruskalStart(adj, t.adj, ds.parent, ds.dist, ds.root, sorted);
      CutProperty.ExtendableStart(adj, t.adj);
    }

    /** The first half of kruskal: every edge of the upper triangle, heaviest
        first. */
    static method SortedUpperEdges(adj: seq<seq<int>>) returns (sorted: seq<SpanningTree.Edge>)
      requires Square(adj)
      ensures multiset(sorted) == multiset(SpanningTree.UpperEdges(adj, |adj|))
      ensures SpanningTree.NonIncreasing(sorted)
    {
      var edges := SpanningTree.CollectEdges(adj);
      var a := new SpanningTree.Edge[|edges|](i requires 0 <= i < |edges| => edges[i]);
      assert a[..] == edges;
      SpanningTree.SortEdges(a);
      sorted := a[..];
    }

    /** kruskal's main loop: pop edges off the back of the sorted list until
        n - 1 have been added or none is left. */
    static method KruskalLoop(t: WeightedGraph, ds: UnionFind.DisjointSet, vs: seq<int>, adj: seq<seq<int>>,
                              sorted: seq<SpanningTree.Edge>) returns (ghost k: nat)
      requires t.Counted() && t.vertices == vs && Distinct(vs)
      requires KruskalSpec.KruskalInv(adj, t.adj, ds.parent, ds.dist, ds.root, sorted, |sorted|, t.edgesCount)
      requires SpanningTree.NonIncreasing(sorted) && forall e :: SpanningTree.Upper(adj, e) ==> e in sorted
      requires CutProperty.Extendable(adj, t.adj)
      modifies t, ds
      ensures t.Counted() && t.vertices == vs
      ensures KruskalSpec.KruskalInv(adj, t.adj, ds.parent, ds.dist, ds.root, sorted, k, t.edgesCount)
      ensures CutProperty.Extendable(adj, t.adj)
      ensures k == 0 || t.edgesCount == |vs| - 1
    {
      var pending := sorted;
      while t.edgesCount != |vs| - 1 && pending != []
        invariant t.Counted() && t.vertices == vs
        invariant |pending| <= |sorted| && pending == sorted[..|pending|]
        invariant KruskalSpec.KruskalInv(adj, t.adj, ds.parent, ds.dist, ds.root, sorted, |pending|, t.edgesCount)
        invariant CutProperty.Extendable(adj, t.adj)
        decreases |pending|
      {
        ghost var j := |pending|;
        var e := pending[|pending| - 1];
        assert e == sorted[j - 1];
        pending := pending[..|pending| - 1];
        assert pending == sorted[..j - 1];
        KruskalRound(t, ds, vs, adj, e, sorted, j);
      }
      k := |pending|;
    }

    /** One round of kruskal's loop on the popped edge sorted[k - 1]: find
        both roots, and when they differ add the edge and unite the sets. */
    static method KruskalRound(t: WeightedGraph, ds: UnionFind.DisjointSet, vs: seq<int>, adj: seq<seq<int>>,
                               e: SpanningTree.Edge, ghost sorted: seq<SpanningTree.Edge>, ghost k: nat)
      requires t.Counted() && t.vertices == vs && Distinct(vs) && 0 < k <= |sorted| && e == sorted[k - 1]
      requires KruskalSpec.KruskalInv(adj, t.adj, ds.parent, ds.dist, ds.root, sorted, k, t.edgesCount)
      requires SpanningTree.NonIncreasing(sorted) && forall e :: SpanningTree.Upper(adj, e) ==> e in sorted
      requires CutProperty.Extendable(adj, t.adj)
      modifies t, ds
      ensures t.Counted() && t.vertices == vs
      ensures KruskalSpec.KruskalInv(adj, t.adj, ds.parent, ds.dist, ds.root, sorted, k - 1, t.edgesCount)
      ensures CutProperty.Extendable(adj, t.adj)
    {
      assert SpanningTree.Upper(adj, e);
      ghost var (p0, d0, r0) := (ds.parent, ds.dist, ds.root);
      var x := ds.Find(e.u);
      KruskalSpec.FindKeeps(adj, t.adj, p0, d0, r0, sorted, k, t.edgesCount, e.u, ds.parent, ds.dist, ds.root);
      ghost var (p1, d1, r1) := (ds.parent, ds.dist, ds.root);
      var y := ds.Find(e.v);
      KruskalSpec.FindKeeps(adj, t.adj, p1, d1, r1, sorted, k, t.edgesCount, e.v, ds.parent, ds.dist, ds.root);
      if x != y {
        ghost var (p2, d2, r2) := (ds.parent, ds.dist, ds.root);
        ghost var (m0, c0) := (t.adj, t.edgesCount);
        KruskalSpec.Unjoined(adj, t.adj, ds.root, sorted, k);
        KruskalSpec.KruskalGrow(adj, t.adj, ds.parent, ds.dist, ds.root, sorted, k, t.edgesCount);
        IndexOfDistinct(vs, e.u);
        IndexOfDistinct(vs, e.v);
        t.AddEdge(vs[e.u], vs[e.v], e.weight);
        ds.MakeUnion(e.u, e.v);
        KruskalSpec.KruskalAdd(adj, m0, p2, d2, r2, sorted, k, c0, ds.parent, ds.dist, ds.root);
      } else {
        assert KruskalSpec.SameRoot(ds.root, e);
        KruskalSpec.SkipTaken(adj, t.adj, ds.parent, ds.dist, ds.root, sorted, k, t.edgesCount);
      }
    }
  }
}
