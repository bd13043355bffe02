/** Sums over sequences, square matrices and finite maps, used by both graph drafts
    to state what their edge and weight counters must equal. */
module Sums {

  /** Sum of the elements of a sequence. */
  function Sum(s: seq<int>): int
  {
    if s == [] then 0 else s[0] + Sum(s[1..])
  }

  lemma {:induction false} SumConcat(a: seq<int>, b: seq<int>)
    ensures Sum(a + b) == Sum(a) + Sum(b)
  {
    if a == [] {
      assert a + b == b;
    } else {
      assert (a + b)[1..] == a[1..] + b;
      SumConcat(a[1..], b);
    }
  }

  /** The sequence without its element at index k (std::vector::erase). */
  function RemoveAt<T>(s: seq<T>, k: nat): (r: seq<T>)
    requires k < |s|
    ensures |r| == |s| - 1
    ensures forall j :: 0 <= j < k ==> r[j] == s[j]
    ensures forall j :: k <= j < |r| ==> r[j] == s[j + 1]
  {
    s[..k] + s[k + 1..]
  }

  lemma SumRemoveAt(s: seq<int>, k: nat)
    requires k < |s|
    ensures Sum(RemoveAt(s, k)) == Sum(s) - s[k]
  {
    var a, b := s[..k], s[k..];
    assert s == a + b;
    assert b[1..] == s[k + 1..];
    SumConcat(a, b);
    SumConcat(a, s[k + 1..]);
  }

  lemma SumUpdate(s: seq<int>, k: nat, x: int)
    requires k < |s|
    ensures Sum(s[k := x]) == Sum(s) - s[k] + x
  {
    SumRemoveAt(s, k);
    SumRemoveAt(s[k := x], k);
    assert RemoveAt(s[k := x], k) == RemoveAt(s, k);
  }

  lemma SumAppend(s: seq<int>, x: int)
    ensures Sum(s + [x]) == Sum(s) + x
  {
    SumConcat(s, [x]);
  }

  function Zeros(n: nat): (r: seq<int>)
    ensures |r| == n && forall j :: 0 <= j < n ==> r[j] == 0
  {
    seq(n, _ => 0)
  }

  lemma {:induction false} SumZeros(n: nat)
    ensures Sum(Zeros(n)) == 0
  {
    if n > 0 {
      assert Zeros(n)[1..] == Zeros(n - 1);
      SumZeros(n - 1);
    }
  }

  /** Pointwise difference: the sum of differences is the difference of sums. */
  lemma {:induction false} SumMinus(a: seq<int>, b: seq<int>, d: seq<int>)
    requires |a| == |b| == |d|
    requires forall i :: 0 <= i < |d| ==> d[i] == a[i] - b[i]
    ensures Sum(d) == Sum(a) - Sum(b)
  {
    if d != [] {
      SumMinus(a[1..], b[1..], d[1..]);
    }
  }

  /** 1 for every strictly positive entry, 0 otherwise. */
  function Ind(s: seq<int>): (r: seq<int>)
    ensures |r| == |s|
    ensures forall j :: 0 <= j < |s| ==> r[j] == (if s[j] > 0 then 1 else 0)
  {
    seq(|s|, j requires 0 <= j < |s| => if s[j] > 0 then 1 else 0)
  }

  /** Number of strictly positive entries (entries of a matrix row that are edges). */
  function Positives(s: seq<int>): int
  {
    Sum(Ind(s))
  }

  lemma {:induction false} PositivesBounds(s: seq<int>)
    ensures 0 <= Positives(s) <= |s|
  {
    if s != [] {
      assert Ind(s)[1..] == Ind(s[1..]);
      PositivesBounds(s[1..]);
    }
  }

  /** Sum of a sequence with no negative entries is at least each of its entries. */
  lemma {:induction false} SumNonNeg(s: seq<int>)
    requires forall j :: 0 <= j < |s| ==> s[j] >= 0
    ensures Sum(s) >= 0
  {
    if s != [] {
      SumNonNeg(s[1..]);
    }
  }

  // ---------------------------------------------------------------------------
  // Square matrices (the adjacency matrix of the dense draft)

  ghost predicate Square(m: seq<seq<int>>)
  {
    forall i :: 0 <= i < |m| ==> |m[i]| == |m|
  }

  ghost predicate Symmetric(m: seq<seq<int>>)
    requires Square(m)
  {
    forall i, j :: 0 <= i < |m| && 0 <= j < |m| ==> m[i][j] == m[j][i]
  }

  ghost predicate ZeroDiagonal(m: seq<seq<int>>)
    requires Square(m)
  {
    forall i :: 0 <= i < |m| ==> m[i][i] == 0
  }

  function RowSums(m: seq<seq<int>>): (r: seq<int>)
    ensures |r| == |m| && forall i :: 0 <= i < |m| ==> r[i] == Sum(m[i])
  {
    seq(|m|, i requires 0 <= i < |m| => Sum(m[i]))
  }

  /** Sum of all entries of a matrix. */
  function Total(m: seq<seq<int>>): int
  {
    Sum(RowSums(m))
  }

  /** The matrix of edge indicators. */
  function IndM(m: seq<seq<int>>): (r: seq<seq<int>>)
    ensures |r| == |m| && forall i :: 0 <= i < |m| ==> r[i] == Ind(m[i])
  {
    seq(|m|, i requires 0 <= i < |m| => Ind(m[i]))
  }

  /** Sum of the degrees of all vertices of an adjacency matrix. */
  function DegreeSum(m: seq<seq<int>>): int
  {
    Total(IndM(m))
  }

  function Column(m: seq<seq<int>>, k: nat): (r: seq<int>)
    requires Square(m) && k < |m|
    ensures |r| == |m| && forall i :: 0 <= i < |m| ==> r[i] == m[i][k]
  {
    seq(|m|, i requires 0 <= i < |m| => m[i][k])
  }

  lemma ColumnOfSymmetric(m: seq<seq<int>>, k: nat)
    requires Square(m) && Symmetric(m) && k < |m|
    ensures Column(m, k) == m[k]
  {
  }

  /** Delete row k and column k (remove_vertex on the matrix). */
  function RemoveVertexM(m: seq<seq<int>>, k: nat): (r: seq<seq<int>>)
    requires Square(m) && k < |m|
    ensures |r| == |m| - 1
    ensures forall i :: 0 <= i < |r| ==> r[i] == RemoveAt(m[if i < k then i else i + 1], k)
  {
    var rows := RemoveAt(m, k);
    seq(|rows|, i requires 0 <= i < |rows| => RemoveAt(rows[i], k))
  }

  /** Append a zero column and a zero row (add_vertex on the matrix). */
  function AddVertexM(m: seq<seq<int>>): (r: seq<seq<int>>)
    ensures |r| == |m| + 1
    ensures forall i :: 0 <= i < |m| ==> r[i] == m[i] + [0]
    ensures r[|m|] == Zeros(|m| + 1)
  {
    seq(|m|, i requires 0 <= i < |m| => m[i] + [0]) + [Zeros(|m| + 1)]
  }

  /** Set the entry (i, j) and its mirror (j, i) to x. */
  function SetPair(m: seq<seq<int>>, i: nat, j: nat, x: int): (r: seq<seq<int>>)
    requires Square(m) && i < |m| && j < |m|
    ensures |r| == |m|
  {
    var m1 := m[i := m[i][j := x]];
    m1[j := m1[j][i := x]]
  }

  lemma TotalUpdate(m: seq<seq<int>>, i: nat, j: nat, x: int)
    requires i < |m| && j < |m[i]|
    ensures Total(m[i := m[i][j := x]]) == Total(m) - m[i][j] + x
  {
    SumUpdate(m[i], j, x);
    assert RowSums(m[i := m[i][j := x]]) == RowSums(m)[i := Sum(m[i][j := x])];
    SumUpdate(RowSums(m), i, Sum(m[i][j := x]));
  }

  lemma TotalSetPair(m: seq<seq<int>>, i: nat, j: nat, x: int)
    requires Square(m) && Symmetric(m) && i < |m| && j < |m| && i != j
    ensures Total(SetPair(m, i, j, x)) == Total(m) - 2 * m[i][j] + 2 * x
  {
    var m1 := m[i := m[i][j := x]];
    TotalUpdate(m, i, j, x);
    TotalUpdate(m1, j, i, x);
  }

  lemma SetPairShape(m: seq<seq<int>>, i: nat, j: nat, x: int)
    requires Square(m) && Symmetric(m) && ZeroDiagonal(m) && i < |m| && j < |m| && i != j
    ensures var r := SetPair(m, i, j, x);
      Square(r) && Symmetric(r) && ZeroDiagonal(r) &&
      r[i][j] == x && r[j][i] == x &&
      (forall a, b :: 0 <= a < |m| && 0 <= b < |m| && !(a == i && b == j) && !(a == j && b == i) ==> r[a][b] == m[a][b])
  {
  }

  lemma IndSetPair(m: seq<seq<int>>, i: nat, j: nat, x: int)
    requires Square(m) && i < |m| && j < |m|
    ensures Square(IndM(m))
    ensures IndM(SetPair(m, i, j, x)) == SetPair(IndM(m), i, j, if x > 0 then 1 else 0)
  {
    var l := IndM(SetPair(m, i, j, x));
    var r := SetPair(IndM(m), i, j, if x > 0 then 1 else 0);
    assert |l| == |r|;
    forall a | 0 <= a < |l| ensures l[a] == r[a] {
      assert |l[a]| == |r[a]|;
    }
  }

  lemma IndShape(m: seq<seq<int>>)
    requires Square(m) && Symmetric(m) && ZeroDiagonal(m)
    ensures Square(IndM(m)) && Symmetric(IndM(m)) && ZeroDiagonal(IndM(m))
  {
  }

  /** Removing a vertex from a symmetric matrix removes its row's sum twice, its diagonal entry once. */
  lemma TotalRemoveVertex(m: seq<seq<int>>, k: nat)
    requires Square(m) && Symmetric(m) && k < |m|
    ensures Total(RemoveVertexM(m, k)) == Total(m) - 2 * Sum(m[k]) + m[k][k]
  {
    var rows := RemoveAt(m, k);
    var r := RemoveVertexM(m, k);
    // sum of the remaining rows, whole
    assert RowSums(rows) == RemoveAt(RowSums(m), k);
    SumRemoveAt(RowSums(m), k);
    // each remaining row loses its entry in column k
    var col := RemoveAt(Column(m, k), k);
    forall i | 0 <= i < |r|
      ensures RowSums(r)[i] == RowSums(rows)[i] - col[i]
    {
      SumRemoveAt(rows[i], k);
    }
    SumMinus(RowSums(rows), col, RowSums(r));
    SumRemoveAt(Column(m, k), k);
    ColumnOfSymmetric(m, k);
  }

  lemma RemoveVertexShape(m: seq<seq<int>>, k: nat)
    requires Square(m) && Symmetric(m) && ZeroDiagonal(m) && k < |m|
    ensures var r := RemoveVertexM(m, k);
      Square(r) && Symmetric(r) && ZeroDiagonal(r) &&
      forall a, b :: 0 <= a < |r| && 0 <= b < |r| ==>
        r[a][b] == m[if a < k then a else a + 1][if b < k then b else b + 1]
  {
  }

  lemma IndRemoveVertex(m: seq<seq<int>>, k: nat)
    requires Square(m) && k < |m|
    ensures Square(IndM(m)) && IndM(RemoveVertexM(m, k)) == RemoveVertexM(IndM(m), k)
  {
    var l := IndM(RemoveVertexM(m, k));
    var r := RemoveVertexM(IndM(m), k);
    forall a | 0 <= a < |l| ensures l[a] == r[a] {
      assert |l[a]| == |r[a]|;
    }
  }

  lemma TotalAddVertex(m: seq<seq<int>>)
    ensures Total(AddVertexM(m)) == Total(m)
  {
    var r := AddVertexM(m);
    forall i | 0 <= i < |m| ensures RowSums(r)[i] == RowSums(m)[i] {
      SumAppend(m[i], 0);
    }
    SumZeros(|m| + 1);
    assert RowSums(r) == RowSums(m) + [0];
    SumAppend(RowSums(m), 0);
  }

  lemma AddVertexShape(m: seq<seq<int>>)
    requires Square(m) && Symmetric(m) && ZeroDiagonal(m)
    ensures var r := AddVertexM(m);
      Square(r) && Symmetric(r) && ZeroDiagonal(r) &&
      (forall a, b :: 0 <= a < |m| && 0 <= b < |m| ==> r[a][b] == m[a][b]) &&
      (forall a :: 0 <= a <= |m| ==> r[a][|m|] == 0 && r[|m|][a] == 0)
  {
  }

  lemma IndAddVertex(m: seq<seq<int>>)
    ensures IndM(AddVertexM(m)) == AddVertexM(IndM(m))
  {
    var l := IndM(AddVertexM(m));
    var r := AddVertexM(IndM(m));
    forall a | 0 <= a < |l| ensures l[a] == r[a] {
      assert |l[a]| == |r[a]|;
    }
  }

  /** The diagonal of a square matrix (self-loops of an adjacency matrix). */
  function Diagonal(m: seq<seq<int>>): (r: seq<int>)
    requires Square(m)
    ensures |r| == |m| && forall i :: 0 <= i < |m| ==> r[i] == m[i][i]
  {
    seq(|m|, i requires 0 <= i < |m| => m[i][i])
  }

  function Trace(m: seq<seq<int>>): int
    requires Square(m)
  {
    Sum(Diagonal(m))
  }

  lemma TraceSetPair(m: seq<seq<int>>, i: nat, j: nat, x: int)
    requires Square(m) && i < |m| && j < |m|
    ensures Square(SetPair(m, i, j, x))
    ensures Trace(SetPair(m, i, j, x)) == if i == j then Trace(m) - m[i][i] + x else Trace(m)
  {
    var r := SetPair(m, i, j, x);
    if i == j {
      assert Diagonal(r) == Diagonal(m)[i := x];
      SumUpdate(Diagonal(m), i, x);
    } else {
      assert Diagonal(r) == Diagonal(m);
    }
  }

  lemma TraceRemoveVertex(m: seq<seq<int>>, k: nat)
    requires Square(m) && k < |m|
    ensures Square(RemoveVertexM(m, k))
    ensures Trace(RemoveVertexM(m, k)) == Trace(m) - m[k][k]
  {
    assert Diagonal(RemoveVertexM(m, k)) == RemoveAt(Diagonal(m), k);
    SumRemoveAt(Diagonal(m), k);
  }

  lemma TraceAddVertex(m: seq<seq<int>>)
    requires Square(m)
    ensures Square(AddVertexM(m))
    ensures Trace(AddVertexM(m)) == Trace(m)
  {
    assert Diagonal(AddVertexM(m)) == Diagonal(m) + [0];
    SumAppend(Diagonal(m), 0);
  }

  /** In a symmetric matrix every off-diagonal entry has a mirror image, so the
      off-diagonal part sums to an even number. */
  lemma {:induction false} OffDiagonalEven(m: seq<seq<int>>)
    requires Square(m) && Symmetric(m)
    ensures (Total(m) - Trace(m)) % 2 == 0
    decreases |m|
  {
    if |m| == 0 {
      assert RowSums(m) == [] && Diagonal(m) == [];
    } else {
      var k := |m| - 1;
      var r := RemoveVertexM(m, k);
      TotalRemoveVertex(m, k);
      TraceRemoveVertex(m, k);
      assert Square(r) && Symmetric(r) by {
        forall a, b | 0 <= a < |r| && 0 <= b < |r| ensures r[a][b] == m[a][b] == m[b][a] == r[b][a] {
        }
      }
      OffDiagonalEven(r);
    }
  }

  // ---------------------------------------------------------------------------
  // Duplicate-free sequences (the iteration order of a hash container)

  ghost predicate Distinct(s: seq<int>)
  {
    forall i, j :: 0 <= i < j < |s| ==> s[i] != s[j]
  }

  function Elems(s: seq<int>): (r: set<int>)
    ensures forall x :: x in r <==> x in s
  {
    set x | x in s
  }

  lemma {:induction false} DistinctCard(s: seq<int>)
    requires Distinct(s)
    ensures |Elems(s)| == |s|
  {
    if s != [] {
      assert Elems(s) == {s[0]} + Elems(s[1..]);
      assert s[0] !in Elems(s[1..]);
      DistinctCard(s[1..]);
    }
  }

  lemma SubsetCard(a: set<int>, b: set<int>)
    requires a <= b
    ensures |a| <= |b|
  {
    assert b == a + (b - a);
  }

  /** A duplicate-free sequence whose entries all occur in another
      duplicate-free sequence is no longer than it, and is a rearrangement of
      it when it has the same length. */
  lemma DistinctWithin(s: seq<int>, t: seq<int>)
    requires Distinct(s) && Distinct(t) && forall i :: 0 <= i < |s| ==> s[i] in t
    ensures |s| <= |t|
    ensures |s| == |t| ==> forall x :: x in t ==> x in s
  {
    DistinctCard(s);
    DistinctCard(t);
    assert Elems(s) <= Elems(t);
    SubsetCard(Elems(s), Elems(t));
    forall x | x in t && |s| == |t| ensures x in s {
      SubsetFull(Elems(s), Elems(t), x);
    }
  }

  /** A subset as large as its superset is all of it. */
  lemma SubsetFull(a: set<int>, b: set<int>, x: int)
    requires a <= b && |a| == |b| && x in b
    ensures x in a
  {
    if x !in a {
      SubsetCard(a, b - {x});
    }
  }
}
