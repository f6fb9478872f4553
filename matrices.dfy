/** Matrices as values, and the small in-place array operations the sampler
    uses on its working copies (numpy's copy, fill_diagonal, row and column
    assignment, flatnonzero). */
module Matrices {

  /** A dense integer matrix, row by row. */
  type Matrix = seq<seq<int>>

  predicate IsSquare(m: Matrix, k: nat)
  {
    |m| == k && forall i :: 0 <= i < k ==> |m[i]| == k
  }

  /** Every entry is 0 or 1. */
  predicate IsBinary(m: Matrix)
    requires IsSquare(m, |m|)
  {
    forall i, j :: 0 <= i < |m| && 0 <= j < |m| ==> m[i][j] == 0 || m[i][j] == 1
  }

  /** Two square matrices of one size with the same entries are equal. */
  lemma MatrixExt(m1: Matrix, m2: Matrix)
    requires IsSquare(m1, |m1|) && IsSquare(m2, |m1|)
    requires forall i, j :: 0 <= i < |m1| && 0 <= j < |m1| ==> m1[i][j] == m2[i][j]
    ensures m1 == m2
  {
    forall i | 0 <= i < |m1|
      ensures m1[i] == m2[i]
    {
      assert forall j :: 0 <= j < |m1| ==> m1[i][j] == m2[i][j];
    }
  }

  /** The value of a two-dimensional array. */
  function ToMatrix(a: array2<int>): (m: Matrix)
    reads a
    ensures |m| == a.Length0
    ensures forall i :: 0 <= i < |m| ==> |m[i]| == a.Length1
    ensures forall i, j :: 0 <= i < a.Length0 && 0 <= j < a.Length1 ==> m[i][j] == a[i, j]
  {
    seq(a.Length0, i requires 0 <= i < a.Length0 reads a =>
      seq(a.Length1, j requires 0 <= j < a.Length1 reads a => a[i, j]))
  }

  /** A fresh array holding a copy of a square matrix (numpy's copy). */
  method CopyToArray(m: Matrix) returns (a: array2<int>)
    requires IsSquare(m, |m|)
    ensures fresh(a)
    ensures a.Length0 == |m| && a.Length1 == |m|
    ensures ToMatrix(a) == m
  {
    var k := |m|;
    a := new int[k, k]((i, j) requires 0 <= i < k && 0 <= j < k => m[i][j]);
    MatrixExt(ToMatrix(a), m);
  }

  function RowOf(a: array2<int>, i: nat): (row: seq<int>)
    requires i < a.Length0
    reads a
    ensures |row| == a.Length1
    ensures forall j :: 0 <= j < a.Length1 ==> row[j] == a[i, j]
  {
    seq(a.Length1, j requires 0 <= j < a.Length1 reads a => a[i, j])
  }

  function ColumnOf(a: array2<int>, j: nat): (col: seq<int>)
    requires j < a.Length1
    reads a
    ensures |col| == a.Length0
    ensures forall i :: 0 <= i < a.Length0 ==> col[i] == a[i, j]
  {
    seq(a.Length0, i requires 0 <= i < a.Length0 reads a => a[i, j])
  }

  /** numpy's fill_diagonal(a, v) on a square array. */
  method FillDiagonal(a: array2<int>, v: int)
    requires a.Length0 == a.Length1
    modifies a
    ensures forall i, j :: 0 <= i < a.Length0 && 0 <= j < a.Length1 ==>
      a[i, j] == if i == j then v else old(a[i, j])
  {
    for k := 0 to a.Length0
      invariant forall i, j :: 0 <= i < a.Length0 && 0 <= j < a.Length1 ==>
        a[i, j] == if i == j && i < k then v else old(a[i, j])
    {
      a[k, k] := v;
    }
  }

  /** Overwrites row i with the given values. */
  method SetRow(a: array2<int>, i: nat, row: seq<int>)
    requires i < a.Length0 && |row| == a.Length1
    modifies a
    ensures forall x, y :: 0 <= x < a.Length0 && 0 <= y < a.Length1 ==>
      a[x, y] == if x == i then row[y] else old(a[x, y])
  {
    for c := 0 to a.Length1
      invariant forall x, y :: 0 <= x < a.Length0 && 0 <= y < a.Length1 ==>
        a[x, y] == if x == i && y < c then row[y] else old(a[x, y])
    {
      a[i, c] := row[c];
    }
  }

  /** Overwrites column j with the given values. */
  method SetColumn(a: array2<int>, j: nat, col: seq<int>)
    requires j < a.Length1 && |col| == a.Length0
    modifies a
    ensures forall x, y :: 0 <= x < a.Length0 && 0 <= y < a.Length1 ==>
      a[x, y] == if y == j then col[x] else old(a[x, y])
  {
    for r := 0 to a.Length0
      invariant forall x, y :: 0 <= x < a.Length0 && 0 <= y < a.Length1 ==>
        a[x, y] == if y == j && x < r then col[x] else old(a[x, y])
    {
      a[r, j] := col[r];
    }
  }

  predicate StrictlyIncreasing(s: seq<nat>)
  {
    forall p, q :: 0 <= p < q < |s| ==> s[p] < s[q]
  }

  /** numpy's flatnonzero: the indices of the nonzero entries, in order. */
  method FlatNonzero(row: seq<int>) returns (idx: seq<nat>)
    ensures StrictlyIncreasing(idx)
    ensures forall p :: 0 <= p < |idx| ==> idx[p] < |row|
    ensures forall j :: 0 <= j < |row| ==> (j in idx <==> row[j] != 0)
  {
    idx := [];
    for j := 0 to |row|
      invariant StrictlyIncreasing(idx)
      invariant forall p :: 0 <= p < |idx| ==> idx[p] < j
      invariant forall c :: 0 <= c < |row| ==> (c in idx <==> c < j && row[c] != 0)
    {
      if row[j] != 0 {
        idx := idx + [j];
      }
    }
  }

  /** A strictly increasing sequence of indices below n has at most n entries. */
  lemma {:induction false} IncreasingBelowIsShort(s: seq<nat>, n: nat)
    requires StrictlyIncreasing(s)
    requires forall p :: 0 <= p < |s| ==> s[p] < n
    ensures |s| <= n
  {
    if |s| > 0 {
      var init := s[..|s| - 1];
      assert forall p :: 0 <= p < |init| ==> init[p] < s[|s| - 1];
      IncreasingBelowIsShort(init, s[|s| - 1]);
    }
  }

  /** Two strictly increasing sequences with the same members are equal. */
  lemma {:induction false} IncreasingUnique(s: seq<nat>, t: seq<nat>)
    requires StrictlyIncreasing(s) && StrictlyIncreasing(t)
    requires forall x :: x in s <==> x in t
    ensures s == t
  {
    // a non-empty one shares its head with the other, so both are empty or neither is
    assert s != [] ==> s[0] in t;
    assert t != [] ==> t[0] in s;
    if s != [] && t != [] {
      assert s[0] == t[0] by {
        assert forall p :: 0 < p < |s| ==> s[0] < s[p];
        assert forall p :: 0 < p < |t| ==> t[0] < t[p];
        assert s[0] in t && t[0] in s;
      }
      assert s == [s[0]] + s[1..];
      assert t == [t[0]] + t[1..];
      forall x
        ensures x in s[1..] <==> x in t[1..]
      {
        if x in s[1..] {
          var p :| 0 <= p < |s[1..]| && s[1..][p] == x;
          assert s[p + 1] == x && s[0] < s[p + 1];
          assert x in t;
        }
        if x in t[1..] {
          var p :| 0 <= p < |t[1..]| && t[1..][p] == x;
          assert t[p + 1] == x && t[0] < t[p + 1];
          assert x in s;
        }
      }
      IncreasingUnique(s[1..], t[1..]);
    }
  }
}
