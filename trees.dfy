/** Cluster trees as K x K 0/1 adjacency matrices: entry (i, j) with i != j
    is 1 when i is the parent of j, the diagonal is all 1, and node 0 is the
    root. The ancestral closure (common.make_ancestral_from_adj, which is not
    part of this model) is defined here as the reflexive-transitive closure
    of the parent relation. */
module Trees {
  import opened Matrices

  /** The first row p >= from, p != j, with m[p][j] == 1; j itself if there is none. */
  function ScanParent(m: Matrix, j: nat, from: nat): (p: nat)
    requires IsSquare(m, |m|) && j < |m| && from <= |m|
    ensures p < |m|
    ensures p == j ==> forall i :: from <= i < |m| && i != j ==> m[i][j] != 1
    ensures p != j ==> from <= p && m[p][j] == 1 && forall i :: from <= i < p && i != j ==> m[i][j] != 1
    decreases |m| - from
  {
    if from == |m| then j
    else if from != j && m[from][j] == 1 then from
    else ScanParent(m, j, from + 1)
  }

  /** The parent of node j: the first off-diagonal 1 in column j, or j itself when
      the column has none (the root). */
  function Parent(m: Matrix, j: nat): (p: nat)
    requires IsSquare(m, |m|) && j < |m|
    ensures p < |m|
    ensures p == j ==> forall i :: 0 <= i < |m| && i != j ==> m[i][j] != 1
    ensures p != j ==> m[p][j] == 1 && forall i :: 0 <= i < p && i != j ==> m[i][j] != 1
  {
    ScanParent(m, j, 0)
  }

  /** The node reached from j after n parent steps. */
  function Walk(m: Matrix, j: nat, n: nat): (r: nat)
    requires IsSquare(m, |m|) && j < |m|
    ensures r < |m|
    decreases n
  {
    if n == 0 then j else Walk(m, Parent(m, j), n - 1)
  }

  /** a is an ancestor of j (or j itself): some walk up from j reaches a. */
  ghost predicate Anc(m: Matrix, a: nat, j: nat)
    requires IsSquare(m, |m|) && j < |m|
  {
    exists n: nat :: Walk(m, j, n) == a
  }

  /** a is a strict ancestor of j: the closure with the diagonal zeroed. */
  ghost predicate StrictAnc(m: Matrix, a: nat, j: nat)
    requires IsSquare(m, |m|) && j < |m|
  {
    a != j && Anc(m, a, j)
  }

  /** A valid cluster tree: a single-root arborescence rooted at node 0. */
  ghost predicate IsTree(m: Matrix)
  {
    var k := |m|;
    && k >= 1
    && IsSquare(m, k)
    && IsBinary(m)
    && (forall i :: 0 <= i < k ==> m[i][i] == 1)
    // the root has no parent
    && (forall i :: 0 < i < k ==> m[i][0] == 0)
    // every other node has exactly one parent
    && (forall j :: 0 < j < k ==> Parent(m, j) != j)
    && (forall i, j :: 0 <= i < k && 0 < j < k && i != j && i != Parent(m, j) ==> m[i][j] == 0)
    // and every node hangs below the root (no cycles)
    && (forall j :: 0 <= j < k ==> Anc(m, 0, j))
  }

  // ---------------------------------------------------------------------------
  // The shape test of tree_sampler.py:88-93

  /** Sum of column j over rows 0..n-1. */
  function ColSumUpTo(m: Matrix, j: nat, n: nat): int
    requires IsSquare(m, |m|) && j < |m| && n <= |m|
  {
    if n == 0 then 0 else ColSumUpTo(m, j, n - 1) + m[n - 1][j]
  }

  function ColSum(m: Matrix, j: nat): int
    requires IsSquare(m, |m|) && j < |m|
  {
    ColSumUpTo(m, j, |m|)
  }

  /** Sum of all entries of columns 0..c-1. */
  function SumUpTo(m: Matrix, c: nat): int
    requires IsSquare(m, |m|) && c <= |m|
  {
    if c == 0 then 0 else SumUpTo(m, c - 1) + ColSum(m, c - 1)
  }

  /** How many of the columns 0..c-1 sum to v. */
  function CountColumns(m: Matrix, v: int, c: nat): nat
    requires IsSquare(m, |m|) && c <= |m|
  {
    if c == 0 then 0 else CountColumns(m, v, c - 1) + (if ColSum(m, c - 1) == v then 1 else 0)
  }

  /** The assertions of permute_adj: all-1 diagonal, total K + (K - 1), and the
      sorted column sums equal [1, 2, ..., 2] (one column sums to 1, the other
      K - 1 to 2). */
  predicate ShapeOk(m: Matrix)
    requires IsSquare(m, |m|)
  {
    && (forall i :: 0 <= i < |m| ==> m[i][i] == 1)
    && SumUpTo(m, |m|) == |m| + (|m| - 1)
    && CountColumns(m, 1, |m|) == 1
    && CountColumns(m, 2, |m|) == |m| - 1
  }

  lemma {:induction false} TreeColSumUpTo(m: Matrix, j: nat, n: nat)
    requires IsTree(m) && j < |m| && n <= |m|
    ensures ColSumUpTo(m, j, n) == (if j < n then 1 else 0) + (if j > 0 && Parent(m, j) < n then 1 else 0)
  {
    if n > 0 {
      TreeColSumUpTo(m, j, n - 1);
      var i := n - 1;
      if j > 0 && i != j && i == Parent(m, j) {
        assert m[i][j] == 1;
      } else if i != j {
        assert m[i][j] == 0;
      }
    }
  }

  /** In a tree the root column sums to 1 and every other column to 2. */
  lemma TreeColSum(m: Matrix, j: nat)
    requires IsTree(m) && j < |m|
    ensures ColSum(m, j) == if j == 0 then 1 else 2
  {
    TreeColSumUpTo(m, j, |m|);
  }

  lemma {:induction false} TreeSumAndCounts(m: Matrix, c: nat)
    requires IsTree(m) && 1 <= c <= |m|
    ensures SumUpTo(m, c) == 2 * c - 1
    ensures CountColumns(m, 1, c) == 1
    ensures CountColumns(m, 2, c) == c - 1
  {
    TreeColSum(m, c - 1);
    if c > 1 {
      TreeSumAndCounts(m, c - 1);
    } else {
      assert SumUpTo(m, 0) == 0 && CountColumns(m, 1, 0) == 0 && CountColumns(m, 2, 0) == 0;
    }
  }

  /** Every valid tree passes the shape test of permute_adj. */
  lemma TreeShapeOk(m: Matrix)
    requires IsTree(m)
    ensures ShapeOk(m)
  {
    TreeSumAndCounts(m, |m|);
  }

  // ---------------------------------------------------------------------------
  // Walks and ancestry

  lemma {:induction false} WalkSucc(m: Matrix, j: nat, n: nat)
    requires IsSquare(m, |m|) && j < |m|
    ensures Walk(m, j, n + 1) == Parent(m, Walk(m, j, n))
    decreases n
  {
    if n > 0 {
      WalkSucc(m, Parent(m, j), n - 1);
    }
  }

  lemma {:induction false} WalkAdd(m: Matrix, j: nat, n1: nat, n2: nat)
    requires IsSquare(m, |m|) && j < |m|
    ensures Walk(m, j, n1 + n2) == Walk(m, Walk(m, j, n1), n2)
    decreases n1
  {
    if n1 > 0 {
      WalkAdd(m, Parent(m, j), n1 - 1, n2);
    }
  }

  /** The root is its own parent, so walks stay there. */
  lemma {:induction false} WalkFromRoot(m: Matrix, n: nat)
    requires IsTree(m)
    ensures Walk(m, 0, n) == 0
  {
    if n > 0 {
      assert Parent(m, 0) == 0;
      WalkFromRoot(m, n - 1);
    }
  }

  lemma WalkPastRoot(m: Matrix, j: nat, n: nat, t: nat)
    requires IsTree(m) && j < |m| && Walk(m, j, n) == 0 && n <= t
    ensures Walk(m, j, t) == 0
  {
    WalkAdd(m, j, n, t - n);
    WalkFromRoot(m, t - n);
  }

  /** A walk that returns to b after p >= 1 steps returns to b arbitrarily late. */
  lemma {:induction false} WalkReturns(m: Matrix, b: nat, p: nat, t: nat) returns (s: nat)
    requires IsSquare(m, |m|) && b < |m| && p >= 1 && Walk(m, b, p) == b
    ensures s >= t && Walk(m, b, s) == b
  {
    if t == 0 {
      s := 0;
    } else {
      var s0 := WalkReturns(m, b, p, t - 1);
      WalkAdd(m, b, s0, p);
      s := s0 + p;
    }
  }

  /** Ancestry is antisymmetric in a tree: there are no cycles. */
  lemma AncAntisymmetric(m: Matrix, a: nat, b: nat)
    requires IsTree(m) && a < |m| && b < |m|
    requires Anc(m, a, b) && Anc(m, b, a)
    ensures a == b
  {
    var n1: nat :| Walk(m, b, n1) == a;
    var n2: nat :| Walk(m, a, n2) == b;
    WalkAdd(m, b, n1, n2);
    if n1 + n2 > 0 {
      assert Anc(m, 0, b);
      var r: nat :| Walk(m, b, r) == 0;
      var s := WalkReturns(m, b, n1 + n2, r);
      WalkPastRoot(m, b, r, s);
      WalkFromRoot(m, n1);
    }
  }

  /** The root is the only ancestor of the root. */
  lemma AncOfRoot(m: Matrix, a: nat)
    requires IsTree(m) && a < |m| && Anc(m, a, 0)
    ensures a == 0
  {
    var n: nat :| Walk(m, 0, n) == a;
    WalkFromRoot(m, n);
  }

  /** A parent is an ancestor. */
  lemma ParentIsAnc(m: Matrix, j: nat)
    requires IsSquare(m, |m|) && j < |m|
    ensures Anc(m, Parent(m, j), j)
  {
    assert Walk(m, j, 1) == Parent(m, j);
  }

  /** In a tree an off-diagonal 1 at (a, b) makes a the parent of b. */
  lemma EdgeIsParent(m: Matrix, a: nat, b: nat)
    requires IsTree(m) && a < |m| && b < |m| && a != b && m[a][b] == 1
    ensures b != 0 && Parent(m, b) == a
  {
  }

  // ---------------------------------------------------------------------------
  // The ancestral closure as a matrix

  /** a is among the first n + 1 nodes of the walk up from j. */
  ghost predicate OnWalk(m: Matrix, j: nat, a: nat, n: nat)
    requires IsSquare(m, |m|) && j < |m|
  {
    Walk(m, j, n) == a || (n > 0 && OnWalk(m, j, a, n - 1))
  }

  lemma {:induction false} OnWalkFrom(m: Matrix, j: nat, a: nat, n: nat, s: nat)
    requires IsSquare(m, |m|) && j < |m| && n <= s && Walk(m, j, n) == a
    ensures OnWalk(m, j, a, s)
    decreases s
  {
    if n < s {
      OnWalkFrom(m, j, a, n, s - 1);
    }
  }

  lemma {:induction false} OnWalkIsAnc(m: Matrix, j: nat, a: nat, s: nat)
    requires IsSquare(m, |m|) && j < |m| && OnWalk(m, j, a, s)
    ensures Anc(m, a, j)
    decreases s
  {
    if Walk(m, j, s) != a {
      OnWalkIsAnc(m, j, a, s - 1);
    }
  }

  /** Once the walk up from j has reached the root, it has met all of j's ancestors. */
  lemma WalkToRootHasAllAnc(m: Matrix, j: nat, a: nat, s: nat)
    requires IsTree(m) && j < |m| && a < |m| && Walk(m, j, s) == 0
    ensures Anc(m, a, j) <==> OnWalk(m, j, a, s)
  {
    if Anc(m, a, j) {
      var n: nat :| Walk(m, j, n) == a;
      if n <= s {
        OnWalkFrom(m, j, a, n, s);
      } else {
        WalkPastRoot(m, j, s, n);
      }
    }
    if OnWalk(m, j, a, s) {
      OnWalkIsAnc(m, j, a, s);
    }
  }

  /** make_ancestral_from_adj: entry (a, j) is 1 iff a is j or an ancestor of j.
      Column j is filled by walking up from j to the root. */
  method AncestralMatrix(m: Matrix) returns (anc: Matrix)
    requires IsTree(m)
    ensures IsSquare(anc, |m|) && IsBinary(anc)
    ensures forall a, j :: 0 <= a < |m| && 0 <= j < |m| ==> (anc[a][j] == 1 <==> Anc(m, a, j))
  {
    var k := |m|;
    var t := new int[k, k]((i, j) => 0);
    for j := 0 to k
      invariant forall a, c :: 0 <= a < k && 0 <= c < k ==>
        t[a, c] == if c < j && Anc(m, a, c) then 1 else 0
    {
      assert Anc(m, 0, j);
      ghost var rest: nat :| Walk(m, j, rest) == 0;
      ghost var steps: nat := 0;
      var x := j;
      t[x, j] := 1;
      while x != 0
        invariant x == Walk(m, j, steps) && steps <= rest
        invariant forall a, c :: 0 <= a < k && 0 <= c < k ==>
          t[a, c] == if c < j && Anc(m, a, c) then 1
                     else if c == j && OnWalk(m, j, a, steps) then 1
                     else 0
        decreases rest - steps
      {
        if steps == rest {
          assert false;
        }
        WalkSucc(m, j, steps);
        x := Parent(m, x);
        steps := steps + 1;
        t[x, j] := 1;
      }
      forall a | 0 <= a < k
        ensures OnWalk(m, j, a, steps) <==> Anc(m, a, j)
      {
        WalkToRootHasAllAnc(m, j, a, steps);
      }
    }
    anc := ToMatrix(t);
  }
}
