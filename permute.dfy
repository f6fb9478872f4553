/** The tree proposal operator permute_adj (tree_sampler.py:84-131) with the
    node pair (A, B) given instead of drawn. */
module Permute {
  import opened Matrices
  import opened Trees

  /** The transposition of node labels a and b. */
  function Swap(x: nat, a: nat, b: nat): nat
  {
    if x == a then b else if x == b then a else x
  }

  /** The tree with the labels a and b exchanged (rows and columns swapped). */
  function Relabel(m: Matrix, a: nat, b: nat): (r: Matrix)
    requires IsSquare(m, |m|) && a < |m| && b < |m|
    ensures IsSquare(r, |m|)
  {
    seq(|m|, i requires 0 <= i < |m| =>
      seq(|m|, j requires 0 <= j < |m| => m[Swap(i, a, b)][Swap(j, a, b)]))
  }

  /** The tree with b re-hung below a: column b holds only b itself and a. */
  function Moved(m: Matrix, a: nat, b: nat): (r: Matrix)
    requires IsSquare(m, |m|) && a < |m| && b < |m|
    ensures IsSquare(r, |m|)
  {
    seq(|m|, i requires 0 <= i < |m| =>
      seq(|m|, j requires 0 <= j < |m| =>
        if j == b then (if i == a || i == b then 1 else 0) else m[i][j]))
  }

  /** What permute_adj returns for the pair (a, b). */
  ghost function PermuteSpec(m: Matrix, a: nat, b: nat): (r: Matrix)
    requires IsSquare(m, |m|) && a < |m| && b < |m|
    ensures IsSquare(r, |m|)
  {
    if b == 0 && Anc(m, b, a) then m
    else if Anc(m, b, a) then Relabel(m, a, b)
    else Moved(m, a, b)
  }

  // ---------------------------------------------------------------------------
  // Properties of the three cases

  /** Choosing the root as B leaves the tree unchanged. */
  lemma PermuteRootIsNoOp(m: Matrix, a: nat)
    requires IsTree(m) && 0 < a < |m|
    ensures PermuteSpec(m, a, 0) == m
  {
    assert Anc(m, 0, a);
  }

  /** tree_sampler.py:108: when B is a strict ancestor of A, A is neither an
      ancestor nor the parent of B. */
  lemma SwapCaseAssertion(m: Matrix, a: nat, b: nat)
    requires IsTree(m) && a < |m| && b < |m| && a != b && Anc(m, b, a)
    ensures !Anc(m, a, b) && m[a][b] == 0
  {
    if Anc(m, a, b) {
      AncAntisymmetric(m, a, b);
    }
    if m[a][b] == 1 {
      EdgeIsParent(m, a, b);
      ParentIsAnc(m, b);
      AncAntisymmetric(m, a, b);
    }
  }

  lemma ParentOfRelabel(m: Matrix, a: nat, b: nat, x: nat)
    requires IsTree(m) && 0 < a < |m| && 0 < b < |m| && x < |m|
    ensures Parent(Relabel(m, a, b), x) == Swap(Parent(m, Swap(x, a, b)), a, b)
  {
    var r := Relabel(m, a, b);
    var y := Swap(x, a, b);
    var p := Parent(m, y);
    var q := Parent(r, x);
    if y == 0 {
      assert x == 0 && p == 0;
    } else {
      assert p != y && m[p][y] == 1;
      assert r[Swap(p, a, b)][x] == 1;
      if q != x {
        assert r[q][x] == m[Swap(q, a, b)][y];
      }
    }
  }

  lemma {:induction false} WalkOfRelabel(m: Matrix, a: nat, b: nat, x: nat, n: nat)
    requires IsTree(m) && 0 < a < |m| && 0 < b < |m| && x < |m|
    ensures Walk(Relabel(m, a, b), x, n) == Swap(Walk(m, Swap(x, a, b), n), a, b)
    decreases n
  {
    if n > 0 {
      ParentOfRelabel(m, a, b, x);
      WalkOfRelabel(m, a, b, Parent(Relabel(m, a, b), x), n - 1);
    }
  }

  /** Under the exchange of two non-root labels every non-root node keeps
      exactly one parent. */
  lemma RelabelParents(m: Matrix, a: nat, b: nat)
    requires IsTree(m) && 0 < a < |m| && 0 < b < |m|
    ensures var r := Relabel(m, a, b);
      && (forall j :: 0 < j < |m| ==> Parent(r, j) != j)
      && (forall i, j :: 0 <= i < |m| && 0 < j < |m| && i != j && i != Parent(r, j) ==> r[i][j] == 0)
  {
    var r := Relabel(m, a, b);
    var k := |m|;
    forall j | 0 < j < k
      ensures Parent(r, j) != j
    {
      ParentOfRelabel(m, a, b, j);
    }
    forall i, j | 0 <= i < k && 0 < j < k && i != j && i != Parent(r, j)
      ensures r[i][j] == 0
    {
      ParentOfRelabel(m, a, b, j);
    }
  }

  /** Under the exchange of two non-root labels every node still hangs below the root. */
  lemma RelabelRooted(m: Matrix, a: nat, b: nat)
    requires IsTree(m) && 0 < a < |m| && 0 < b < |m|
    ensures forall j :: 0 <= j < |m| ==> Anc(Relabel(m, a, b), 0, j)
  {
    forall j | 0 <= j < |m|
      ensures Anc(Relabel(m, a, b), 0, j)
    {
      assert Anc(m, 0, Swap(j, a, b));
      var n: nat :| Walk(m, Swap(j, a, b), n) == 0;
      WalkOfRelabel(m, a, b, j, n);
    }
  }

  /** Exchanging two non-root labels of a tree gives a tree. */
  lemma RelabelIsTree(m: Matrix, a: nat, b: nat)
    requires IsTree(m) && 0 < a < |m| && 0 < b < |m|
    ensures IsTree(Relabel(m, a, b))
  {
    var r := Relabel(m, a, b);
    assert forall i, j :: 0 <= i < |m| && 0 <= j < |m| ==> r[i][j] == m[Swap(i, a, b)][Swap(j, a, b)];
    RelabelParents(m, a, b);
    RelabelRooted(m, a, b);
  }

  lemma ParentOfMoved(m: Matrix, a: nat, b: nat, x: nat)
    requires IsSquare(m, |m|) && a < |m| && b < |m| && a != b && x < |m|
    ensures Parent(Moved(m, a, b), x) == if x == b then a else Parent(m, x)
  {
    var r := Moved(m, a, b);
    var q := Parent(r, x);
    if x == b {
      assert r[a][b] == 1;
    } else {
      var p := Parent(m, x);
      assert forall i :: 0 <= i < |m| ==> r[i][x] == m[i][x];
    }
  }

  /** A walk that never meets b is the same before and after the move. */
  lemma {:induction false} WalkOfMovedAvoiding(m: Matrix, a: nat, b: nat, x: nat, n: nat)
    requires IsSquare(m, |m|) && a < |m| && b < |m| && a != b && x < |m|
    requires forall t: nat :: t <= n ==> Walk(m, x, t) != b
    ensures Walk(Moved(m, a, b), x, n) == Walk(m, x, n)
    decreases n
  {
    if n > 0 {
      assert Walk(m, x, 0) != b;
      ParentOfMoved(m, a, b, x);
      forall t: nat | t <= n - 1
        ensures Walk(m, Parent(m, x), t) != b
      {
        assert Walk(m, x, t + 1) != b;
      }
      WalkOfMovedAvoiding(m, a, b, Parent(m, x), n - 1);
    }
  }

  /** After the move every node still reaches the root. */
  lemma {:induction false} MovedReachesRoot(m: Matrix, a: nat, b: nat, x: nat, n: nat)
    requires IsTree(m) && a < |m| && b < |m| && a != b && x < |m| && !Anc(m, b, a)
    requires Walk(m, x, n) == 0
    ensures Anc(Moved(m, a, b), 0, x)
    decreases n
  {
    var r := Moved(m, a, b);
    if x == b {
      assert Anc(m, 0, a);
      var na: nat :| Walk(m, a, na) == 0;
      assert forall t: nat :: t <= na ==> Walk(m, a, t) != b;
      WalkOfMovedAvoiding(m, a, b, a, na);
      ParentOfMoved(m, a, b, b);
      assert Walk(r, b, na + 1) == 0;
    } else if n > 0 {
      ParentOfMoved(m, a, b, x);
      MovedReachesRoot(m, a, b, Parent(m, x), n - 1);
      var n': nat :| Walk(r, Parent(m, x), n') == 0;
      assert Walk(r, x, n' + 1) == 0;
    } else {
      assert Walk(r, x, 0) == 0;
    }
  }

  /** Re-hanging b below a node that b is not an ancestor of gives a tree in which
      a is b's only parent. */
  lemma MovedIsTree(m: Matrix, a: nat, b: nat)
    requires IsTree(m) && a < |m| && b < |m| && a != b && !Anc(m, b, a)
    ensures IsTree(Moved(m, a, b))
    ensures Parent(Moved(m, a, b), b) == a
  {
    var r := Moved(m, a, b);
    var k := |m|;
    assert b != 0;
    forall j | 0 < j < k
      ensures Parent(r, j) != j
    {
      ParentOfMoved(m, a, b, j);
    }
    forall i, j | 0 <= i < k && 0 < j < k && i != j && i != Parent(r, j)
      ensures r[i][j] == 0
    {
      ParentOfMoved(m, a, b, j);
    }
    forall j | 0 <= j < k
      ensures Anc(r, 0, j)
    {
      assert Anc(m, 0, j);
      var n: nat :| Walk(m, j, n) == 0;
      MovedReachesRoot(m, a, b, j, n);
    }
    ParentOfMoved(m, a, b, b);
  }

  /** permute_adj maps valid trees to valid trees that pass its own shape test. */
  lemma PermutePreservesTree(m: Matrix, a: nat, b: nat)
    requires IsTree(m) && a < |m| && b < |m| && a != b
    ensures IsTree(PermuteSpec(m, a, b))
    ensures ShapeOk(PermuteSpec(m, a, b))
  {
    if b == 0 && Anc(m, b, a) {
    } else if Anc(m, b, a) {
      if a == 0 {
        AncOfRoot(m, b);
      }
      RelabelIsTree(m, a, b);
    } else {
      MovedIsTree(m, a, b);
    }
    TreeShapeOk(PermuteSpec(m, a, b));
  }

  /** Move case (B not an ancestor of A): A becomes B's only parent and every
      other column is unchanged. */
  lemma PermuteMoveCase(m: Matrix, a: nat, b: nat)
    requires IsTree(m) && a < |m| && b < |m| && a != b && !Anc(m, b, a)
    ensures var r := PermuteSpec(m, a, b);
      && Parent(r, b) == a
      && (forall i :: 0 <= i < |m| ==> (r[i][b] == 1 <==> i == a || i == b))
      && (forall i, j :: 0 <= i < |m| && 0 <= j < |m| && j != b ==> r[i][j] == m[i][j])
  {
    MovedIsTree(m, a, b);
  }

  /** Swap case (B a strict ancestor of A, B not the root): A and B trade places,
      each taking the other's parent and children; when B was A's parent, A
      becomes B's parent. */
  lemma PermuteSwapCase(m: Matrix, a: nat, b: nat)
    requires IsTree(m) && a < |m| && 0 < b < |m| && a != b && Anc(m, b, a)
    ensures var r := PermuteSpec(m, a, b);
      && (forall x :: 0 <= x < |m| ==> Parent(r, x) == Swap(Parent(m, Swap(x, a, b)), a, b))
      && r[a][b] == m[b][a]
      && r[b][a] == 0
  {
    if a == 0 {
      AncOfRoot(m, b);
    }
    SwapCaseAssertion(m, a, b);
    forall x | 0 <= x < |m|
      ensures Parent(Relabel(m, a, b), x) == Swap(Parent(m, Swap(x, a, b)), a, b)
    {
      ParentOfRelabel(m, a, b, x);
    }
  }

  // ---------------------------------------------------------------------------
  // The operator itself, on a working copy of the matrix

  /** tree_sampler.py:107-120 on the working copy (diagonal already zeroed):
      clear B -> A, exchange rows A and B and columns A and B, restore A -> B.
      The net effect is the relabelling A <-> B. */
  method SwapNodes(a: array2<int>, A: nat, B: nat)
    requires a.Length0 == a.Length1 && A < a.Length0 && B < a.Length0 && A != B
    requires a[A, A] == 0 && a[B, B] == 0 && a[A, B] == 0
    requires a[B, A] == 0 || a[B, A] == 1
    modifies a
    ensures forall i, j :: 0 <= i < a.Length0 && 0 <= j < a.Length0 ==>
      a[i, j] == old(a[Swap(i, A, B), Swap(j, A, B)])
  {
    ghost var z := ToMatrix(a);
    var adjBA := a[B, A];
    if adjBA != 0 {
      a[B, A] := 0;
    }
    var acol, bcol := ColumnOf(a, A), ColumnOf(a, B);
    var arow, brow := RowOf(a, A), RowOf(a, B);
    SetRow(a, A, brow);
    SetRow(a, B, arow);
    SetColumn(a, A, bcol);
    SetColumn(a, B, acol);
    if adjBA != 0 {
      a[A, B] := 1;
    }
    forall i, j | 0 <= i < a.Length0 && 0 <= j < a.Length0
      ensures a[i, j] == z[Swap(i, A, B)][Swap(j, A, B)]
    {
      if j == A {
        assert a[i, j] == (if i == B then 0 else z[i][B]);
      } else if j == B {
        assert a[i, j] == (if i == A then z[B][A] else if i == B then 0 else z[i][A]);
      } else {
        assert a[i, j] == z[Swap(i, A, B)][j];
      }
    }
  }

  /** tree_sampler.py:124-126 on the working copy: clear column B, then set A -> B. */
  method MoveNode(a: array2<int>, A: nat, B: nat)
    requires a.Length0 == a.Length1 && A < a.Length0 && B < a.Length0
    modifies a
    ensures forall i, j :: 0 <= i < a.Length0 && 0 <= j < a.Length0 ==>
      a[i, j] == if j == B then (if i == A then 1 else 0) else old(a[i, j])
  {
    SetColumn(a, B, seq(a.Length0, _ => 0));
    a[A, B] := 1;
  }

  /** tree_sampler.py:99-129 once the ancestry test anc[B, A] is known. */
  method EditCopy(adj: Matrix, A: nat, B: nat, ancBA: bool) returns (r: Matrix)
    requires IsSquare(adj, |adj|) && A < |adj| && B < |adj| && A != B
    requires IsBinary(adj) && forall i :: 0 <= i < |adj| ==> adj[i][i] == 1
    requires ancBA ==> adj[A][B] == 0
    ensures r == if B == 0 && ancBA then adj else if ancBA then Relabel(adj, A, B) else Moved(adj, A, B)
  {
    var k := |adj|;
    var a := CopyToArray(adj);
    if B == 0 && ancBA {
      r := ToMatrix(a);
      return;
    }
    FillDiagonal(a, 0);
    if ancBA {
      SwapNodes(a, A, B);
      FillDiagonal(a, 1);
      r := ToMatrix(a);
      MatrixExt(r, Relabel(adj, A, B));
    } else {
      MoveNode(a, A, B);
      FillDiagonal(a, 1);
      r := ToMatrix(a);
      MatrixExt(r, Moved(adj, A, B));
    }
  }

  /** permute_adj(adj) with the draw (A, B) given: copies the tree, then either
      returns it unchanged (B is the root), swaps A and B, or moves B under A. */
  method PermuteAdj(adj: Matrix, A: nat, B: nat) returns (r: Matrix)
    requires IsTree(adj) && A < |adj| && B < |adj| && A != B
    ensures r == PermuteSpec(adj, A, B)
    ensures IsTree(r)
  {
    // tree_sampler.py:88-93
    TreeShapeOk(adj);
    assert ShapeOk(adj);
    var anc := AncestralMatrix(adj);
    var ancBA := anc[B][A] == 1;
    if ancBA {
      // tree_sampler.py:108
      SwapCaseAssertion(adj, A, B);
      assert anc[A][B] == 0 && adj[A][B] == 0;
    }
    r := EditCopy(adj, A, B, ancBA);
    PermutePreservesTree(adj, A, B);
  }
}
