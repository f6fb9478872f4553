/** The initial-tree constructors init_cluster_adj_linear, _branching and
    _random (tree_sampler.py:61-82). The random parent draws are an input. */
module TreeInit {
  import opened Matrices
  import opened Trees

  /** Draws for init_cluster_adj_random: parents[idx - 1] is the parent of node
      idx, drawn from 0..idx-1. */
  predicate ValidParents(k: nat, parents: seq<nat>)
  {
    && |parents| == (if k == 0 then 0 else k - 1)
    && forall idx :: 0 <= idx < |parents| ==> parents[idx] < idx + 1
  }

  /** The identity plus the edge parents[j - 1] -> j for every node j >= 1. */
  function ParentsTree(k: nat, parents: seq<nat>): (m: Matrix)
    requires ValidParents(k, parents)
    ensures IsSquare(m, k)
  {
    seq(k, i requires 0 <= i < k =>
      seq(k, j requires 0 <= j < k =>
        if i == j || (j >= 1 && parents[j - 1] == i) then 1 else 0))
  }

  /** The chain 0 -> 1 -> ... -> k-1. */
  function LinearTree(k: nat): (m: Matrix)
    ensures IsSquare(m, k)
  {
    seq(k, i requires 0 <= i < k =>
      seq(k, j requires 0 <= j < k => if i == j || j == i + 1 then 1 else 0))
  }

  /** 0 -> 1, and 1 -> j for every j >= 2. */
  function BranchingTree(k: nat): (m: Matrix)
    ensures IsSquare(m, k)
  {
    seq(k, i requires 0 <= i < k =>
      seq(k, j requires 0 <= j < k =>
        if i == j || (i == 0 && j == 1) || (i == 1 && j >= 2) then 1 else 0))
  }

  lemma ParentOfParentsTree(k: nat, parents: seq<nat>, j: nat)
    requires ValidParents(k, parents) && j < k
    ensures Parent(ParentsTree(k, parents), j) == if j == 0 then 0 else parents[j - 1]
  {
    var m := ParentsTree(k, parents);
    if j > 0 {
      assert m[parents[j - 1]][j] == 1;
    }
  }

  lemma {:induction false} ParentsTreeReachesRoot(k: nat, parents: seq<nat>, j: nat)
    requires ValidParents(k, parents) && j < k
    ensures Anc(ParentsTree(k, parents), 0, j)
    decreases j
  {
    var m := ParentsTree(k, parents);
    if j == 0 {
      assert Walk(m, 0, 0) == 0;
    } else {
      ParentOfParentsTree(k, parents, j);
      ParentsTreeReachesRoot(k, parents, parents[j - 1]);
      var n: nat :| Walk(m, parents[j - 1], n) == 0;
      assert Walk(m, j, n + 1) == 0;
    }
  }

  /** Any parent choice with parent(idx) < idx gives a tree rooted at 0 whose
      parents are exactly the drawn ones. */
  lemma ParentsTreeIsTree(k: nat, parents: seq<nat>)
    requires ValidParents(k, parents) && k >= 1
    ensures IsTree(ParentsTree(k, parents))
    ensures forall j :: 0 < j < k ==> Parent(ParentsTree(k, parents), j) == parents[j - 1]
  {
    var m := ParentsTree(k, parents);
    forall j | 0 <= j < k
      ensures Parent(m, j) == if j == 0 then 0 else parents[j - 1]
    {
      ParentOfParentsTree(k, parents, j);
    }
    forall j | 0 <= j < k
      ensures Anc(m, 0, j)
    {
      ParentsTreeReachesRoot(k, parents, j);
    }
  }

  /** The linear tree is a tree, and the parent of node k is k - 1. */
  lemma LinearIsChain(k: nat)
    requires k >= 1
    ensures IsTree(LinearTree(k))
    ensures forall j :: 0 < j < k ==> Parent(LinearTree(k), j) == j - 1
  {
    var parents := seq(k - 1, idx requires 0 <= idx < k - 1 => idx);
    ParentsTreeIsTree(k, parents);
    MatrixExt(LinearTree(k), ParentsTree(k, parents));
  }

  /** The branching tree is a tree with 0 -> 1 and 1 -> j for j >= 2. */
  lemma BranchingShape(k: nat)
    requires k >= 2
    ensures IsTree(BranchingTree(k))
    ensures Parent(BranchingTree(k), 1) == 0
    ensures forall j :: 2 <= j < k ==> Parent(BranchingTree(k), j) == 1
  {
    var parents := seq(k - 1, idx requires 0 <= idx < k - 1 => if idx == 0 then 0 else 1);
    ParentsTreeIsTree(k, parents);
    MatrixExt(BranchingTree(k), ParentsTree(k, parents));
  }

  /** The k x k identity, in a fresh array. */
  method Identity(k: nat) returns (a: array2<int>)
    ensures fresh(a) && a.Length0 == k && a.Length1 == k
    ensures forall i, j :: 0 <= i < k && 0 <= j < k ==> a[i, j] == if i == j then 1 else 0
  {
    a := new int[k, k]((i, j) => if i == j then 1 else 0);
  }

  /** init_cluster_adj_linear(K) */
  method InitLinear(K: nat) returns (m: Matrix)
    ensures m == LinearTree(K)
  {
    var a := Identity(K);
    var k := 1;
    while k < K
      invariant 1 <= k && (K > 0 ==> k <= K)
      invariant forall i, j :: 0 <= i < K && 0 <= j < K ==>
        a[i, j] == if i == j || (j == i + 1 && j < k) then 1 else 0
    {
      a[k - 1, k] := 1;
      k := k + 1;
    }
    m := ToMatrix(a);
    MatrixExt(m, LinearTree(K));
  }

  /** init_cluster_adj_branching(K); K = 0 or 1 indexes out of range. */
  method InitBranching(K: nat) returns (m: Matrix)
    requires K >= 2
    ensures m == BranchingTree(K)
  {
    var a := Identity(K);
    a[0, 1] := 1;
    for c := 2 to K
      invariant forall i, j :: 0 <= i < K && 0 <= j < K ==>
        a[i, j] == if i == j || (i == 0 && j == 1) || (i == 1 && 2 <= j < c) then 1 else 0
    {
      a[1, c] := 1;
    }
    m := ToMatrix(a);
    MatrixExt(m, BranchingTree(K));
  }

  /** init_cluster_adj_random(K) with the parent draws given. */
  method InitRandom(K: nat, parents: seq<nat>) returns (m: Matrix)
    requires ValidParents(K, parents)
    ensures m == ParentsTree(K, parents)
  {
    var a := Identity(K);
    var idx := 1;
    while idx < K
      invariant 1 <= idx && (K > 0 ==> idx <= K)
      invariant forall i, j :: 0 <= i < K && 0 <= j < K ==>
        a[i, j] == if i == j || (1 <= j < idx && parents[j - 1] == i) then 1 else 0
    {
      a[parents[idx - 1], idx] := 1;
      idx := idx + 1;
    }
    m := ToMatrix(a);
    MatrixExt(m, ParentsTree(K, parents));
  }
}
