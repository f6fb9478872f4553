/** make_mutrel_tensor_from_cluster_adj (tree_sampler.py:9-35): from a cluster
    tree and the mutations of each cluster, the M x M x 4 one-hot tensor of
    pairwise relations. */
module Mutrel {
  import opened Matrices
  import opened Trees

  /** The relation categories of common.Models, in the order of their slices. */
  datatype Relation = Cocluster | AncestorOf | DescendantOf | DiffBranches

  /** The slice of the tensor that holds a relation (cocluster, A_B, B_A, diff_branches). */
  function Slice(rel: Relation): nat
  {
    match rel
    case Cocluster => 0
    case AncestorOf => 1
    case DescendantOf => 2
    case DiffBranches => 3
  }

  const NumRelations: nat := 4

  type Tensor = seq<seq<seq<int>>>

  /** mutations(clusters)[k] lists the mutations of cluster k. */
  type Clusters = seq<seq<nat>>

  /** M: the number of mutations, summed over the clusters. */
  function TotalLen(clusters: Clusters): nat
  {
    if clusters == [] then 0 else TotalLen(clusters[..|clusters| - 1]) + |clusters[|clusters| - 1]|
  }

  /** Every mutation index addresses the tensor. */
  predicate InRange(clusters: Clusters, n: nat)
  {
    forall k, p :: 0 <= k < |clusters| && 0 <= p < |clusters[k]| ==> clusters[k][p] < n
  }

  /** No mutation belongs to two different clusters. */
  predicate Disjoint(clusters: Clusters)
  {
    forall k, c, x :: 0 <= k < |clusters| && 0 <= c < |clusters| && k != c && x in clusters[k] ==> x !in clusters[c]
  }

  // ---------------------------------------------------------------------------
  // The relation a tree implies between two mutations

  /** i and j share a cluster. */
  ghost predicate SameCluster(clusters: Clusters, i: nat, j: nat)
  {
    exists k :: 0 <= k < |clusters| && i in clusters[k] && j in clusters[k]
  }

  /** i's cluster is a strict ancestor of j's cluster. */
  ghost predicate AncestralPair(adj: Matrix, clusters: Clusters, i: nat, j: nat)
    requires IsSquare(adj, |adj|) && |clusters| == |adj|
  {
    exists k, c :: 0 <= k < |clusters| && 0 <= c < |clusters| && StrictAnc(adj, k, c) &&
      i in clusters[k] && j in clusters[c]
  }

  /** The one relation of the pair (i, j): cocluster, else A_B, else B_A, else
      diff_branches. */
  ghost function RelationOf(adj: Matrix, clusters: Clusters, i: nat, j: nat): Relation
    requires IsSquare(adj, |adj|) && |clusters| == |adj|
  {
    if SameCluster(clusters, i, j) then Cocluster
    else if AncestralPair(adj, clusters, i, j) then AncestorOf
    else if AncestralPair(adj, clusters, j, i) then DescendantOf
    else DiffBranches
  }

  /** In a tree, with no mutation in two clusters, the three marked relations
      exclude one another: the assertion of tree_sampler.py:33. */
  lemma MarkedRelationsExclusive(adj: Matrix, clusters: Clusters, i: nat, j: nat)
    requires IsTree(adj) && |clusters| == |adj| && Disjoint(clusters)
    ensures !(SameCluster(clusters, i, j) && AncestralPair(adj, clusters, i, j))
    ensures !(SameCluster(clusters, i, j) && AncestralPair(adj, clusters, j, i))
    ensures !(AncestralPair(adj, clusters, i, j) && AncestralPair(adj, clusters, j, i))
  {
    if AncestralPair(adj, clusters, i, j) && AncestralPair(adj, clusters, j, i) {
      var k, c :| 0 <= k < |clusters| && 0 <= c < |clusters| && StrictAnc(adj, k, c) &&
        i in clusters[k] && j in clusters[c];
      var c', k' :| 0 <= c' < |clusters| && 0 <= k' < |clusters| && StrictAnc(adj, c', k') &&
        j in clusters[c'] && i in clusters[k'];
      assert k == k' && c == c';
      AncAntisymmetric(adj, k, c);
    }
  }

  /** The relation of two clustered mutations is the relation of their clusters. */
  lemma RelationByClusters(adj: Matrix, clusters: Clusters, i: nat, j: nat, ki: nat, kj: nat)
    requires IsTree(adj) && |clusters| == |adj| && Disjoint(clusters)
    requires ki < |clusters| && kj < |clusters| && i in clusters[ki] && j in clusters[kj]
    ensures RelationOf(adj, clusters, i, j) ==
      if ki == kj then Cocluster
      else if StrictAnc(adj, ki, kj) then AncestorOf
      else if StrictAnc(adj, kj, ki) then DescendantOf
      else DiffBranches
  {
    MarkedRelationsExclusive(adj, clusters, i, j);
    if SameCluster(clusters, i, j) {
      var k :| 0 <= k < |clusters| && i in clusters[k] && j in clusters[k];
      assert k == ki && k == kj;
    } else if AncestralPair(adj, clusters, i, j) {
      var k, c :| 0 <= k < |clusters| && 0 <= c < |clusters| && StrictAnc(adj, k, c) &&
        i in clusters[k] && j in clusters[c];
      assert k == ki && c == kj;
    } else if AncestralPair(adj, clusters, j, i) {
      var k, c :| 0 <= k < |clusters| && 0 <= c < |clusters| && StrictAnc(adj, k, c) &&
        j in clusters[k] && i in clusters[c];
      assert k == kj && c == ki;
      if StrictAnc(adj, ki, kj) {
        AncAntisymmetric(adj, ki, kj);
      }
    }
  }

  /** A mutation that is in no cluster is on a different branch from everything. */
  lemma UnclusteredIsDiffBranches(adj: Matrix, clusters: Clusters, i: nat, j: nat)
    requires IsSquare(adj, |adj|) && |clusters| == |adj|
    requires forall k :: 0 <= k < |clusters| ==> i !in clusters[k]
    ensures RelationOf(adj, clusters, i, j) == DiffBranches
    ensures RelationOf(adj, clusters, j, i) == DiffBranches
  {
  }

  // ---------------------------------------------------------------------------
  // What the loop over clusters has marked after clusters 0..k-1

  ghost predicate CoBefore(clusters: Clusters, i: nat, j: nat, k: nat)
    requires k <= |clusters|
  {
    k > 0 && (CoBefore(clusters, i, j, k - 1) || (i in clusters[k - 1] && j in clusters[k - 1]))
  }

  /** j is a mutation of a strict descendant of cluster k. */
  ghost predicate InDescendant(adj: Matrix, clusters: Clusters, k: nat, j: nat)
    requires IsSquare(adj, |adj|) && |clusters| == |adj|
  {
    exists c :: 0 <= c < |clusters| && StrictAnc(adj, k, c) && j in clusters[c]
  }

  ghost predicate AncBefore(adj: Matrix, clusters: Clusters, i: nat, j: nat, k: nat)
    requires IsSquare(adj, |adj|) && |clusters| == |adj| && k <= |clusters|
  {
    k > 0 && (AncBefore(adj, clusters, i, j, k - 1) ||
              (i in clusters[k - 1] && InDescendant(adj, clusters, k - 1, j)))
  }

  lemma {:induction false} CoBeforeAll(clusters: Clusters, i: nat, j: nat, k: nat)
    requires k <= |clusters|
    ensures CoBefore(clusters, i, j, k) <==>
      exists k' :: 0 <= k' < k && i in clusters[k'] && j in clusters[k']
  {
    if k > 0 {
      CoBeforeAll(clusters, i, j, k - 1);
    }
  }

  lemma {:induction false} AncBeforeAll(adj: Matrix, clusters: Clusters, i: nat, j: nat, k: nat)
    requires IsSquare(adj, |adj|) && |clusters| == |adj| && k <= |clusters|
    ensures AncBefore(adj, clusters, i, j, k) <==>
      exists k' :: 0 <= k' < k && i in clusters[k'] && InDescendant(adj, clusters, k', j)
  {
    if k > 0 {
      AncBeforeAll(adj, clusters, i, j, k - 1);
    }
  }

  lemma MarkedAtEnd(adj: Matrix, clusters: Clusters, i: nat, j: nat)
    requires IsSquare(adj, |adj|) && |clusters| == |adj|
    ensures CoBefore(clusters, i, j, |clusters|) <==> SameCluster(clusters, i, j)
    ensures AncBefore(adj, clusters, i, j, |clusters|) <==> AncestralPair(adj, clusters, i, j)
  {
    CoBeforeAll(clusters, i, j, |clusters|);
    AncBeforeAll(adj, clusters, i, j, |clusters|);
  }

  // ---------------------------------------------------------------------------
  // The imperative builder

  /** The mutations of the listed clusters, concatenated (desc_muts). */
  function Gather(clusters: Clusters, idxs: seq<nat>): (muts: seq<nat>)
    requires forall p :: 0 <= p < |idxs| ==> idxs[p] < |clusters|
    ensures forall x :: x in muts <==> exists p :: 0 <= p < |idxs| && x in clusters[idxs[p]]
  {
    if idxs == [] then []
    else
      var rest := Gather(clusters, idxs[1..]);
      assert forall p :: 1 <= p < |idxs| ==> idxs[1..][p - 1] == idxs[p];
      clusters[idxs[0]] + rest
  }

  /** Sets slice r to 1 on every (row, column) pair drawn from the two index lists. */
  method MarkBlock(t: array3<int>, rows: seq<nat>, cols: seq<nat>, r: nat)
    requires r < t.Length2
    requires forall p :: 0 <= p < |rows| ==> rows[p] < t.Length0
    requires forall q :: 0 <= q < |cols| ==> cols[q] < t.Length1
    modifies t
    ensures forall x, y, s :: 0 <= x < t.Length0 && 0 <= y < t.Length1 && 0 <= s < t.Length2 ==>
      t[x, y, s] == if s == r && x in rows && y in cols then 1 else old(t[x, y, s])
  {
    for p := 0 to |rows|
      invariant forall x, y, s :: 0 <= x < t.Length0 && 0 <= y < t.Length1 && 0 <= s < t.Length2 ==>
        t[x, y, s] == if s == r && x in rows[..p] && y in cols then 1 else old(t[x, y, s])
    {
      for q := 0 to |cols|
        invariant forall x, y, s :: 0 <= x < t.Length0 && 0 <= y < t.Length1 && 0 <= s < t.Length2 ==>
          t[x, y, s] == if s == r && ((x in rows[..p] && y in cols) || (x == rows[p] && y in cols[..q])) then 1
                        else old(t[x, y, s])
      {
        assert cols[..q + 1] == cols[..q] + [cols[q]];
        t[rows[p], cols[q], r] := 1;
      }
      assert rows[..p + 1] == rows[..p] + [rows[p]];
      assert cols[..|cols|] == cols;
    }
    assert rows[..|rows|] == rows;
  }

  function ToTensor(t: array3<int>): (v: Tensor)
    reads t
    ensures |v| == t.Length0
    ensures forall x :: 0 <= x < |v| ==> |v[x]| == t.Length1
    ensures forall x, y :: 0 <= x < |v| && 0 <= y < t.Length1 ==> |v[x][y]| == t.Length2
    ensures forall x, y, s :: 0 <= x < t.Length0 && 0 <= y < t.Length1 && 0 <= s < t.Length2 ==>
      v[x][y][s] == t[x, y, s]
  {
    seq(t.Length0, x requires 0 <= x < t.Length0 reads t =>
      seq(t.Length1, y requires 0 <= y < t.Length1 reads t =>
        seq(t.Length2, s requires 0 <= s < t.Length2 reads t => t[x, y, s])))
  }

  /** The cocluster and A_B slices after the loop over clusters 0..K-1
      (tree_sampler.py:19-27). */
  method MarkClusters(adj: Matrix, clusters: Clusters, n: nat) returns (t: array3<int>)
    requires IsTree(adj) && |clusters| == |adj| && InRange(clusters, n)
    ensures fresh(t) && t.Length0 == n && t.Length1 == n && t.Length2 == NumRelations
    ensures forall i, j, s :: 0 <= i < n && 0 <= j < n && 0 <= s < NumRelations ==>
      t[i, j, s] == if s == 0 && SameCluster(clusters, i, j) then 1
                    else if s == 1 && AncestralPair(adj, clusters, i, j) then 1
                    else 0
  {
    var K := |clusters|;
    var anc := AncestralMatrix(adj);
    // the closure with its diagonal zeroed, so a cluster is not its own ancestor
    var clusterAnc := seq(K, a requires 0 <= a < K => seq(K, c requires 0 <= c < K => if a == c then 0 else anc[a][c]));
    t := new int[n, n, NumRelations]((i, j, s) => 0);
    for k := 0 to K
      invariant forall i, j, s :: 0 <= i < n && 0 <= j < n && 0 <= s < NumRelations ==>
        t[i, j, s] == if s == 0 && CoBefore(clusters, i, j, k) then 1
                      else if s == 1 && AncBefore(adj, clusters, i, j, k) then 1
                      else 0
    {
      var selfMuts := clusters[k];
      var descClusters := FlatNonzero(clusterAnc[k]);
      var descMuts := Gather(clusters, descClusters);
      forall j
        ensures j in descMuts <==> InDescendant(adj, clusters, k, j)
      {
        if j in descMuts {
          var p :| 0 <= p < |descClusters| && j in clusters[descClusters[p]];
          var c := descClusters[p];
          assert c < K && c in descClusters;
          assert clusterAnc[k][c] != 0;
          assert k != c && anc[k][c] == 1;
        }
        if InDescendant(adj, clusters, k, j) {
          var c :| 0 <= c < K && StrictAnc(adj, k, c) && j in clusters[c];
          assert c in descClusters;
          var p :| 0 <= p < |descClusters| && descClusters[p] == c;
        }
      }
      assert forall q :: 0 <= q < |selfMuts| ==> selfMuts[q] in clusters[k];
      if |selfMuts| > 0 {
        MarkBlock(t, selfMuts, selfMuts, 0);
      }
      assert forall q :: 0 <= q < |descMuts| ==> descMuts[q] < n by {
        forall q | 0 <= q < |descMuts|
          ensures descMuts[q] < n
        {
          assert descMuts[q] in descMuts;
          var p :| 0 <= p < |descClusters| && descMuts[q] in clusters[descClusters[p]];
        }
      }
      if |selfMuts| > 0 && |descMuts| > 0 {
        MarkBlock(t, selfMuts, descMuts, 1);
      }
    }
    forall i, j | 0 <= i < n && 0 <= j < n
      ensures CoBefore(clusters, i, j, K) <==> SameCluster(clusters, i, j)
      ensures AncBefore(adj, clusters, i, j, K) <==> AncestralPair(adj, clusters, i, j)
    {
      MarkedAtEnd(adj, clusters, i, j);
    }
  }

  /** make_mutrel_tensor_from_cluster_adj(cluster_adj, clusters): every pair gets
      exactly the one relation the tree implies. */
  method MakeMutrelTensor(adj: Matrix, clusters: Clusters) returns (mutrel: Tensor)
    requires IsTree(adj) && |clusters| == |adj|
    requires InRange(clusters, TotalLen(clusters)) && Disjoint(clusters)
    ensures |mutrel| == TotalLen(clusters)
    ensures forall i :: 0 <= i < |mutrel| ==> |mutrel[i]| == |mutrel|
    ensures forall i, j :: 0 <= i < |mutrel| && 0 <= j < |mutrel| ==> |mutrel[i][j]| == NumRelations
    ensures forall i, j, s :: 0 <= i < |mutrel| && 0 <= j < |mutrel| && 0 <= s < NumRelations ==>
      mutrel[i][j][s] == if s == Slice(RelationOf(adj, clusters, i, j)) then 1 else 0
  {
    var n := TotalLen(clusters);
    var t := MarkClusters(adj, clusters, n);
    var marked := ToTensor(t);
    // B_A is the transpose of A_B; diff_branches is set where nothing else is.
    mutrel := seq(n, i requires 0 <= i < n =>
      seq(n, j requires 0 <= j < n =>
        var co, ab, ba := marked[i][j][0], marked[i][j][1], marked[j][i][1];
        [co, ab, ba, if co + ab + ba == 0 then 1 else 0]));
    forall i, j | 0 <= i < n && 0 <= j < n
      ensures mutrel[i][j][0] + mutrel[i][j][1] + mutrel[i][j][2] + mutrel[i][j][3] == 1
      ensures forall s :: 0 <= s < NumRelations ==>
        mutrel[i][j][s] == if s == Slice(RelationOf(adj, clusters, i, j)) then 1 else 0
    {
      MarkedRelationsExclusive(adj, clusters, i, j);
    }
  }
}
