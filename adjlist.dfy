/** The adjacency-list form of a tree that the projection solver takes
    (phi_fitter_projection.py:7-19 and 60-64). */
module Adjlist {
  import opened Matrices
  import opened Trees
  import opened Wrappers

  /** One list per node: the increasing indices of its neighbours. */
  type Adjlist = seq<seq<nat>>

  predicate DiagonalOne(m: Matrix)
    requires IsSquare(m, |m|)
  {
    forall i :: 0 <= i < |m| ==> m[i][i] == 1
  }

  /** No off-diagonal pair has a symmetrised entry other than 0 or 1. */
  predicate PairsOk(m: Matrix)
    requires IsSquare(m, |m|)
  {
    forall i, j :: 0 <= i < |m| && 0 <= j < |m| && i != j ==>
      m[i][j] + m[j][i] == 0 || m[i][j] + m[j][i] == 1
  }

  /** adjl lists, for every node i, exactly the nodes j != i joined to i in
      either direction, in increasing order. */
  predicate IsAdjlistOf(adjl: Adjlist, m: Matrix)
    requires IsSquare(m, |m|)
  {
    && |adjl| == |m|
    && forall i :: 0 <= i < |m| ==>
         && StrictlyIncreasing(adjl[i])
         && (forall p :: 0 <= p < |adjl[i]| ==> adjl[i][p] < |m|)
         && (forall j :: 0 <= j < |m| ==> (j in adjl[i] <==> i != j && m[i][j] + m[j][i] != 0))
  }

  /** Adds the transpose of a square array to it in place; numpy buffers the
      overlapping operand,
      so every entry becomes the sum of the two old entries. */
  method AddTranspose(a: array2<int>)
    requires a.Length0 == a.Length1
    modifies a
    ensures forall x, y :: 0 <= x < a.Length0 && 0 <= y < a.Length0 ==>
      a[x, y] == old(a[x, y]) + old(a[y, x])
  {
    var n := a.Length0;
    for i := 0 to n
      invariant forall x, y :: 0 <= x < n && 0 <= y < n ==>
        a[x, y] == if x < i || y < i then old(a[x, y]) + old(a[y, x]) else old(a[x, y])
    {
      for j := i to n
        invariant forall x, y :: 0 <= x < n && 0 <= y < n ==>
          a[x, y] ==
            if x < i || y < i || (x == i && y < j) || (y == i && x < j)
            then old(a[x, y]) + old(a[y, x])
            else old(a[x, y])
      {
        if i == j {
          a[i, i] := a[i, i] + a[i, i];
        } else {
          var t := a[i, j] + a[j, i];
          a[i, j] := t;
          a[j, i] := t;
        }
      }
    }
  }

  /** The undirected copy: adjm + adjm.T with the diagonal zeroed, in a fresh array. */
  method Undirected(adjm: Matrix) returns (a: array2<int>)
    requires IsSquare(adjm, |adjm|)
    ensures fresh(a) && a.Length0 == |adjm| && a.Length1 == |adjm|
    ensures forall x, y :: 0 <= x < |adjm| && 0 <= y < |adjm| ==>
      a[x, y] == if x == y then 0 else adjm[x][y] + adjm[y][x]
  {
    a := CopyToArray(adjm);
    AddTranspose(a);
    FillDiagonal(a, 0);
  }

  /** The nonzero column indices of every row, in row order. */
  method NonzeroRows(a: array2<int>) returns (adjl: Adjlist)
    ensures |adjl| == a.Length0
    ensures forall i :: 0 <= i < a.Length0 ==>
      && StrictlyIncreasing(adjl[i])
      && (forall p :: 0 <= p < |adjl[i]| ==> adjl[i][p] < a.Length1)
      && (forall j :: 0 <= j < a.Length1 ==> (j in adjl[i] <==> a[i, j] != 0))
  {
    adjl := [];
    for I := 0 to a.Length0
      invariant |adjl| == I
      invariant forall i :: 0 <= i < I ==>
        && StrictlyIncreasing(adjl[i])
        && (forall p :: 0 <= p < |adjl[i]| ==> adjl[i][p] < a.Length1)
        && (forall j :: 0 <= j < a.Length1 ==> (j in adjl[i] <==> a[i, j] != 0))
    {
      var row := FlatNonzero(RowOf(a, I));
      adjl := adjl + [row];
    }
  }

  /** _convert_adjm_to_adjlist: fails exactly when the diagonal is not all 1, or
      some pair of distinct nodes has a symmetrised entry other than 0 or 1;
      otherwise the list of every node's neighbours. The argument is copied
      first and so is left as it was. */
  method ConvertAdjmToAdjlist(adjm: Matrix) returns (r: Result<Adjlist>)
    requires IsSquare(adjm, |adjm|)
    ensures r.Ok? <==> DiagonalOne(adjm) && PairsOk(adjm)
    ensures r.Ok? ==> IsAdjlistOf(r.value, adjm)
  {
    var K := |adjm|;
    if !DiagonalOne(adjm) {
      return Err("diagonal must be 1");
    }
    var a := Undirected(adjm);
    if !(forall x, y :: 0 <= x < K && 0 <= y < K ==> a[x, y] == 0 || a[x, y] == 1) {
      return Err("undirected adjacency must be 0 or 1");
    }
    var adjl := NonzeroRows(a);
    r := Ok(adjl);
  }

  /** On a 0/1 matrix, j is a neighbour of i exactly when there is an edge
      between them in either direction, and conversion fails exactly when some
      pair has edges both ways. Neighbourhood is symmetric and irreflexive. */
  lemma BinaryNeighbours(adjl: Adjlist, m: Matrix)
    requires IsSquare(m, |m|) && IsBinary(m)
    ensures PairsOk(m) <==> forall i, j :: 0 <= i < |m| && 0 <= j < |m| && i != j ==> !(m[i][j] == 1 && m[j][i] == 1)
    ensures IsAdjlistOf(adjl, m) ==> forall i, j :: 0 <= i < |m| && 0 <= j < |m| ==>
      && (j in adjl[i] <==> i != j && (m[i][j] == 1 || m[j][i] == 1))
      && (j in adjl[i] <==> i in adjl[j])
  {
  }

  /** A matrix has one adjacency list. */
  lemma AdjlistUnique(l1: Adjlist, l2: Adjlist, m: Matrix)
    requires IsSquare(m, |m|)
    requires IsAdjlistOf(l1, m) && IsAdjlistOf(l2, m)
    ensures l1 == l2
  {
    forall i | 0 <= i < |m|
      ensures l1[i] == l2[i]
    {
      forall x
        ensures x in l1[i] <==> x in l2[i]
      {
        if x in l1[i] {
          var p :| 0 <= p < |l1[i]| && l1[i][p] == x;
          assert x < |m|;
        }
        if x in l2[i] {
          var p :| 0 <= p < |l2[i]| && l2[i][p] == x;
          assert x < |m|;
        }
      }
      IncreasingUnique(l1[i], l2[i]);
    }
  }

  /** Every list has at most one entry per node. */
  lemma AdjlistRowsShort(adjl: Adjlist, m: Matrix)
    requires IsSquare(m, |m|) && IsAdjlistOf(adjl, m)
    ensures forall i :: 0 <= i < |m| ==> |adjl[i]| <= |m|
  {
    forall i | 0 <= i < |m|
      ensures |adjl[i]| <= |m|
    {
      IncreasingBelowIsShort(adjl[i], |m|);
    }
  }

  /** A tree always converts, and the neighbours of node i are its parent (when
      i is not the root) and its children. */
  lemma TreeAdjlist(m: Matrix)
    requires IsTree(m)
    ensures DiagonalOne(m) && PairsOk(m)
    ensures forall adjl :: IsAdjlistOf(adjl, m) ==> forall i, j :: 0 <= i < |m| && 0 <= j < |m| ==>
      (j in adjl[i] <==> (i != 0 && j == Parent(m, i)) || (j != 0 && i == Parent(m, j)))
  {
    var k := |m|;
    forall i, j | 0 <= i < k && 0 <= j < k && i != j
      ensures m[i][j] == 1 <==> j != 0 && i == Parent(m, j)
    {
      if m[i][j] == 1 {
        EdgeIsParent(m, i, j);
      }
    }
    forall i, j | 0 <= i < k && 0 <= j < k && i != j
      ensures !(m[i][j] == 1 && m[j][i] == 1)
    {
      if m[i][j] == 1 && m[j][i] == 1 {
        EdgeIsParent(m, i, j);
        EdgeIsParent(m, j, i);
        ParentIsAnc(m, i);
        ParentIsAnc(m, j);
        AncAntisymmetric(m, i, j);
      }
    }
  }

  /** Row i of the packed matrix cut to its degree: the inverse of the packing. */
  function Unpack(deg: seq<int>, mat: Matrix): (adjl: seq<seq<int>>)
    requires |deg| <= |mat|
    requires forall i :: 0 <= i < |deg| ==> 0 <= deg[i] <= |mat[i]|
    ensures |adjl| == |deg| && forall i :: 0 <= i < |deg| ==> |adjl[i]| == deg[i]
  {
    seq(|deg|, i requires 0 <= i < |deg| => mat[i][..deg[i]])
  }

  /** An M x M array of zeros whose row i starts with list i. */
  method PackRows(adjl: Adjlist, M: nat) returns (a: array2<int>)
    requires |adjl| <= M && forall i :: 0 <= i < |adjl| ==> |adjl[i]| <= M
    ensures fresh(a) && a.Length0 == M && a.Length1 == M
    ensures forall i, p :: 0 <= i < M && 0 <= p < M ==>
      a[i, p] == if i < |adjl| && p < |adjl[i]| then adjl[i][p] else 0
  {
    a := new int[M, M]((i, p) => 0);
    for rowidx := 0 to |adjl|
      invariant forall i, p :: 0 <= i < M && 0 <= p < M ==>
        a[i, p] == if i < rowidx && p < |adjl[i]| then adjl[i][p] else 0
    {
      var row := adjl[rowidx];
      for p := 0 to |row|
        invariant forall i, q :: 0 <= i < M && 0 <= q < M ==>
          a[i, q] == if (i < rowidx && q < |adjl[i]|) || (i == rowidx && q < p) then adjl[i][q] else 0
      {
        a[rowidx, p] := row[p];
      }
    }
  }

  /** The deg / adjl_mat packing of _project_ppm: deg[i] is the length of list
      i, row i of the M x M matrix starts with list i and is zero after it, so
      cutting each row to its degree gives the lists back. */
  method PackAdjlist(adjl: Adjlist, M: nat) returns (deg: seq<int>, mat: Matrix)
    requires |adjl| <= M && forall i :: 0 <= i < |adjl| ==> |adjl[i]| <= M
    ensures |deg| == |adjl| && forall i :: 0 <= i < |adjl| ==> deg[i] == |adjl[i]|
    ensures IsSquare(mat, M)
    ensures forall i, p :: 0 <= i < M && 0 <= p < M ==>
      mat[i][p] == if i < |adjl| && p < |adjl[i]| then adjl[i][p] else 0
    ensures Unpack(deg, mat) == adjl
  {
    deg := seq(|adjl|, i requires 0 <= i < |adjl| => |adjl[i]|);
    var a := PackRows(adjl, M);
    mat := ToMatrix(a);
    forall i | 0 <= i < |adjl|
      ensures mat[i][..deg[i]] == adjl[i]
    {
    }
  }

  /** _project_ppm lines 60-64: convert the M x M adjacency matrix, then pack
      the lists. Fails exactly when the conversion does; on success the packed
      form unpacks to the adjacency list of the matrix. */
  method ProjectPacking(adjm: Matrix) returns (r: Result<(seq<int>, Matrix)>)
    requires IsSquare(adjm, |adjm|)
    ensures r.Ok? <==> DiagonalOne(adjm) && PairsOk(adjm)
    ensures r.Ok? ==>
      && IsSquare(r.value.1, |adjm|)
      && |r.value.0| == |adjm|
      && (forall i :: 0 <= i < |adjm| ==> 0 <= r.value.0[i] <= |adjm|)
      && exists adjl :: IsAdjlistOf(adjl, adjm)
           && (forall i :: 0 <= i < |adjm| ==> r.value.0[i] == |adjl[i]|)
           && (forall i, p :: 0 <= i < |adjm| && 0 <= p < |adjm| ==>
                 r.value.1[i][p] == if p < |adjl[i]| then adjl[i][p] else 0)
           && Unpack(r.value.0, r.value.1) == adjl
  {
    var converted := ConvertAdjmToAdjlist(adjm);
    if converted.Err? {
      return Err(converted.message);
    }
    var adjl := converted.value;
    AdjlistRowsShort(adjl, adjm);
    var deg, mat := PackAdjlist(adjl, |adjm|);
    r := Ok((deg, mat));
    assert IsAdjlistOf(adjl, adjm);
  }
}
