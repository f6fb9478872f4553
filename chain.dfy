/** The Metropolis chain and the choice of the best tree (tree_sampler.py:146-228).
    The tree likelihood is a function parameter, and each chain's random draws
    (the pair A, B of every proposal, and whether the acceptance test passed)
    are inputs. */
module Chain {
  import opened Matrices
  import opened Trees
  import opened Permute
  import opened TreeInit
  import opened Wrappers

  /** A real log-likelihood or the -inf the best-tree scan starts from. */
  datatype ExtReal = NegInf | Finite(value: real)

  /** One entry of a chain: a tree and its log-likelihood. */
  datatype Sample = Sample(adj: Matrix, llh: real)

  /** The random draws of one chain: the pair (A, B) of every proposal, and
      whether the Metropolis acceptance test passed at that step. */
  datatype Draws = Draws(pairs: seq<(nat, nat)>, accepts: seq<bool>)

  /** The draws of a chain of nsamples on k clusters: two distinct clusters per
      proposal, as drawing two clusters without replacement gives. */
  predicate ValidDraws(k: nat, nsamples: nat, d: Draws)
  {
    && nsamples > 0
    && |d.pairs| == nsamples - 1 && |d.accepts| == nsamples - 1
    && PairsIn(k, d.pairs)
  }

  /** Every pair names two distinct clusters below k. */
  predicate PairsIn(k: nat, pairs: seq<(nat, nat)>)
  {
    forall p :: 0 <= p < |pairs| ==> pairs[p].0 < k && pairs[p].1 < k && pairs[p].0 != pairs[p].1
  }

  lemma PairsInPrefix(k: nat, pairs: seq<(nat, nat)>, n: nat)
    requires PairsIn(k, pairs) && n <= |pairs|
    ensures PairsIn(k, pairs[..n])
  {
    assert forall p :: 0 <= p < n ==> pairs[..n][p] == pairs[p];
  }

  /** A likelihood beats the best so far, which may still be minus infinity. */
  predicate Exceeds(l: real, best: ExtReal)
  {
    best.NegInf? || l > best.value
  }

  /** The index choose_best_tree picks: the first entry of greatest value. */
  function BestIndex(llhs: seq<real>): (idx: nat)
    requires |llhs| > 0
    ensures idx < |llhs|
    ensures forall j :: 0 <= j < |llhs| ==> llhs[j] <= llhs[idx]
    ensures forall j :: 0 <= j < idx ==> llhs[j] < llhs[idx]
  {
    if |llhs| == 1 then 0
    else
      var p := BestIndex(llhs[..|llhs| - 1]);
      if llhs[|llhs| - 1] > llhs[p] then |llhs| - 1 else p
  }

  /** At most one index is the first occurrence of the greatest value. */
  lemma BestIndexUnique(llhs: seq<real>, i: nat)
    requires i < |llhs|
    requires forall j :: 0 <= j < |llhs| ==> llhs[j] <= llhs[i]
    requires forall j :: 0 <= j < i ==> llhs[j] < llhs[i]
    ensures BestIndex(llhs) == i
  {
  }

  /** choose_best_tree(adj, llh): zip stops at the shorter input; with nothing
      to scan the result is (None, -inf). */
  method ChooseBestTree(adjs: seq<Matrix>, llhs: seq<real>) returns (bestAdj: Option<Matrix>, bestLlh: ExtReal)
    ensures var n := if |adjs| <= |llhs| then |adjs| else |llhs|;
      && (n == 0 ==> bestAdj == None && bestLlh == NegInf)
      && (n > 0 ==>
            var b := BestIndex(llhs[..n]);
            bestAdj == Some(adjs[b]) && bestLlh == Finite(llhs[b]))
  {
    var n := if |adjs| <= |llhs| then |adjs| else |llhs|;
    bestLlh := NegInf;
    bestAdj := None;
    for i := 0 to n
      invariant i == 0 ==> bestAdj == None && bestLlh == NegInf
      invariant i > 0 ==>
        var b := BestIndex(llhs[..i]);
        bestAdj == Some(adjs[b]) && bestLlh == Finite(llhs[b])
    {
      assert llhs[..i + 1][..i] == llhs[..i];
      if Exceeds(llhs[i], bestLlh) {
        bestLlh := Finite(llhs[i]);
        bestAdj := Some(adjs[i]);
      }
    }
  }

  function Llhs(h: seq<Sample>): (l: seq<real>)
    ensures |l| == |h| && forall i :: 0 <= i < |h| ==> l[i] == h[i].llh
  {
    seq(|h|, i requires 0 <= i < |h| => h[i].llh)
  }

  function Adjs(h: seq<Sample>): (a: seq<Matrix>)
    ensures |a| == |h| && forall i :: 0 <= i < |h| ==> a[i] == h[i].adj
  {
    seq(|h|, i requires 0 <= i < |h| => h[i].adj)
  }

  /** The chain's states after the given proposals: it starts from init, and
      each step appends the permuted tree with its likelihood when the step is
      accepted, and repeats the previous entry when it is rejected. */
  ghost function History(init: Matrix, llh: Matrix -> real, pairs: seq<(nat, nat)>, accepts: seq<bool>): (h: seq<Sample>)
    requires IsSquare(init, |init|) && PairsIn(|init|, pairs) && |accepts| == |pairs|
    ensures |h| == |pairs| + 1
    ensures h[0] == Sample(init, llh(init))
    ensures forall i :: 0 <= i < |h| ==> IsSquare(h[i].adj, |init|)
    decreases |pairs|
  {
    if pairs == [] then [Sample(init, llh(init))]
    else
      var n := |pairs|;
      var prev := History(init, llh, pairs[..n - 1], accepts[..n - 1]);
      var last := prev[n - 1];
      var (a, b) := pairs[n - 1];
      var proposal := PermuteSpec(last.adj, a, b);
      prev + [if accepts[n - 1] then Sample(proposal, llh(proposal)) else last]
  }

  /** One step of the chain: entry i is the proposal built from entry i - 1 by
      permute_adj when step i was accepted, and a copy of entry i - 1 otherwise;
      every entry's likelihood is the likelihood of its tree. */
  lemma {:induction false} HistoryStep(init: Matrix, llh: Matrix -> real, pairs: seq<(nat, nat)>, accepts: seq<bool>, i: nat)
    requires IsSquare(init, |init|) && PairsIn(|init|, pairs) && |accepts| == |pairs|
    requires 0 < i <= |pairs|
    ensures var h := History(init, llh, pairs, accepts);
      var proposal := PermuteSpec(h[i - 1].adj, pairs[i - 1].0, pairs[i - 1].1);
      h[i] == if accepts[i - 1] then Sample(proposal, llh(proposal)) else h[i - 1]
    decreases |pairs|
  {
    var n := |pairs|;
    var h := History(init, llh, pairs, accepts);
    var prev := History(init, llh, pairs[..n - 1], accepts[..n - 1]);
    assert h == prev + [h[n]];
    if i < n {
      HistoryStep(init, llh, pairs[..n - 1], accepts[..n - 1], i);
    }
  }

  /** Every likelihood recorded in the chain is the likelihood of the tree
      recorded beside it. */
  lemma {:induction false} HistoryLlh(init: Matrix, llh: Matrix -> real, pairs: seq<(nat, nat)>, accepts: seq<bool>, i: nat)
    requires IsSquare(init, |init|) && PairsIn(|init|, pairs) && |accepts| == |pairs|
    requires i <= |pairs|
    ensures var h := History(init, llh, pairs, accepts); h[i].llh == llh(h[i].adj)
    decreases i
  {
    if i > 0 {
      HistoryStep(init, llh, pairs, accepts, i);
      HistoryLlh(init, llh, pairs, accepts, i - 1);
    }
  }

  /** Every entry of a chain started from a tree is a tree on the same clusters:
      permute_adj keeps a tree a tree. */
  lemma {:induction false} HistoryIsTree(init: Matrix, llh: Matrix -> real, pairs: seq<(nat, nat)>, accepts: seq<bool>, i: nat)
    requires IsTree(init) && PairsIn(|init|, pairs) && |accepts| == |pairs|
    requires i <= |pairs|
    ensures IsTree(History(init, llh, pairs, accepts)[i].adj)
    decreases i
  {
    if i > 0 {
      var h := History(init, llh, pairs, accepts);
      HistoryStep(init, llh, pairs, accepts, i);
      HistoryIsTree(init, llh, pairs, accepts, i - 1);
      PermutePreservesTree(h[i - 1].adj, pairs[i - 1].0, pairs[i - 1].1);
    }
  }

  /** With every proposal rejected, the chain stays at its initial tree. */
  lemma {:induction false} AllRejectedStays(init: Matrix, llh: Matrix -> real, pairs: seq<(nat, nat)>, accepts: seq<bool>, i: nat)
    requires IsSquare(init, |init|) && PairsIn(|init|, pairs) && |accepts| == |pairs|
    requires forall p :: 0 <= p < |accepts| ==> !accepts[p]
    requires i <= |pairs|
    ensures History(init, llh, pairs, accepts)[i] == Sample(init, llh(init))
    decreases i
  {
    if i > 0 {
      HistoryStep(init, llh, pairs, accepts, i);
      AllRejectedStays(init, llh, pairs, accepts, i - 1);
    }
  }

  /** Extending the draws by step i appends exactly that step's entry. */
  lemma HistorySnoc(init: Matrix, llh: Matrix -> real, pairs: seq<(nat, nat)>, accepts: seq<bool>, i: nat)
    requires IsSquare(init, |init|) && PairsIn(|init|, pairs) && |accepts| == |pairs|
    requires 0 < i <= |pairs|
    ensures var prev := History(init, llh, pairs[..i - 1], accepts[..i - 1]);
      var proposal := PermuteSpec(prev[i - 1].adj, pairs[i - 1].0, pairs[i - 1].1);
      History(init, llh, pairs[..i], accepts[..i])
        == prev + [if accepts[i - 1] then Sample(proposal, llh(proposal)) else prev[i - 1]]
  {
    assert pairs[..i][..i - 1] == pairs[..i - 1];
    assert accepts[..i][..i - 1] == accepts[..i - 1];
  }

  lemma AppendSample(h: seq<Sample>, s: Sample)
    ensures Adjs(h + [s]) == Adjs(h) + [s.adj]
    ensures Llhs(h + [s]) == Llhs(h) + [s.llh]
  {
  }

  /** The history of the chain that run_chain runs, from the branching tree. */
  ghost function ChainHistory(k: nat, llh: Matrix -> real, nsamples: nat, d: Draws): (h: seq<Sample>)
    requires k >= 2 && ValidDraws(k, nsamples, d)
    ensures |h| == nsamples
  {
    History(BranchingTree(k), llh, d.pairs, d.accepts)
  }

  /** The (tree, likelihood) run_chain returns. */
  ghost function ChainBest(k: nat, llh: Matrix -> real, nsamples: nat, d: Draws): (s: Sample)
    requires k >= 2 && ValidDraws(k, nsamples, d)
  {
    var h := ChainHistory(k, llh, nsamples, d);
    h[BestIndex(Llhs(h))]
  }

  /** The chain's best entry is a tree whose likelihood is at least that of
      every entry of the chain, and above that of every earlier entry. */
  lemma ChainBestIsBest(k: nat, llh: Matrix -> real, nsamples: nat, d: Draws)
    requires k >= 2 && ValidDraws(k, nsamples, d)
    ensures var h := ChainHistory(k, llh, nsamples, d);
      var s := ChainBest(k, llh, nsamples, d);
      && IsTree(s.adj) && |s.adj| == k
      && s.llh == llh(s.adj)
      && s in h
      && forall i :: 0 <= i < |h| ==> h[i].llh <= s.llh
  {
    var h := ChainHistory(k, llh, nsamples, d);
    BranchingShape(k);
    var b := BestIndex(Llhs(h));
    HistoryLlh(BranchingTree(k), llh, d.pairs, d.accepts, b);
    HistoryIsTree(BranchingTree(k), llh, d.pairs, d.accepts, b);
    assert forall i :: 0 <= i < |h| ==> Llhs(h)[i] <= Llhs(h)[b];
  }

  /** The Metropolis loop of run_chain: from init, every step proposes
      permute_adj of the last tree, and appends the proposal or repeats the
      last entry as the acceptance test says. */
  method RunSteps(init: Matrix, llh: Matrix -> real, pairs: seq<(nat, nat)>, accepts: seq<bool>)
    returns (adjs: seq<Matrix>, llhs: seq<real>)
    requires IsTree(init) && PairsIn(|init|, pairs) && |accepts| == |pairs|
    ensures var h := History(init, llh, pairs, accepts);
      adjs == Adjs(h) && llhs == Llhs(h)
  {
    adjs := [init];
    llhs := [llh(init)];
    ghost var hist := [Sample(init, llh(init))];
    for I := 1 to |pairs| + 1
      invariant |adjs| == I && |llhs| == I
      invariant hist == History(init, llh, pairs[..I - 1], accepts[..I - 1])
      invariant adjs == Adjs(hist) && llhs == Llhs(hist)
    {
      HistorySnoc(init, llh, pairs, accepts, I);
      PairsInPrefix(|init|, pairs, I - 1);
      HistoryIsTree(init, llh, pairs[..I - 1], accepts[..I - 1], I - 1);
      var oldLlh, oldAdj := llhs[|llhs| - 1], adjs[|adjs| - 1];
      var newAdj := PermuteAdj(oldAdj, pairs[I - 1].0, pairs[I - 1].1);
      var newLlh := llh(newAdj);
      ghost var next := if accepts[I - 1] then Sample(newAdj, newLlh) else hist[I - 1];
      if accepts[I - 1] {
        adjs := adjs + [newAdj];
        llhs := llhs + [newLlh];
      } else {
        adjs := adjs + [oldAdj];
        llhs := llhs + [oldLlh];
      }
      AppendSample(hist, next);
      hist := hist + [next];
    }
    assert pairs[..|pairs|] == pairs && accepts[..|pairs|] == accepts;
  }

  /** run_chain: start from the branching tree (the only initialiser
      offered), take nsamples - 1 Metropolis steps, and return the best entry. */
  method RunChain(K: nat, llh: Matrix -> real, nsamples: nat, d: Draws) returns (bestAdj: Option<Matrix>, bestLlh: ExtReal)
    requires K >= 2 && ValidDraws(K, nsamples, d)
    ensures var s := ChainBest(K, llh, nsamples, d);
      bestAdj == Some(s.adj) && bestLlh == Finite(s.llh)
  {
    var init := InitBranching(K);
    BranchingShape(K);
    var adjs, llhs := RunSteps(init, llh, d.pairs, d.accepts);
    assert llhs[..|adjs|] == llhs;
    bestAdj, bestLlh := ChooseBestTree(adjs, llhs);
  }

  /** The best entries of the chains, chain by chain. */
  ghost function Bests(k: nat, llh: Matrix -> real, nsamples: nat, chains: seq<Draws>): (bs: seq<Sample>)
    requires k >= 2 && forall c :: 0 <= c < |chains| ==> ValidDraws(k, nsamples, chains[c])
    ensures |bs| == |chains|
    ensures forall c :: 0 <= c < |chains| ==> bs[c] == ChainBest(k, llh, nsamples, chains[c])
  {
    seq(|chains|, c requires 0 <= c < |chains| => ChainBest(k, llh, nsamples, chains[c]))
  }

  /** The tree sample_trees keeps is the best of the chains' best trees. It is a
      tree whose likelihood is at least that of every entry of every chain. */
  lemma GlobalBest(k: nat, llh: Matrix -> real, nsamples: nat, chains: seq<Draws>)
    requires k >= 2 && |chains| > 0
    requires forall c :: 0 <= c < |chains| ==> ValidDraws(k, nsamples, chains[c])
    ensures var bs := Bests(k, llh, nsamples, chains);
      var s := bs[BestIndex(Llhs(bs))];
      && IsTree(s.adj) && |s.adj| == k && s.llh == llh(s.adj)
      && forall c, i :: 0 <= c < |chains| && 0 <= i < nsamples ==>
           ChainHistory(k, llh, nsamples, chains[c])[i].llh <= s.llh
  {
    var bs := Bests(k, llh, nsamples, chains);
    var b := BestIndex(Llhs(bs));
    ChainBestIsBest(k, llh, nsamples, chains[b]);
    forall c, i | 0 <= c < |chains| && 0 <= i < nsamples
      ensures ChainHistory(k, llh, nsamples, chains[c])[i].llh <= bs[b].llh
    {
      ChainBestIsBest(k, llh, nsamples, chains[c]);
      assert Llhs(bs)[c] <= Llhs(bs)[b];
    }
  }

  /** sample_trees, sequential branch: run every chain and keep the best tree
      of all of them, returned as one-element lists. With no chains the call
      to choose_best_tree lacks its arguments, hence at least one chain. */
  method SampleTrees(K: nat, llh: Matrix -> real, nsamples: nat, chains: seq<Draws>)
    returns (adjs: seq<Matrix>, llhs: seq<real>)
    requires K >= 2 && |chains| > 0
    requires forall c :: 0 <= c < |chains| ==> ValidDraws(K, nsamples, chains[c])
    ensures var bs := Bests(K, llh, nsamples, chains);
      var s := bs[BestIndex(Llhs(bs))];
      adjs == [s.adj] && llhs == [s.llh]
  {
    ghost var bs := Bests(K, llh, nsamples, chains);
    var resultAdjs: seq<Matrix> := [];
    var resultLlhs: seq<real> := [];
    for C := 0 to |chains|
      invariant |resultAdjs| == C && |resultLlhs| == C
      invariant forall c :: 0 <= c < C ==> resultAdjs[c] == bs[c].adj && resultLlhs[c] == bs[c].llh
    {
      var a, l := RunChain(K, llh, nsamples, chains[C]);
      resultAdjs := resultAdjs + [a.value];
      resultLlhs := resultLlhs + [l.value];
    }
    assert resultLlhs[..|resultAdjs|] == resultLlhs == Llhs(bs);
    var best, bestLlh := ChooseBestTree(resultAdjs, resultLlhs);
    adjs, llhs := [best.value], [bestLlh.value];
  }
}
