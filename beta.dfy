/** calc_beta_params (tree_sampler.py:134-144): the integer shape parameters of
    the Beta model of each supervariant's cell fraction. */
module BetaParams {
  import opened Wrappers

  /** Per-sample read counts of one supervariant. */
  datatype Supervar = Supervar(varReads: seq<int>, refReads: seq<int>)

  /** alpha[c][s] and beta[c][s] for supervariant c in sample s. */
  datatype Params = Params(alpha: seq<seq<int>>, beta: seq<seq<int>>)

  function Max(a: int, b: int): int
  {
    if a >= b then a else b
  }

  /** Both per-sample count vectors of every supervariant have the sample count s. */
  predicate Rectangular(supervars: seq<Supervar>, s: nat)
  {
    forall c :: 0 <= c < |supervars| ==>
      |supervars[c].varReads| == s && |supervars[c].refReads| == s
  }

  /** alpha = 2V + 1 and beta = max(1, R - V + 1), elementwise, followed by the
      assertion that both are positive. The supervariants come in the order of
      their numeric ids. */
  function CalcBetaParams(supervars: seq<Supervar>, s: nat): (r: Result<Params>)
    requires Rectangular(supervars, s)
    ensures r.Ok? <==> forall c, t :: 0 <= c < |supervars| && 0 <= t < s ==> supervars[c].varReads[t] >= 0
    ensures r.Ok? ==>
      && |r.value.alpha| == |supervars| && |r.value.beta| == |supervars|
      && (forall c :: 0 <= c < |supervars| ==> |r.value.alpha[c]| == s && |r.value.beta[c]| == s)
      && (forall c, t :: 0 <= c < |supervars| && 0 <= t < s ==>
            var v, rr := supervars[c].varReads[t], supervars[c].refReads[t];
            && r.value.alpha[c][t] == 2 * v + 1
            && r.value.beta[c][t] == Max(1, rr - v + 1)
            && r.value.alpha[c][t] >= 1 && r.value.beta[c][t] >= 1)
  {
    var n := |supervars|;
    var alpha := seq(n, c requires 0 <= c < n =>
      seq(s, t requires 0 <= t < s => 2 * supervars[c].varReads[t] + 1));
    var beta := seq(n, c requires 0 <= c < n =>
      seq(s, t requires 0 <= t < s => Max(1, supervars[c].refReads[t] - supervars[c].varReads[t] + 1)));
    if forall c, t :: 0 <= c < n && 0 <= t < s ==> alpha[c][t] > 0 && beta[c][t] > 0 then
      assert forall c, t :: 0 <= c < n && 0 <= t < s ==> alpha[c][t] == 2 * supervars[c].varReads[t] + 1;
      Ok(Params(alpha, beta))
    else
      Err("alpha and beta must be positive")
  }

  /** The parameters of a supervariant with no reads at all are the uniform Beta(1, 1). */
  lemma NoReadsIsUniform(supervars: seq<Supervar>, s: nat, c: nat, t: nat)
    requires Rectangular(supervars, s) && c < |supervars| && t < s
    requires forall c', t' :: 0 <= c' < |supervars| && 0 <= t' < s ==> supervars[c'].varReads[t'] >= 0
    requires supervars[c].varReads[t] == 0 && supervars[c].refReads[t] == 0
    ensures CalcBetaParams(supervars, s).Ok?
    ensures CalcBetaParams(supervars, s).value.alpha[c][t] == 1
    ensures CalcBetaParams(supervars, s).value.beta[c][t] == 1
  {
  }
}
