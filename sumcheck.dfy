/** The sum-check verifier circuit and the prover-side helpers: the round loop with its
    Fiat-Shamir challenges, the R1CS sum e(x) * (a(x) * b(x) - c(x)), and the folding of an
    evaluation table by a challenge. */
module SumCheck {
  import opened Field
  import opened Polynomials
  import opened Hashmanager

  /** Every round polynomial is a cubic given by its four coefficients, low to high. */
  const NUMBER_OF_COEFFS_IN_CUBIC: nat := 4

  /** The circuit's inputs: the claimed sum, the value of the polynomial at the challenge
      vector, and one round polynomial per variable. */
  datatype Circuit = Circuit(expectedSum: Felt, valueAtChallengeVector: Felt, gPolynomials: seq<seq<Felt>>)

  /** Every round polynomial has exactly four coefficients. */
  predicate AllCubic(gs: seq<seq<Felt>>)
  {
    forall i :: 0 <= i < |gs| ==> |gs[i]| == NUMBER_OF_COEFFS_IN_CUBIC
  }

  /** The round challenges: the hashes one shared manager returns after absorbing each round
      polynomial's coefficients, rounds in order. */
  function Challenges(hash: Hasher, gs: seq<seq<Felt>>): (rs: seq<Felt>)
    ensures |rs| == |gs|
  {
    CollectAll(hash, Empty(), gs).1
  }

  /** The claim carried out of the rounds gs when round i is evaluated at rs[i]:
      G_{k-1}(r_{k-1}) in the field, or the claimed sum itself when there are no rounds. */
  function Claim(expectedSum: Felt, gs: seq<seq<Felt>>, rs: seq<Felt>): Felt
    requires |gs| <= |rs|
  {
    if |gs| == 0 then expectedSum else Eval(gs[|gs| - 1], rs[|gs| - 1])
  }

  /** The claim the circuit compares with ValueAtChallengeVector. */
  function FinalClaim(hash: Hasher, expectedSum: Felt, gs: seq<seq<Felt>>): Felt
  {
    Claim(expectedSum, gs, Challenges(hash, gs))
  }

  /** Round i in terms of the manager's state before it: one more Collect call, whose hash
      is the round's challenge, the same whatever rounds follow. */
  lemma RoundStep(hash: Hasher, gs: seq<seq<Felt>>, i: nat)
    requires i < |gs|
    ensures var step := Collect(hash, CollectAll(hash, Empty(), gs[..i]).0, gs[i]);
            CollectAll(hash, Empty(), gs[..i + 1]).0 == step.0
            && step.1 == Challenges(hash, gs)[i]
  {
    var pre := gs[..i + 1];
    assert pre[..i] == gs[..i] && pre[i] == gs[i];
    CollectAllPrefix(hash, Empty(), gs, i + 1);
  }

  /** The degree-3 Horner step of the circuit (cumulative from the top coefficient, then the
      constant term) computes G(r) in the field. */
  method EvaluateCubic(g: seq<Felt>, r: Felt) returns (e: Felt)
    requires |g| == NUMBER_OF_COEFFS_IN_CUBIC
    ensures e == Eval(g, r) == PowerSum(g, r) % P
  {
    var cumulative := g[NUMBER_OF_COEFFS_IN_CUBIC - 1];
    var j := NUMBER_OF_COEFFS_IN_CUBIC - 2;
    assert g[3..][1..] == [];
    while j >= 1
      invariant 0 <= j <= 2
      invariant cumulative == Eval(g[j + 1..], r)
    {
      assert g[j..][1..] == g[j + 1..];
      assert Add(g[j], Mul(cumulative, r)) == Add(Mul(cumulative, r), g[j]);
      cumulative := Add(g[j], Mul(cumulative, r));
      j := j - 1;
    }
    assert Add(g[0], Mul(cumulative, r)) == Add(Mul(cumulative, r), g[0]);
    e := Add(g[0], Mul(cumulative, r));
    EvalIsPowerSum(g, r);
  }

  /** Circuit.Define as written: per round, absorb G_i into the shared manager to get r_i and
      overwrite the running claim with G_i(r_i); accept iff every G_i is a cubic and the last
      claim equals ValueAtChallengeVector. The incoming claim is never compared with
      G_i(0) + G_i(1). */
  method Define(circuit: Circuit, hash: Hasher) returns (accepted: bool)
    ensures accepted <==> AllCubic(circuit.gPolynomials)
                          && FinalClaim(hash, circuit.expectedSum, circuit.gPolynomials)
                             == circuit.valueAtChallengeVector
  {
    var gs := circuit.gPolynomials;
    ghost var rs := Challenges(hash, gs);
    var manager := new HashManager.NewHashManager(hash);
    var gLength := |gs|;
    var e := circuit.expectedSum;
    var i := 0;
    while i < gLength
      invariant 0 <= i <= gLength
      invariant forall k :: 0 <= k < i ==> |gs[k]| == NUMBER_OF_COEFFS_IN_CUBIC
      invariant manager.hash == hash
      invariant manager.State() == CollectAll(hash, Empty(), gs[..i]).0
      invariant e == Claim(circuit.expectedSum, gs[..i], rs)
    {
      if |gs[i]| != NUMBER_OF_COEFFS_IN_CUBIC {
        return false;
      }
      assert forall k :: 0 <= k < i + 1 ==> |gs[k]| == NUMBER_OF_COEFFS_IN_CUBIC;
      RoundStep(hash, gs, i);
      var rI := manager.WriteInputAndCollectAndReturnHash(gs[i]);
      e := EvaluateCubic(gs[i], rI);
      assert gs[..i + 1][i] == gs[i];
      i := i + 1;
    }
    assert gs[..gLength] == gs;
    accepted := e == circuit.valueAtChallengeVector;
  }

  /** G(0) + G(1) equals the claim, in the field. */
  predicate RoundHolds(g: seq<Felt>, claim: Felt)
  {
    Add(Eval(g, 0), Eval(g, 1)) == claim
  }

  /** The consistency check the sum-check protocol prescribes, round i evaluated at rs[i]:
      every round's G_i(0) + G_i(1) equals the claim carried into it. */
  predicate Consistent(expectedSum: Felt, gs: seq<seq<Felt>>, rs: seq<Felt>)
    requires |gs| <= |rs|
    decreases |gs|
  {
    |gs| == 0
    || (var pre := gs[..|gs| - 1];
        Consistent(expectedSum, pre, rs) && RoundHolds(gs[|gs| - 1], Claim(expectedSum, pre, rs)))
  }

  /** The consistency of a circuit's rounds under its own Fiat-Shamir challenges. */
  predicate RoundsConsistent(hash: Hasher, expectedSum: Felt, gs: seq<seq<Felt>>)
  {
    Consistent(expectedSum, gs, Challenges(hash, gs))
  }

  /** Consistency means every single round passes its check against the claim carried into
      it, and conversely. */
  lemma {:induction false} ConsistentEveryRound(expectedSum: Felt, gs: seq<seq<Felt>>, rs: seq<Felt>)
    requires |gs| <= |rs|
    ensures Consistent(expectedSum, gs, rs)
        <==> forall i :: 0 <= i < |gs| ==> RoundHolds(gs[i], Claim(expectedSum, gs[..i], rs))
    decreases |gs|
  {
    if |gs| > 0 {
      var n := |gs|;
      var pre := gs[..n - 1];
      ConsistentEveryRound(expectedSum, pre, rs);
      forall i | 0 <= i < n - 1
        ensures pre[i] == gs[i] && pre[..i] == gs[..i]
      {
      }
      if Consistent(expectedSum, gs, rs) {
        forall i | 0 <= i < n
          ensures RoundHolds(gs[i], Claim(expectedSum, gs[..i], rs))
        {
          if i == n - 1 {
            assert gs[..i] == pre;
          } else {
            assert RoundHolds(pre[i], Claim(expectedSum, pre[..i], rs));
          }
        }
      } else if Consistent(expectedSum, pre, rs) {
        assert !RoundHolds(gs[n - 1], Claim(expectedSum, gs[..n - 1], rs));
      } else {
        var i :| 0 <= i < n - 1 && !RoundHolds(pre[i], Claim(expectedSum, pre[..i], rs));
        assert !RoundHolds(gs[i], Claim(expectedSum, gs[..i], rs));
      }
    }
  }

  /** Consistency of the first i + 1 rounds: the first i are consistent and round i passes. */
  lemma ConsistentStep(expectedSum: Felt, gs: seq<seq<Felt>>, rs: seq<Felt>, i: nat)
    requires i < |gs| <= |rs|
    ensures Consistent(expectedSum, gs[..i + 1], rs)
        <==> Consistent(expectedSum, gs[..i], rs) && RoundHolds(gs[i], Claim(expectedSum, gs[..i], rs))
  {
    var pre := gs[..i + 1];
    assert pre[..i] == gs[..i] && pre[i] == gs[i];
  }

  /** A consistent prefix stays consistent when the next round passes its check. */
  lemma ConsistentExtend(expectedSum: Felt, gs: seq<seq<Felt>>, rs: seq<Felt>, i: nat)
    requires i < |gs| <= |rs|
    requires Consistent(expectedSum, gs[..i], rs) && RoundHolds(gs[i], Claim(expectedSum, gs[..i], rs))
    ensures Consistent(expectedSum, gs[..i + 1], rs)
  {
    ConsistentStep(expectedSum, gs, rs, i);
  }

  /** A prefix of a consistent run of rounds is consistent. */
  lemma {:induction false} ConsistentPrefix(expectedSum: Felt, gs: seq<seq<Felt>>, rs: seq<Felt>, i: nat)
    requires i <= |gs| <= |rs| && Consistent(expectedSum, gs, rs)
    ensures Consistent(expectedSum, gs[..i], rs)
    decreases |gs|
  {
    if i < |gs| {
      var pre := gs[..|gs| - 1];
      ConsistentPrefix(expectedSum, pre, rs, i);
      assert pre[..i] == gs[..i];
    } else {
      assert gs[..i] == gs;
    }
  }

  /** A run whose round i fails its check is inconsistent as a whole. */
  lemma InconsistentAt(expectedSum: Felt, gs: seq<seq<Felt>>, rs: seq<Felt>, i: nat)
    requires i < |gs| <= |rs| && !RoundHolds(gs[i], Claim(expectedSum, gs[..i], rs))
    ensures !Consistent(expectedSum, gs, rs)
  {
    if Consistent(expectedSum, gs, rs) {
      ConsistentPrefix(expectedSum, gs, rs, i + 1);
      ConsistentStep(expectedSum, gs, rs, i);
    }
  }

  /** The round check: G(0) + G(1), each evaluated as UniP does, compared with the incoming
      claim. */
  method CheckRound(g: seq<Felt>, claim: Felt) returns (ok: bool)
    requires |g| == NUMBER_OF_COEFFS_IN_CUBIC
    ensures ok <==> RoundHolds(g, claim)
  {
    var atZero := UniP(g, 0);
    var atOne := UniP(g, 1);
    ok := Add(atZero, atOne) == claim;
  }

  /** The round check of round i inside a run: passing extends the consistent prefix by
      round i, failing makes the whole run inconsistent. */
  method CheckRoundOfRun(expectedSum: Felt, gs: seq<seq<Felt>>, ghost rs: seq<Felt>, i: nat, claim: Felt)
    returns (ok: bool)
    requires i < |gs| <= |rs| && |gs[i]| == NUMBER_OF_COEFFS_IN_CUBIC
    requires Consistent(expectedSum, gs[..i], rs) && claim == Claim(expectedSum, gs[..i], rs)
    ensures ok ==> Consistent(expectedSum, gs[..i + 1], rs)
    ensures !ok ==> !Consistent(expectedSum, gs, rs)
  {
    ok := CheckRound(gs[i], claim);
    if ok {
      ConsistentExtend(expectedSum, gs, rs, i);
    } else {
      InconsistentAt(expectedSum, gs, rs, i);
    }
  }

  /** Circuit.Define with the per-round check restored: before the claim is overwritten,
      G_i(0) + G_i(1) must equal it. */
  method DefineWithRoundChecks(circuit: Circuit, hash: Hasher) returns (accepted: bool)
    ensures accepted <==> AllCubic(circuit.gPolynomials)
                          && RoundsConsistent(hash, circuit.expectedSum, circuit.gPolynomials)
                          && FinalClaim(hash, circuit.expectedSum, circuit.gPolynomials)
                             == circuit.valueAtChallengeVector
  {
    var gs := circuit.gPolynomials;
    ghost var rs := Challenges(hash, gs);
    var manager := new HashManager.NewHashManager(hash);
    var e := circuit.expectedSum;
    var i := 0;
    while i < |gs|
      invariant 0 <= i <= |gs|
      invariant forall k :: 0 <= k < i ==> |gs[k]| == NUMBER_OF_COEFFS_IN_CUBIC
      invariant Consistent(circuit.expectedSum, gs[..i], rs)
      invariant manager.hash == hash
      invariant manager.State() == CollectAll(hash, Empty(), gs[..i]).0
      invariant e == Claim(circuit.expectedSum, gs[..i], rs)
    {
      if |gs[i]| != NUMBER_OF_COEFFS_IN_CUBIC {
        return false;
      }
      assert forall k :: 0 <= k < i + 1 ==> |gs[k]| == NUMBER_OF_COEFFS_IN_CUBIC;
      var ok := CheckRoundOfRun(circuit.expectedSum, gs, rs, i, e);
      if !ok {
        return false;
      }
      RoundStep(hash, gs, i);
      var rI := manager.WriteInputAndCollectAndReturnHash(gs[i]);
      e := EvaluateCubic(gs[i], rI);
      assert gs[..i + 1][i] == gs[i];
      i := i + 1;
    }
    assert gs[..|gs|] == gs;
    accepted := e == circuit.valueAtChallengeVector;
  }

  /** The constant cubic G(x) = v: G(r) == v at every r, so G(0) + G(1) == 2v. */
  lemma ConstantCubic(v: Felt, r: Felt)
    ensures Eval([v, 0, 0, 0], r) == v
  {
    var g := [v, 0, 0, 0];
    assert g[1..] == [0, 0, 0] && g[1..][1..] == [0, 0] && g[1..][1..][1..] == [0];
    assert [0][1..] == [];
    assert Eval([0], r) == 0;
    assert Eval([0, 0], r) == 0;
    assert Eval([0, 0, 0], r) == 0;
  }

  /** The circuit as written accepts a one-round proof with G_0 = [v, 0, 0, 0] and value v
      whatever sum is claimed, although G_0(0) + G_0(1) == 2v. */
  lemma DefineIgnoresClaimedSum(hash: Hasher, claimed: Felt, v: Felt)
    ensures AllCubic([[v, 0, 0, 0]])
    ensures FinalClaim(hash, claimed, [[v, 0, 0, 0]]) == v
  {
    ConstantCubic(v, Challenges(hash, [[v, 0, 0, 0]])[0]);
  }

  /** With the round check restored, that proof is rejected unless the claim is 2v. */
  lemma RoundChecksRejectWrongClaim(hash: Hasher, claimed: Felt, v: Felt)
    requires claimed != Add(v, v)
    ensures !RoundsConsistent(hash, claimed, [[v, 0, 0, 0]])
  {
    var gs := [[v, 0, 0, 0]];
    ConstantCubic(v, 0);
    ConstantCubic(v, 1);
    assert gs[..0] == [];
    InconsistentAt(claimed, gs, Challenges(hash, gs), 0);
  }

  /** e(x) * (a(x) * b(x) - c(x)) summed over the first n points, over the integers. */
  function CubicSum(e: seq<int>, a: seq<int>, b: seq<int>, c: seq<int>, n: nat): int
    requires n <= |e| && n <= |a| && n <= |b| && n <= |c|
  {
    if n == 0 then 0
    else CubicSum(e, a, b, c, n - 1) + e[n - 1] * (a[n - 1] * b[n - 1] - c[n - 1])
  }

  /** calculateCubic: the sum of e[i] * (a[i] * b[i] - c[i]) over the indexes of e, with no
      modular reduction. */
  method CalculateCubic(e: seq<int>, aZ: seq<int>, bZ: seq<int>, cZ: seq<int>) returns (result: int)
    requires |aZ| >= |e| && |bZ| >= |e| && |cZ| >= |e|
    ensures result == CubicSum(e, aZ, bZ, cZ, |e|)
  {
    result := 0;
    var i := 0;
    while i < |e|
      invariant 0 <= i <= |e|
      invariant result == CubicSum(e, aZ, bZ, cZ, i)
    {
      var tmp := aZ[i] * bZ[i];
      tmp := tmp - cZ[i];
      tmp := tmp * e[i];
      result := result + tmp;
      i := i + 1;
    }
  }

  /** Wherever a * b == c holds point by point (a satisfied R1CS witness), the sum is zero. */
  lemma {:induction false} CubicSumOfSatisfied(e: seq<int>, a: seq<int>, b: seq<int>, c: seq<int>, n: nat)
    requires n <= |e| && n <= |a| && n <= |b| && n <= |c|
    requires forall i :: 0 <= i < n ==> a[i] * b[i] == c[i]
    ensures CubicSum(e, a, b, c, n) == 0
  {
    if n > 0 {
      CubicSumOfSatisfied(e, a, b, c, n - 1);
    }
  }

  /** The vectors the driver feeds to calculateCubic. */
  const MAIN_E: seq<int> := [1, 4, 3, 6, 3, 5, 0, 0]
  const MAIN_A_Z: seq<int> := [3, 9, 30, 25, 5, 25, 0, 0]
  const MAIN_B_Z: seq<int> := [3, 3, 1, 1, 5, 1, 0, 0]
  const MAIN_C_Z: seq<int> := [9, 27, 30, 25, 25, 25, 0, 0]

  /** The driver's vectors satisfy a * b == c everywhere, so the initial claimed sum is 0. */
  lemma MainVectorsSumToZero()
    ensures CubicSum(MAIN_E, MAIN_A_Z, MAIN_B_Z, MAIN_C_Z, 8) == 0
  {
    CubicSumOfSatisfied(MAIN_E, MAIN_A_Z, MAIN_B_Z, MAIN_C_Z, 8);
  }

  /** The table after binding its top variable to r: entry i moves from f[i] toward f[n + i]
      by r times their difference, n = |f| / 2. */
  function Folded(f: seq<int>, r: int): (g: seq<int>)
    ensures |g| == |f| / 2
  {
    var n := |f| / 2;
    seq(n, i requires 0 <= i < n => f[i] + r * (f[n + i] - f[i]))
  }

  /** Folding interpolates between the halves: r = 0 gives the low half, r = 1 the high half,
      and in general entry i is (1 - r) * f[i] + r * f[n + i]. */
  lemma FoldedInterpolates(f: seq<int>, r: int)
    ensures Folded(f, 0) == f[..|f| / 2]
    ensures Folded(f, 1) == f[|f| / 2..2 * (|f| / 2)]
    ensures forall i :: 0 <= i < |f| / 2 ==>
              Folded(f, r)[i] == (1 - r) * f[i] + r * f[|f| / 2 + i]
  {
    var n := |f| / 2;
    forall i | 0 <= i < n
      ensures Folded(f, r)[i] == (1 - r) * f[i] + r * f[n + i]
    {
      assert r * (f[n + i] - f[i]) == r * f[n + i] - r * f[i];
    }
  }

  /** replace_r_in_f: folds the top half into the bottom half in place and returns the
      bottom half; the top half of the array is left as it was. */
  method ReplaceRInF(f: array<int>, r: int) returns (folded: seq<int>)
    modifies f
    ensures folded == Folded(old(f[..]), r)
    ensures f[..f.Length / 2] == folded
    ensures f[f.Length / 2..] == old(f[f.Length / 2..])
  {
    var n := f.Length / 2;
    var i := 0;
    while i < n
      invariant 0 <= i <= n
      invariant forall k :: 0 <= k < i ==> f[k] == Folded(old(f[..]), r)[k]
      invariant forall k :: i <= k < f.Length ==> f[k] == old(f[k])
    {
      var diff := f[n + i] - f[i];
      var scaled := r * diff;
      f[i] := f[i] + scaled;
      i := i + 1;
    }
    folded := f[..n];
  }
}
