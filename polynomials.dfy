/** Univariate (Horner) and multilinear (recursive halving) evaluation over the field. */
module Polynomials {
  import opened Field

  /** The reference definition: sum of coefs[i] * x^i, over the integers. */
  function PowerSum(coefs: seq<int>, x: int): int
  {
    if |coefs| == 0 then 0
    else PowerSum(coefs[..|coefs| - 1], x) + coefs[|coefs| - 1] * Pow(x, |coefs| - 1)
  }

  /** Peeling the constant term off the power sum. */
  lemma {:induction false} PowerSumCons(coefs: seq<int>, x: int)
    requires |coefs| > 0
    ensures PowerSum(coefs, x) == coefs[0] + x * PowerSum(coefs[1..], x)
    decreases |coefs|
  {
    var n := |coefs|;
    if n > 1 {
      var init := coefs[..n - 1];
      var tail := coefs[1..];
      PowerSumCons(init, x);
      assert init[1..] == tail[..n - 2];
      assert init[0] == coefs[0];
      assert tail[n - 2] == coefs[n - 1];
      var c := coefs[n - 1];
      var q := Pow(x, n - 2);
      var s := PowerSum(tail[..n - 2], x);
      assert PowerSum(coefs, x) == coefs[0] + x * s + c * (x * q);
      assert PowerSum(tail, x) == s + c * q;
      Distribute(x, s, c, q);
    }
  }

  /** x * s + c * (x * q) == x * (s + c * q). */
  lemma Distribute(x: int, s: int, c: int, q: int)
    ensures x * s + c * (x * q) == x * (s + c * q)
  {
  }

  /** The field value of a polynomial the way UniP computes it: the value of the higher
      coefficients times x, plus the constant term. */
  function Eval(coefs: seq<Felt>, x: Felt): Felt
  {
    if |coefs| == 0 then 0 else Add(Mul(Eval(coefs[1..], x), x), coefs[0])
  }

  /** The field evaluation is the power sum reduced modulo P. */
  lemma {:induction false} EvalIsPowerSum(coefs: seq<Felt>, x: Felt)
    ensures Eval(coefs, x) == PowerSum(coefs, x) % P
    decreases |coefs|
  {
    if |coefs| > 0 {
      var acc := PowerSum(coefs[1..], x);
      EvalIsPowerSum(coefs[1..], x);
      PowerSumCons(coefs, x);
      HornerStepFelt(Eval(coefs[1..], x), acc, x, coefs[0]);
    }
  }

  /** The constant coefficient alone is the value at x == 0, and the value of a polynomial of
      one coefficient anywhere. */
  lemma EvalConstantTerm(coefs: seq<Felt>, x: Felt)
    requires |coefs| > 0
    ensures x == 0 || |coefs| == 1 ==> Eval(coefs, x) == coefs[0]
  {
    var e := Eval(coefs[1..], x);
    if x == 0 {
      assert Mul(e, x) == 0;
    } else if |coefs| == 1 {
      assert e == 0;
    }
  }

  /** UniP: evaluates the polynomial with low-to-high coefficients `coefs` at `x` in the
      field, Horner style from the highest coefficient down. */
  method UniP(coefs: seq<Felt>, x: Felt) returns (result: Felt)
    requires |coefs| > 0
    ensures result == Eval(coefs, x) == PowerSum(coefs, x) % P
  {
    var n := |coefs|;
    result := coefs[n - 1];
    assert coefs[n - 1..][1..] == [];
    var i := 1;
    while i < n
      invariant 1 <= i <= n
      invariant result == Eval(coefs[n - i..], x)
    {
      assert coefs[n - 1 - i..][1..] == coefs[n - i..];
      result := Mul(result, x);
      result := Add(result, coefs[n - 1 - i]);
      i := i + 1;
    }
    assert coefs[n - n..] == coefs;
    EvalIsPowerSum(coefs, x);
  }

  /** 2^m. */
  function Pow2(m: nat): (r: nat)
    ensures r >= 1
  {
    if m == 0 then 1 else 2 * Pow2(m - 1)
  }

  /** MultP: multilinear evaluation of monomial coefficients `coefs` at `vars`; the last
      variable is consumed first: the low half of `coefs` holds the terms without it, the
      high half the terms with it. */
  function MultP(coefs: seq<Felt>, vars: seq<Felt>): Felt
    requires |coefs| >= Pow2(|vars|)
    decreases |vars|
  {
    if |vars| == 0 then coefs[0]
    else
      var half := |coefs| / 2;
      var init := vars[..|vars| - 1];
      Add(MultP(coefs[..half], init), Mul(vars[|vars| - 1], MultP(coefs[half..], init)))
  }

  /** The monomial selected by `idx`: the product of vars[j] over the bits j set in idx. */
  function Monomial(idx: nat, vars: seq<int>): int
  {
    if |vars| == 0 then 1
    else (if idx % 2 == 1 then vars[0] else 1) * Monomial(idx / 2, vars[1..])
  }

  /** Sum of coefs[k] times the monomial of index offset + k. */
  function Terms(coefs: seq<int>, vars: seq<int>, offset: nat): int
  {
    if |coefs| == 0 then 0
    else coefs[0] * Monomial(offset, vars) + Terms(coefs[1..], vars, offset + 1)
  }

  /** The closed form of a multilinear polynomial: sum of coefs[idx] times the product of
      vars[j] over the bits j set in idx. */
  function Expansion(coefs: seq<int>, vars: seq<int>): int
  {
    Terms(coefs, vars, 0)
  }

  /** An index below 2^(m-1) does not select the last variable. */
  lemma {:induction false} MonomialLow(idx: nat, vars: seq<int>)
    requires |vars| >= 1 && idx < Pow2(|vars| - 1)
    ensures Monomial(idx, vars) == Monomial(idx, vars[..|vars| - 1])
    decreases |vars|
  {
    var m := |vars|;
    if m > 1 {
      MonomialLow(idx / 2, vars[1..]);
      assert vars[1..][..m - 2] == vars[..m - 1][1..];
    }
  }

  /** Halving 2h + k keeps k's low bit and halves k. */
  lemma HalveShifted(h: nat, k: nat)
    ensures (2 * h + k) % 2 == k % 2 && (2 * h + k) / 2 == h + k / 2
  {
  }

  /** f * (g * v) == (f * g) * v. */
  lemma Associate(f: int, g: int, v: int)
    ensures f * (g * v) == (f * g) * v
  {
  }

  /** An index 2^(m-1) + k selects the last variable and, below it, what k selects. */
  lemma {:induction false} MonomialHigh(k: nat, vars: seq<int>)
    requires |vars| >= 1 && k < Pow2(|vars| - 1)
    ensures Monomial(Pow2(|vars| - 1) + k, vars)
         == Monomial(k, vars[..|vars| - 1]) * vars[|vars| - 1]
    decreases |vars|
  {
    var m := |vars|;
    var init := vars[..m - 1];
    if m > 1 {
      var h := Pow2(m - 2);
      var idx := Pow2(m - 1) + k;
      HalveShifted(h, k);
      MonomialHigh(k / 2, vars[1..]);
      assert vars[1..][..m - 2] == init[1..];
      var f := if k % 2 == 1 then vars[0] else 1;
      var g := Monomial(k / 2, init[1..]);
      var v := vars[m - 1];
      assert Monomial(idx, vars) == f * (g * v);
      assert Monomial(k, init) == f * g;
      Associate(f, g, v);
    }
  }

  /** Terms over a concatenation split at the seam. */
  lemma {:induction false} TermsSplit(a: seq<int>, b: seq<int>, vars: seq<int>, offset: nat)
    ensures Terms(a + b, vars, offset) == Terms(a, vars, offset) + Terms(b, vars, offset + |a|)
    decreases |a|
  {
    if |a| > 0 {
      assert (a + b)[0] == a[0];
      assert (a + b)[1..] == a[1..] + b;
      TermsSplit(a[1..], b, vars, offset + 1);
    } else {
      assert a + b == b;
    }
  }

  /** Terms whose indexes stay below 2^(m-1) ignore the last variable. */
  lemma {:induction false} TermsLow(a: seq<int>, vars: seq<int>, offset: nat)
    requires |vars| >= 1 && offset + |a| <= Pow2(|vars| - 1)
    ensures Terms(a, vars, offset) == Terms(a, vars[..|vars| - 1], offset)
    decreases |a|
  {
    if |a| > 0 {
      MonomialLow(offset, vars);
      TermsLow(a[1..], vars, offset + 1);
    }
  }

  /** Factoring the last variable out of one term and the rest. */
  lemma Factor(c: int, mono: int, v: int, rest: int)
    ensures c * (mono * v) + v * rest == v * (c * mono + rest)
  {
  }

  /** Terms whose indexes lie in the upper half all carry the last variable as a factor. */
  lemma {:induction false} TermsHigh(b: seq<int>, vars: seq<int>, offset: nat)
    requires |vars| >= 1 && offset + |b| <= Pow2(|vars| - 1)
    ensures Terms(b, vars, Pow2(|vars| - 1) + offset)
         == vars[|vars| - 1] * Terms(b, vars[..|vars| - 1], offset)
    decreases |b|
  {
    if |b| > 0 {
      var m := |vars|;
      var init := vars[..m - 1];
      var v := vars[m - 1];
      var mono := Monomial(offset, init);
      var rest := Terms(b[1..], init, offset + 1);
      MonomialHigh(offset, vars);
      TermsHigh(b[1..], vars, offset + 1);
      assert Terms(b, vars, Pow2(m - 1) + offset) == b[0] * (mono * v) + v * rest;
      Factor(b[0], mono, v, rest);
    }
  }

  /** The expansion obeys the same low-half / high-half recursion as MultP. */
  lemma ExpansionSplit(coefs: seq<int>, vars: seq<int>)
    requires |vars| >= 1 && |coefs| == Pow2(|vars|)
    ensures Expansion(coefs, vars)
         == Expansion(coefs[..|coefs| / 2], vars[..|vars| - 1])
          + vars[|vars| - 1] * Expansion(coefs[|coefs| / 2..], vars[..|vars| - 1])
  {
    var half := |coefs| / 2;
    assert coefs == coefs[..half] + coefs[half..];
    TermsSplit(coefs[..half], coefs[half..], vars, 0);
    TermsLow(coefs[..half], vars, 0);
    TermsHigh(coefs[half..], vars, 0);
  }

  /** Closed form of MultP: with 2^m monomial coefficients it returns, reduced into the field,
      the sum of coefs[idx] times the product of vars[j] over the bits j set in idx. */
  lemma {:induction false} MultPClosedForm(coefs: seq<Felt>, vars: seq<Felt>)
    requires |coefs| == Pow2(|vars|)
    ensures MultP(coefs, vars) == Expansion(coefs, vars) % P
    decreases |vars|
  {
    if |vars| == 0 {
      assert Expansion(coefs, vars) == coefs[0] * 1 + Terms(coefs[1..], vars, 1);
    } else {
      var half := |coefs| / 2;
      var init := vars[..|vars| - 1];
      var lo, hi := coefs[..half], coefs[half..];
      MultPClosedForm(lo, init);
      MultPClosedForm(hi, init);
      ExpansionSplit(coefs, vars);
      AddMulReduce(Expansion(lo, init), vars[|vars| - 1], Expansion(hi, init));
      assert MultP(coefs, vars) == Add(MultP(lo, init), Mul(vars[|vars| - 1], MultP(hi, init)));
    }
  }

  /** A term with a zero factor adds nothing. */
  lemma ZeroTermVanishes(a: Felt, v: Felt, b: Felt)
    requires v == 0
    ensures Add(a, Mul(v, b)) == a
  {
  }

  /** At the all-zero point MultP returns the constant coefficient coefs[0]; with no
      variables at all it returns coefs[0] outright. */
  lemma {:induction false} MultPAtOrigin(coefs: seq<Felt>, vars: seq<Felt>)
    requires |coefs| >= Pow2(|vars|)
    requires forall j :: 0 <= j < |vars| ==> vars[j] == 0
    ensures MultP(coefs, vars) == coefs[0]
    decreases |vars|
  {
    if |vars| > 0 {
      var m := |vars|;
      var half := |coefs| / 2;
      var init := vars[..m - 1];
      var lo, hi := coefs[..half], coefs[half..];
      MultPAtOrigin(lo, init);
      var low, high := MultP(lo, init), MultP(hi, init);
      assert MultP(coefs, vars) == Add(low, Mul(vars[m - 1], high));
      ZeroTermVanishes(low, vars[m - 1], high);
    }  }
}
