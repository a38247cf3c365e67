/** Products by repeated addition: the solver handles these far better than products of variables. */
module Multiples {

  function Times(k: nat, f: nat): nat {
    if k == 0 then 0 else Times(k - 1, f) + f
  }

  lemma {:induction false} TimesIsProduct(k: nat, f: nat)
    ensures Times(k, f) == k * f
  {
    if k > 0 {
      TimesIsProduct(k - 1, f);
    }
  }

  lemma {:induction false} TimesMonotone(j: nat, k: nat, f: nat)
    requires j <= k
    ensures Times(j, f) <= Times(k, f)
  {
    if j < k {
      TimesMonotone(j, k - 1, f);
    }
  }

  lemma QuotientStep(a: nat, f: nat)
    requires 0 < f <= a
    ensures (a - f) / f + 1 == a / f
  {
    var d := a / f - (a - f) / f;
    assert 0 < d * f < 2 * f;
    OneOrMore(d, f);
  }

  lemma OneOrMore(d: int, f: nat)
    ensures d >= 2 ==> d * f >= 2 * f
    ensures d <= 0 ==> d * f <= 0
  {
  }

  lemma RemainderStep(a: nat, f: nat)
    requires 0 < f <= a
    ensures (a - f) % f == a % f
  {
    QuotientStep(a, f);
    var p := (a - f) / f;
    assert a == (p + 1) * f + a % f;
    assert a - f == p * f + (a - f) % f;
    assert (p + 1) * f == p * f + f;
  }
}
