/** Division of natural numbers, as far as bounds and digits need it. */
module Arithmetic {

  lemma {:induction false} Multiples(a: nat, b: nat, m: nat)
    ensures a < b ==> a * m + m <= b * m
  {
    if a < b {
      Multiples(a, b - 1, m);
      assert b * m == (b - 1) * m + m;
    }
  }

  /** Division with remainder is unique. */
  lemma QuotientIs(a: nat, m: nat, q: nat)
    requires m > 0 && q * m <= a < q * m + m
    ensures a / m == q
  {
    Multiples(a / m, q, m);
    Multiples(q, a / m, m);
  }

  lemma DivisionMonotone(a: nat, b: nat, m: nat)
    requires m > 0 && a <= b
    ensures a / m <= b / m
  {
    Multiples(b / m, a / m, m);
  }

  lemma DivisionStep(a: nat, m: nat)
    requires m > 0 && a >= m
    ensures (a - m) / m == a / m - 1
  {
    var p := (a - m) / m;
    assert p * m <= a - m < p * m + m;
    assert (p + 1) * m == p * m + m;
    QuotientIs(a, m, p + 1);
  }

  lemma DivisionTwice(v: nat, p: nat)
    requires p > 0
    ensures v / 256 / p == v / (256 * p)
  {
    var d := v / 256;
    var q := d / p;
    assert q * p <= d < q * p + p;
    assert q * (256 * p) == 256 * (q * p);
    QuotientIs(v, 256 * p, q);
  }
}
