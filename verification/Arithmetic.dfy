/** Facts about products and quotients that the solver does not find on its own. */
module Arithmetic {

  /** The largest value of a C int. */
  const INT_MAX := 0x7fff_ffff

  lemma MulStep(c: nat, d: nat)
    ensures (c + 1) * d == c * d + d
    ensures c * d >= 0
  {
  }

  lemma MulMonotone(a: nat, b: nat, d: nat)
    requires a <= b
    ensures a * d <= b * d
  {
    assert b * d == a * d + (b - a) * d;
  }

  lemma NoLargerQuotient(d: nat, q: nat, r: nat, q': nat, r': nat)
    requires r < d && q * d + r == q' * d + r'
    ensures q' <= q
  {
    if q' > q {
      MulStep(q, d);
      MulMonotone(q + 1, q', d);
    }
  }

  lemma DivisionUnique(x: nat, d: nat, q: nat, r: nat)
    requires r < d && x == q * d + r
    ensures x / d == q && x % d == r
  {
    NoLargerQuotient(d, q, r, x / d, x % d);
    NoLargerQuotient(d, x / d, x % d, q, r);
  }

  lemma WholeChunks(total: nat, rounds: nat, full: nat)
    requires full > 0
    ensures total == rounds * full ==> total % full == 0 && total / full == rounds
    ensures rounds * full < total < rounds * full + full ==> total % full != 0
  {
    if rounds * full <= total < rounds * full + full {
      DivisionUnique(total, full, rounds, total - rounds * full);
    }
  }

  lemma QuotientBound(x: nat, d: nat)
    requires d > 0
    ensures x / d <= x
  {
    var q, r := x / d, x % d;
    assert x == q * d + r;
    MulStep(d - 1, q);
    assert q * d == (d - 1) * q + q;
  }
}
