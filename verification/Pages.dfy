/** Page arithmetic on addresses. */
module Pages {
  import opened Arithmetic

  function Pow2(k: nat): (p: nat)
    ensures p > 0
  {
    if k == 0 then 1 else 2 * Pow2(k - 1)
  }

  /** The bitwise a & ~m, one binary digit at a time. */
  function AndNot(a: nat, m: nat): (r: nat)
    ensures r <= a
  {
    if a == 0 then 0
    else (if m % 2 == 1 then 0 else a % 2) + 2 * AndNot(a / 2, m / 2)
  }

  lemma {:induction false} AndNotNothing(a: nat)
    ensures AndNot(a, 0) == a
  {
    if a == 0 {
    } else {
      AndNotNothing(a / 2);
    }
  }

  lemma HalveModulo(a: nat, p: nat)
    requires p > 0
    ensures a % (2 * p) == a % 2 + 2 * ((a / 2) % p)
  {
    var q, r := (a / 2) / p, (a / 2) % p;
    assert a / 2 == q * p + r;
    assert a == 2 * (q * p + r) + a % 2;
    assert 2 * (q * p) == q * (2 * p);
    DivisionUnique(a, 2 * p, q, 2 * r + a % 2);
  }

  lemma OddMask(p: nat)
    requires p > 0
    ensures (2 * p - 1) % 2 == 1 && (2 * p - 1) / 2 == p - 1
  {
  }

  lemma AndNotOdd(a: nat, p: nat)
    requires p > 0
    ensures AndNot(a, 2 * p - 1) == 2 * AndNot(a / 2, p - 1)
  {
    OddMask(p);
  }

  lemma MaskOneMoreBit(a: nat, p: nat)
    requires p > 0 && AndNot(a / 2, p - 1) == a / 2 - (a / 2) % p
    ensures AndNot(a, 2 * p - 1) == a - a % (2 * p)
  {
    AndNotOdd(a, p);
    HalveModulo(a, p);
  }

  /** Clearing the k low bits rounds down to a multiple of 2^k. */
  lemma {:induction false} AndNotMask(a: nat, k: nat)
    ensures AndNot(a, Pow2(k) - 1) == a - a % Pow2(k)
  {
    if k == 0 {
      AndNotNothing(a);
    } else {
      AndNotMask(a / 2, k - 1);
      MaskOneMoreBit(a, Pow2(k - 1));
    }
  }

  /** The page that holds address a: base & ~PAGE_MASK with PAGE_MASK = page - 1. */
  function PageBase(a: nat, page: nat): nat
    requires page > 0
  {
    AndNot(a, page - 1)
  }

  ghost predicate IsPageSize(page: nat) {
    exists k: nat :: page == Pow2(k)
  }

  lemma QuotientForm(a: nat, page: nat)
    requires page > 0
    ensures a - a % page == (a / page) * page
  {
  }

  lemma PageBaseIs(a: nat, page: nat)
    requires IsPageSize(page)
    ensures page > 0 && PageBase(a, page) == a - a % page == (a / page) * page
  {
    var k: nat :| page == Pow2(k);
    AndNotMask(a, k);
    QuotientForm(a, page);
  }

  lemma MultipleBelow(q: nat, page: nat, a: nat, m: nat)
    requires m * page <= a < q * page + page
    ensures m * page <= q * page
  {
    if m > q {
      MulStep(q, page);
      MulMonotone(q + 1, m, page);
    } else {
      MulMonotone(m, q, page);
    }
  }

  /** PageBase is the greatest multiple of the page size at or below the address. */
  lemma PageBaseGreatest(a: nat, page: nat, m: nat)
    requires IsPageSize(page)
    ensures page > 0 && PageBase(a, page) % page == 0 && PageBase(a, page) <= a < PageBase(a, page) + page
    ensures m * page <= a ==> m * page <= PageBase(a, page)
  {
    PageBaseIs(a, page);
    WholeChunks(PageBase(a, page), a / page, page);
    if m * page <= a {
      MultipleBelow(a / page, page, a, m);
    }
  }

  lemma DoubledProduct(x: nat, y: nat)
    ensures 2 * (x * y) == x * (2 * y)
  {
  }

  lemma {:induction false} Pow2Product(a: nat, b: nat)
    requires a <= b
    ensures Pow2(b) == Pow2(b - a) * Pow2(a)
  {
    if a == 0 {
    } else {
      Pow2Product(a - 1, b - 1);
      DoubledProduct(Pow2(b - a), Pow2(a - 1));
    }
  }

  lemma Pow2Divides(a: nat, b: nat)
    requires a <= b
    ensures Pow2(b) % Pow2(a) == 0 && Pow2(b) / Pow2(a) == Pow2(b - a)
  {
    Pow2Product(a, b);
    WholeChunks(Pow2(b), Pow2(b - a), Pow2(a));
  }

  lemma {:induction false} Pow2Order(a: nat, b: nat)
    ensures a < b ==> 2 * Pow2(a) <= Pow2(b)
    ensures a <= b <==> Pow2(a) <= Pow2(b)
  {
    if a == 0 || b == 0 {
    } else {
      Pow2Order(a - 1, b - 1);
    }
  }
}
