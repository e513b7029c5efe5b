/** Shifts, or and masks on 32-bit words, bit by bit, and when they are arithmetic. */
module Bits {
  import opened Words

  function Pow2(k: nat): (p: nat)
    ensures p > 0
  {
    if k == 0 then 1 else 2 * Pow2(k - 1)
  }

  /** `a | b`. */
  function Or(a: nat, b: nat): nat
    decreases a + b
  {
    if a == 0 && b == 0 then 0 else 2 * Or(a / 2, b / 2) + if a % 2 == 1 || b % 2 == 1 then 1 else 0
  }

  /** `a & b`. */
  function And(a: nat, b: nat): nat
    decreases a
  {
    if a == 0 then 0 else 2 * And(a / 2, b / 2) + if a % 2 == 1 && b % 2 == 1 then 1 else 0
  }

  /** `a << k` on a 32-bit word: bits shifted out are lost. */
  function Shl(a: nat, k: nat): nat { a * Pow2(k) % TWO_32 }

  /** `a >> k`. */
  function Shr(a: nat, k: nat): nat {
    QuotientIsNat(a, Pow2(k));
    a / Pow2(k)
  }

  lemma QuotientIsNat(a: nat, p: nat)
    requires p > 0
    ensures a / p >= 0
  {
  }

  lemma Pow2Values()
    ensures Pow2(0) == 1 && Pow2(6) == 0x40 && Pow2(8) == 0x100 && Pow2(12) == 0x1000
    ensures Pow2(16) == 0x1_0000 && Pow2(18) == 0x4_0000 && Pow2(24) == 0x100_0000
  {
  }

  lemma {:induction false} OrZero(a: nat)
    ensures Or(a, 0) == Or(0, a) == a
  {
    if a > 0 {
      OrZero(a / 2);
    }
  }

  /** Fields that occupy disjoint bits are or-ed by adding them. */
  lemma {:induction false} OrOfDisjointBits(m: nat, k: nat, b: nat)
    requires b < Pow2(k)
    ensures Or(m * Pow2(k), b) == m * Pow2(k) + b
  {
    if k == 0 {
      OrZero(m);
    } else {
      var half := m * Pow2(k - 1);
      assert m * Pow2(k) == 2 * half;
      OrOfDisjointBits(m, k - 1, b / 2);
      assert 2 * half / 2 == half && 2 * half % 2 == 0;
    }
  }

  lemma {:induction false} AndZero(v: nat)
    ensures And(v, 0) == 0
  {
    if v > 0 {
      AndZero(v / 2);
    }
  }

  /** Masking with k ones is the remainder by 2^k. */
  lemma {:induction false} MaskIsRemainder(v: nat, k: nat)
    ensures And(v, Pow2(k) - 1) == v % Pow2(k)
  {
    if k == 0 {
      AndZero(v);
    } else {
      MaskIsRemainder(v / 2, k - 1);
      HalvedRemainder(v, Pow2(k - 1));
    }
  }

  lemma HalvedRemainder(v: nat, p: nat)
    requires p > 0
    ensures v % (2 * p) == 2 * (v / 2 % p) + v % 2
  {
    var h := v / 2;
    Euclid(h, p);
    assert h / p * (2 * p) == 2 * (h / p * p);
    RemainderIsUnique(v, 2 * p, h / p, 2 * (h % p) + v % 2);
  }

  lemma Euclid(v: int, d: int)
    requires d > 0
    ensures v == v / d * d + v % d && 0 <= v % d < d
  {
  }

  lemma RemainderIsUnique(v: int, d: int, q: int, r: int)
    requires 0 <= r < d && v == q * d + r
    ensures v % d == r
  {
    Euclid(v, d);
    if q > v / d {
      MultiplesAreApart(q, v / d, d);
    } else if q < v / d {
      MultiplesAreApart(v / d, q, d);
    }
  }

  lemma MultiplesAreApart(a: int, b: int, d: int)
    requires a > b && d > 0
    ensures a * d >= b * d + d
  {
    var k := a - b - 1;
    assert a * d == b * d + d + k * d && k * d >= 0;
  }
}
