/** Arithmetic of aligned offsets, kept apart because it is non-linear. */
module Sectors {

  predicate Aligned(x: nat, e: nat)
    requires e > 0
  {
    x % e == 0
  }

  /** Start of the sector of size `e` that holds byte `x`. */
  function Start(x: nat, e: nat): (s: nat)
    requires e > 0
    ensures s <= x < s + e
  {
    x - x % e
  }

  lemma LessMul(a: int, b: int, e: nat)
    requires a < b
    ensures a * e + e <= b * e
  {
    assert (b - a) * e == b * e - a * e;
    assert (b - a - 1) * e >= 0 by {
      NonNeg(b - a - 1, e);
    }
    assert (b - a - 1) * e == (b - a) * e - e;
  }

  lemma NonNeg(a: nat, b: nat)
    ensures a * b >= 0
  {
  }

  lemma QuotientIs(x: nat, k: nat, e: nat)
    requires e > 0 && k * e <= x < k * e + e
    ensures x / e == k
  {
    var q := x / e;
    assert x == q * e + x % e;
    if q < k { LessMul(q, k, e); }
    if q > k { LessMul(k, q, e); }
  }

  lemma Quotient(x: nat, e: nat)
    requires e > 0
    ensures x / e * e == Start(x, e)
  {
  }

  lemma Multiple(k: nat, e: nat)
    requires e > 0
    ensures Aligned(k * e, e)
  {
    QuotientIs(k * e, k, e);
  }

  lemma StartAligned(x: nat, e: nat)
    requires e > 0
    ensures Aligned(Start(x, e), e)
  {
    Quotient(x, e);
    Multiple(x / e, e);
  }

  lemma StartIs(x: nat, s: nat, e: nat)
    requires e > 0 && Aligned(s, e) && s <= x < s + e
    ensures Start(x, e) == s
  {
    Quotient(s, e);
    QuotientIs(x, s / e, e);
    Quotient(x, e);
  }

  lemma NextAligned(s: nat, e: nat)
    requires e > 0 && Aligned(s, e)
    ensures Aligned(s + e, e)
  {
    Quotient(s, e);
    assert (s / e + 1) * e == s + e;
    Multiple(s / e + 1, e);
  }

  lemma SumAligned(a: nat, b: nat, e: nat)
    requires e > 0 && Aligned(a, e) && Aligned(b, e)
    ensures Aligned(a + b, e)
  {
    Quotient(a, e);
    Quotient(b, e);
    assert (a / e + b / e) * e == a + b;
    Multiple(a / e + b / e, e);
  }

  /** Two aligned offsets less than a sector apart are equal. */
  lemma SameAligned(a: nat, b: nat, e: nat)
    requires e > 0 && Aligned(a, e) && Aligned(b, e) && a <= b < a + e
    ensures a == b
  {
    StartIs(b, a, e);
  }

  lemma AlignedToDivisor(s: nat, e: nat, d: nat)
    requires e > 0 && d > 0 && Aligned(s, e) && Aligned(e, d)
    ensures Aligned(s, d)
  {
    Quotient(s, e);
    Quotient(e, d);
    var q, m := s / e, e / d;
    assert q * (m * d) == (q * m) * d;
    Multiple(q * m, d);
  }

  lemma StartMonotone(x: nat, y: nat, e: nat)
    requires e > 0 && x <= y
    ensures Start(x, e) <= Start(y, e)
  {
    StartAligned(x, e);
    StartAligned(y, e);
    if Start(y, e) < Start(x, e) {
      SameAligned(Start(y, e), Start(x, e), e);
    }
  }
}
