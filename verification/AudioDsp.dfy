/**
 The arithmetic of the audio diagnostics: the integer square root, the meter scale, and the loopback stage
 that removes the DC offset of a block, applies the gain, saturates and measures. The fixed-width types of
 the source are subranges of the integers, so every operation in the methods is checked not to overflow.
 */
module AudioDsp {
  import opened Sectors

  newtype Int16 = x: int | -0x8000 <= x < 0x8000
  newtype Int32 = x: int | -0x8000_0000 <= x < 0x8000_0000
  newtype Int64 = x: int | -0x8000_0000_0000_0000 <= x < 0x8000_0000_0000_0000
  newtype UInt32 = x: int | 0 <= x < 0x1_0000_0000
  newtype UInt64 = x: int | 0 <= x < 0x1_0000_0000_0000_0000

  const TWO_32: nat := 0x1_0000_0000

  // ---------------------------------------------------------------------------------------------
  // Integer square root
  // ---------------------------------------------------------------------------------------------

  /** The integer square root, by definition. */
  function Root(v: nat): (r: nat)
    ensures r * r <= v < (r + 1) * (r + 1)
  {
    if v == 0 then 0
    else
      var r := Root(v - 1);
      if (r + 1) * (r + 1) <= v then r + 1 else r
  }

  lemma SquareMonotone(a: nat, b: nat)
    ensures a <= b ==> a * a <= b * b
  {
    if a <= b {
      assert b * b - a * a == (b - a) * (b + a);
    }
  }

  lemma RootUnique(v: nat, r: nat)
    requires r * r <= v < (r + 1) * (r + 1)
    ensures r == Root(v)
  {
    SquareMonotone(r + 1, Root(v));
    SquareMonotone(Root(v) + 1, r);
  }

  lemma RootMonotone(v: nat, w: nat)
    requires v <= w
    ensures Root(v) <= Root(w)
  {
    SquareMonotone(Root(w) + 1, Root(v));
  }

  lemma RootBelow(v: nat, b: nat)
    requires v < b * b
    ensures Root(v) < b
  {
    SquareMonotone(b, Root(v));
  }

  function Pow2(k: nat): (p: nat)
    ensures p >= 1
  {
    if k == 0 then 1 else 2 * Pow2(k - 1)
  }

  /** The value of `bit` when digit `k - 1` of the root is decided next; 0 at the end. */
  function BitAt(k: nat): (b: nat)
    ensures b == 0 <==> k == 0
  {
    if k == 0 then 0 else Pow2(k - 1) * Pow2(k - 1)
  }

  lemma BitShifts(k: nat)
    requires k > 0
    ensures BitAt(k) > 0 && BitAt(k) / 4 == BitAt(k - 1)
    ensures 4 * BitAt(k) == Pow2(k) * Pow2(k)
  {
    var p := Pow2(k - 1);
    assert Pow2(k) * Pow2(k) == (2 * p) * (2 * p) == 4 * (p * p);
    if k > 1 {
      var h := Pow2(k - 2);
      assert p * p == 4 * (h * h);
    }
  }

  lemma {:induction false} Pow2Monotone(k: nat, m: nat)
    ensures k <= m ==> Pow2(k) <= Pow2(m)
  {
    if k < m { Pow2Monotone(k, m - 1); }
  }

  lemma Pow2Is32()
    ensures Pow2(32) == TWO_32
    ensures BitAt(32) == 0x4000_0000_0000_0000
  {
    assert Pow2(8) == 256;
    assert Pow2(16) == 0x1_0000;
    assert Pow2(24) == 0x100_0000;
    assert Pow2(31) == 0x8000_0000;
  }

  /** Digits above `k` of the root are decided and make `q`; `result` holds q scaled by 2^k. */
  ghost predicate RootState(v: nat, value: nat, result: nat, k: nat, q: nat) {
    && value + q * q == v < (q + Pow2(k)) * (q + Pow2(k))
    && result == q * Pow2(k) && q + Pow2(k) <= TWO_32
  }

  /** One round: digit k - 1 of the root is 1 exactly if the remainder is at least result + bit. */
  lemma RootRound(v: nat, value: nat, result: nat, k: nat, q: nat)
    requires k > 0 && RootState(v, value, result, k, q)
    ensures var bit := BitAt(k);
            && result + bit < 0x1_0000_0000_0000_0000 && result % 2 == 0
            && if value >= result + bit then RootState(v, value - (result + bit), result / 2 + bit, k - 1, q + Pow2(k - 1))
               else RootState(v, value, result / 2, k - 1, q)
  {
    var p := Pow2(k - 1);
    var qp, pp := q * p, p * p;
    assert q * (2 * p) == 2 * qp;
    assert (q + p) * (q + p) == q * q + 2 * qp + pp;
    assert (q + p) * p == qp + pp;
    RootFits(q, p);
  }

  lemma RootFits(q: nat, p: nat)
    requires q + 2 * p <= TWO_32 && p > 0
    ensures q * (2 * p) + p * p < 0x1_0000_0000_0000_0000
  {
    var s := q + 2 * p;
    assert s * s == q * q + 2 * (q * (2 * p)) + 4 * (p * p);
    SquareMonotone(s, TWO_32);
    assert p * p > 0;
    assert q * q >= 0 && q * (2 * p) >= 0;
  }

  /** mic_isqrt_u64. */
  method Isqrt(v: UInt64) returns (r: UInt32)
    ensures r as int == Root(v as int)
  {
    var value := v;
    var result: UInt64 := 0;
    var bit: UInt64 := 0x4000_0000_0000_0000;
    ghost var k: nat := 32;
    Pow2Is32();
    while bit > value
      invariant k <= 32 && bit as int == BitAt(k)
      invariant (v as int) < Pow2(k) * Pow2(k)
    {
      BitShifts(k);
      bit := bit / 4;
      k := k - 1;
    }
    ghost var q: nat := 0;
    Pow2Monotone(k, 32);
    while bit != 0
      invariant bit as int == BitAt(k)
      invariant RootState(v as int, value as int, result as int, k, q)
      decreases k
    {
      BitShifts(k);
      RootRound(v as int, value as int, result as int, k, q);
      if value >= result + bit {
        value := value - (result + bit);
        result := result / 2 + bit;
        q := q + Pow2(k - 1);
      } else {
        result := result / 2;
      }
      bit := bit / 4;
      k := k - 1;
    }
    RootUnique(v as int, q);
    r := result as UInt32;
  }

  // ---------------------------------------------------------------------------------------------
  // Meter
  // ---------------------------------------------------------------------------------------------

  /** Index of the highest set bit, 31 - clz(x) in the source. */
  function HighestBit(x: nat): (h: nat)
    requires x > 0
    ensures Pow2(h) <= x < Pow2(h + 1)
  {
    if x == 1 then 0 else HighestBit(x / 2) + 1
  }

  lemma HighestBitIs(x: nat, h: nat)
    requires Pow2(h) <= x < Pow2(h + 1)
    ensures x > 0 && HighestBit(x) == h
  {
    var k := HighestBit(x);
    Pow2Monotone(k + 1, h);
    Pow2Monotone(h + 1, k);
  }

  /** x / d, written so that proofs about it stay linear; DivIsQuotient says that it is the division of the source. */
  function Div(x: nat, d: nat): nat
    requires d > 0
  {
    if x < d then 0 else Div(x - d, d) + 1
  }

  lemma {:induction false} DivIsQuotient(x: nat, d: nat)
    requires d > 0
    ensures Div(x, d) == x / d
  {
    var k := Div(x, d);
    DivBounds(x, d);
    QuotientIs(x, k, d);
  }

  lemma {:induction false} DivBounds(x: nat, d: nat)
    requires d > 0
    ensures Div(x, d) * d <= x < Div(x, d) * d + d
  {
    if x >= d {
      DivBounds(x - d, d);
      assert Div(x, d) * d == Div(x - d, d) * d + d;
    }
  }

  /** Tenths of the way from one power of two to the next. */
  function Tenths(remainder: nat, base: nat): nat
    requires base > 0
  {
    Div(remainder * 10, base)
  }

  /** mic_level_from_rms. */
  function MeterLevel(rms: nat): int {
    if rms <= 32 then 0
    else if rms >= 32767 then 100
    else
      var base := Pow2(HighestBit(rms));
      Clamp100((HighestBit(rms) - 5) * 10 + Tenths(rms - base, base))
  }

  function Clamp100(level: int): int {
    if level < 0 then 0 else if level > 100 then 100 else level
  }

  lemma {:induction false} DivBelow(x: nat, d: nat, k: nat)
    requires d > 0 && x < (k + 1) * d
    ensures Div(x, d) <= k
  {
    if x >= d {
      assert (k + 1) * d == k * d + d;
      if k > 0 { DivBelow(x - d, d, k - 1); }
    }
  }

  lemma {:induction false} DivMonotone(x: nat, y: nat, d: nat)
    requires d > 0 && x <= y
    ensures Div(x, d) <= Div(y, d)
  {
    if x >= d { DivMonotone(x - d, y - d, d); }
  }

  lemma {:induction false} DivTwice(x: nat, d: nat)
    requires d > 0
    ensures Div(2 * x, 2 * d) == Div(x, d)
  {
    if x >= d {
      DivTwice(x - d, d);
      assert 2 * (x - d) == 2 * x - 2 * d;
    }
  }

  lemma TenthsMonotone(x: nat, y: nat, base: nat)
    requires base > 0 && x <= y
    ensures Tenths(x, base) <= Tenths(y, base)
  {
    DivMonotone(x * 10, y * 10, base);
  }

  lemma TenthsTwice(remainder: nat, base: nat)
    requires base > 0
    ensures Tenths(2 * remainder, 2 * base) == Tenths(remainder, base)
  {
    DivTwice(remainder * 10, base);
    assert 2 * remainder * 10 == 2 * (remainder * 10);
  }

  lemma TenthsBelow(remainder: nat, base: nat)
    requires remainder < base
    ensures Tenths(remainder, base) <= 9
  {
    DivBelow(remainder * 10, base, 9);
  }

  lemma BandRange(rms: nat, h: nat)
    requires 32 < rms < 32767 && h == HighestBit(rms)
    ensures 5 <= h <= 14 && rms - Pow2(h) < Pow2(h) <= 16384
  {
    assert Pow2(5) == 32;
    assert Pow2(10) == 1024;
    assert Pow2(14) == 16384;
    Pow2Monotone(h + 1, 5);
    Pow2Monotone(15, h);
    Pow2Monotone(h, 14);
  }

  /** Between the two ends of the scale the clamps are idle and the 32-bit multiplication cannot overflow. */
  lemma MeterBand(rms: nat, h: nat, tenths: nat)
    requires 32 < rms < 32767 && h == HighestBit(rms) && tenths == Tenths(rms - Pow2(h), Pow2(h))
    ensures 5 <= h <= 14 && tenths <= 9 && rms - Pow2(h) < 16384
    ensures MeterLevel(rms) == (h - 5) * 10 + tenths
  {
    BandRange(rms, h);
    TenthsBelow(rms - Pow2(h), Pow2(h));
    MeterUnfolds(rms, h, tenths);
    ClampIdle((h - 5) * 10 + tenths);
  }

  lemma MeterUnfolds(rms: nat, h: nat, tenths: nat)
    requires 32 < rms < 32767 && h == HighestBit(rms) && tenths == Tenths(rms - Pow2(h), Pow2(h))
    ensures MeterLevel(rms) == Clamp100((h - 5) * 10 + tenths)
  {
  }

  lemma ClampIdle(level: int)
    requires 0 <= level <= 100
    ensures Clamp100(level) == level
  {
  }

  function TenthsOf(rms: nat): nat
    requires rms > 0
  {
    Tenths(rms - Pow2(HighestBit(rms)), Pow2(HighestBit(rms)))
  }

  /** Inside a band the meter moves in proportion to the amplitude, rounded down to tenths of the band. */
  lemma MeterInterpolates(rms: nat, h: nat)
    requires 32 < rms < 32767 && h == HighestBit(rms)
    ensures Pow2(h) <= rms < 2 * Pow2(h)
    ensures var points := MeterLevel(rms) - 10 * (h - 5);
            0 <= points <= 9 && points * Pow2(h) <= 10 * (rms - Pow2(h)) < (points + 1) * Pow2(h)
  {
    MeterBand(rms, h, TenthsOf(rms));
    TenthsFloor(rms - Pow2(h), Pow2(h), TenthsOf(rms));
  }

  lemma TenthsFloor(remainder: nat, base: nat, tenths: nat)
    requires base > 0 && tenths == Tenths(remainder, base)
    ensures tenths * base <= 10 * remainder < (tenths + 1) * base
  {
    DivBounds(remainder * 10, base);
    assert (tenths + 1) * base == tenths * base + base;
  }

  /** Half way from 64 to 128 the meter stands at 15. */
  lemma MeterAt96()
    ensures MeterLevel(96) == 15
  {
    assert Pow2(6) == 64;
    HighestBitIs(96, 6);
    MeterInterpolates(96, 6);
  }

  lemma MeterRange(rms: nat)
    ensures 0 <= MeterLevel(rms) <= 100
    ensures MeterLevel(rms) == 100 <==> rms >= 32767
  {
    if 32 < rms < 32767 { MeterBand(rms, HighestBit(rms), TenthsOf(rms)); }
  }

  lemma HighestBitMonotone(a: nat, b: nat)
    requires 0 < a <= b
    ensures HighestBit(a) <= HighestBit(b)
  {
    Pow2Monotone(HighestBit(b) + 1, HighestBit(a));
  }

  lemma BandMonotone(a: nat, b: nat, h: nat)
    requires 0 < a <= b && h == HighestBit(a) == HighestBit(b)
    ensures TenthsOf(a) <= TenthsOf(b)
  {
    TenthsMonotone(a - Pow2(h), b - Pow2(h), Pow2(h));
  }

  lemma MeterMonotone(a: nat, b: nat)
    requires a <= b
    ensures MeterLevel(a) <= MeterLevel(b)
  {
    if 32 < a && b < 32767 {
      MeterBand(a, HighestBit(a), TenthsOf(a));
      MeterBand(b, HighestBit(b), TenthsOf(b));
      HighestBitMonotone(a, b);
      if HighestBit(a) == HighestBit(b) {
        BandMonotone(a, b, HighestBit(a));
      }
    } else {
      MeterRange(a);
      MeterRange(b);
    }
  }

  /** Doubling the amplitude, about 6 dB, is worth exactly ten points. */
  lemma MeterDoubles(rms: nat)
    requires 32 < rms && 2 * rms < 32767
    ensures MeterLevel(2 * rms) == MeterLevel(rms) + 10
  {
    var h := HighestBit(rms);
    HighestBitIs(2 * rms, h + 1);
    var b := Pow2(h);
    TenthsTwice(rms - b, b);
    assert 2 * rms - Pow2(h + 1) == 2 * (rms - b);
    MeterBand(rms, h, Tenths(rms - b, b));
    MeterBand(2 * rms, h + 1, Tenths(rms - b, b));
  }

  /** The documented scale: a power of two of at least 32 is on a multiple of ten. */
  lemma MeterAtPowers(k: nat)
    requires k <= 9
    ensures MeterLevel(Pow2(5 + k)) == 10 * k
  {
    assert Pow2(5) == 32;
    assert Pow2(10) == 1024;
    assert Pow2(14) == 16384;
    Pow2Monotone(5 + k, 14);
    if k > 0 {
      Pow2Monotone(6, 5 + k);
      HighestBitIs(Pow2(5 + k), 5 + k);
      MeterBand(Pow2(5 + k), 5 + k, 0);
    }
  }

  /** More signal power never lowers the meter. */
  lemma MeterOfPower(v: nat, w: nat)
    requires v <= w
    ensures MeterLevel(Root(v)) <= MeterLevel(Root(w))
  {
    RootMonotone(v, w);
    MeterMonotone(Root(v), Root(w));
  }

  // ---------------------------------------------------------------------------------------------
  // Loopback stage
  // ---------------------------------------------------------------------------------------------

  const MAX_SAMPLES: nat := 1024
  const GAIN_MIN: int := 0
  const GAIN_MAX: int := 200
  const GAIN_DEFAULT: int := 50

  /** Division as in C, towards zero. */
  function TruncDiv(a: int, b: int): int
    requires b > 0
  {
    if a >= 0 then a / b else -((-a) / b)
  }

  function Abs(x: int): int {
    if x < 0 then -x else x
  }

  function SumTo(s: seq<Int16>, k: nat): int
    requires k <= |s|
  {
    if k == 0 then 0 else SumTo(s, k - 1) + s[k - 1] as int
  }

  /** The DC offset of a block. */
  function Mean(s: seq<Int16>): int
    requires s != []
  {
    TruncDiv(SumTo(s, |s|), |s|)
  }

  function Centered(s: seq<Int16>, mean: int): (t: seq<int>)
    ensures |t| == |s|
  {
    seq(|s|, i requires 0 <= i < |s| => s[i] as int - mean)
  }

  function ClampGain(gain: int): int {
    if gain < GAIN_MIN then GAIN_MIN else if gain > GAIN_MAX then GAIN_MAX else gain
  }

  /** What one centered sample becomes before saturation. */
  function Scaled(centered: int, gain: int, muted: bool): int {
    if muted then 0 else TruncDiv(centered * gain, 100)
  }

  predicate Clips(x: int) {
    !(-0x8000 <= x < 0x8000)
  }

  function Saturate(x: int): (r: int)
    ensures !Clips(r)
  {
    if x > 0x7FFF then 0x7FFF else if x < -0x8000 then -0x8000 else x
  }

  /** The samples sent to the DAC. */
  function Played(t: seq<int>, gain: int, muted: bool): (r: seq<int>)
    ensures |r| == |t|
  {
    seq(|t|, i requires 0 <= i < |t| => Saturate(Scaled(t[i], gain, muted)))
  }

  function SquaresTo(t: seq<int>, k: nat): nat
    requires k <= |t|
  {
    if k == 0 then 0 else
    SquareIsNat(t[k - 1]);
    SquaresTo(t, k - 1) + t[k - 1] * t[k - 1]
  }

  lemma SquareIsNat(x: int)
    ensures x * x >= 0
  {
  }

  function Rms(t: seq<int>): nat
    requires t != []
  {
    Root(SquaresTo(t, |t|) / |t|)
  }

  /** The positions at which saturation changed something, among the first `k`. */
  function ClippedTo(t: seq<int>, gain: int, muted: bool, k: nat): set<nat>
    requires k <= |t|
  {
    set i: nat | i < k && Clips(Scaled(t[i], gain, muted))
  }

  predicate Within(t: seq<int>, b: int) {
    forall i | 0 <= i < |t| :: -b <= t[i] <= b
  }

  lemma {:induction false} SumBounds(s: seq<Int16>, k: nat)
    requires k <= |s|
    ensures -0x8000 * k <= SumTo(s, k) <= 0x7FFF * k
  {
    if k > 0 { SumBounds(s, k - 1); }
  }

  lemma QuotientAtLeast(x: nat, k: nat, d: nat)
    requires d > 0 && k * d <= x
    ensures k <= x / d
  {
    Quotient(x, d);
    if x / d < k { LessMul(x / d, k, d); }
  }

  lemma TruncDivBounds(a: int, n: nat, lo: int, hi: int)
    requires n > 0 && lo >= 0 && hi >= 0 && -(lo * n) <= a <= hi * n
    ensures -lo <= TruncDiv(a, n) <= hi
  {
    if a >= 0 { QuotientAtMost(a, hi, n); } else { QuotientAtMost(-a, lo, n); }
  }

  lemma QuotientAtMost(x: nat, k: nat, d: nat)
    requires d > 0 && x <= k * d
    ensures x / d <= k
  {
    Quotient(x, d);
    if k < x / d { LessMul(k, x / d, d); }
  }

  /** The mean is a sample value, so centered samples need 17 bits. */
  lemma CenteredFits(s: seq<Int16>)
    requires s != []
    ensures -0x8000 <= Mean(s) <= 0x7FFF && Within(Centered(s, Mean(s)), 0xFFFF)
  {
    SumBounds(s, |s|);
    TruncDivBounds(SumTo(s, |s|), |s|, 0x8000, 0x7FFF);
  }

  lemma {:induction false} SquaresFit(t: seq<int>, k: nat, b: int)
    requires k <= |t| && 0 <= b && Within(t, b)
    ensures SquaresTo(t, k) <= k * (b * b)
  {
    if k > 0 {
      SquaresFit(t, k - 1, b);
      SquareBound(t[k - 1], b);
      assert k * (b * b) == (k - 1) * (b * b) + b * b;
    }
  }

  lemma SquareBound(x: int, b: int)
    requires 0 <= b && -b <= x <= b
    ensures 0 <= x * x <= b * b
  {
    if x >= 0 { SquareMonotone(x, b); } else { SquareMonotone(-x, b); }
  }

  /** After centering, what is left of the offset is less than one step per sample. */
  lemma DcIsRemoved(s: seq<Int16>)
    requires s != []
    ensures var left := SumTo(s, |s|) - |s| * Mean(s); left < |s| && 0 < |s| + left
    ensures IntSum(Centered(s, Mean(s)), |s|) == SumTo(s, |s|) - |s| * Mean(s)
  {
    TruncDivRest(SumTo(s, |s|), |s|);
    CenteredSum(s, Mean(s), |s|);
  }

  lemma TruncDivRest(a: int, n: nat)
    requires n > 0
    ensures var left := a - n * TruncDiv(a, n); left < n && 0 < n + left
  {
    var q := (if a >= 0 then a else -a) / n;
    Quotient(if a >= 0 then a else -a, n);
    assert n * -q == -(q * n) && n * q == q * n;
  }

  function IntSum(t: seq<int>, k: nat): int
    requires k <= |t|
  {
    if k == 0 then 0 else IntSum(t, k - 1) + t[k - 1]
  }

  lemma {:induction false} CenteredSum(s: seq<Int16>, m: int, k: nat)
    requires k <= |s|
    ensures IntSum(Centered(s, m), k) == SumTo(s, k) - k * m
  {
    if k > 0 {
      CenteredSum(s, m, k - 1);
      assert k * m == (k - 1) * m + m;
    }
  }

  lemma ProductFits(c: int, gain: int)
    requires -0xFFFF <= c <= 0xFFFF && 0 <= gain <= 200
    ensures -13_107_000 <= c * gain <= 13_107_000
  {
    if c >= 0 { MulMonotone(c, 0xFFFF, gain); } else { MulMonotone(-c, 0xFFFF, gain); assert -c * gain == -(c * gain); }
    MulMonotone(gain, 200, 0xFFFF);
  }

  lemma MulMonotone(a: nat, b: nat, f: nat)
    requires a <= b
    ensures 0 <= a * f <= b * f
  {
    assert b * f == a * f + (b - a) * f;
    assert a * f >= 0 && (b - a) * f >= 0;
  }

  /** Division drops the fraction, on both sides of zero. */
  lemma TowardsZero(a: int, n: nat)
    requires n > 0
    ensures var q := TruncDiv(a, n);
            n * Abs(q) <= Abs(a) < n * Abs(q) + n && (q > 0 ==> a > 0) && (q < 0 ==> a < 0)
  {
    Quotient(Abs(a), n);
  }

  /** The gain law: percent of the amplitude, fractions dropped, the sign kept. */
  lemma GainLaw(c: int, gain: nat)
    ensures var x := Scaled(c, gain, false);
            100 * Abs(x) <= Abs(c) * gain < 100 * Abs(x) + 100 && (x > 0 ==> c > 0) && (x < 0 ==> c < 0)
    ensures Scaled(c, 0, false) == 0 && Scaled(c, 100, false) == c && Scaled(c, 200, false) == 2 * c
    ensures Scaled(2 * c, 50, false) == c
  {
    TowardsZero(c * gain, 100);
    MulMonotone(0, gain, Abs(c));
    assert Abs(c) * gain == (if c >= 0 then 1 else -1) * (c * gain);
  }

  /** Saturation takes the nearest 16-bit value. */
  lemma SaturateIsNearest(x: int, y: int)
    requires !Clips(y)
    ensures Abs(x - Saturate(x)) <= Abs(x - y) && (Saturate(x) == x <==> !Clips(x))
  {
  }

  /** The gain is limited to 0..200 percent. */
  lemma ClampGainIsNearest(gain: int, y: int)
    requires 0 <= y <= 200
    ensures 0 <= ClampGain(gain) <= 200 && Abs(gain - ClampGain(gain)) <= Abs(gain - y)
  {
  }

  /** The body of the second pass for one sample: gain, then saturation. */
  method Play(centered: Int32, blockGain: Int32, muted: bool) returns (scaled: Int32, clipped: bool)
    requires -0xFFFF <= centered <= 0xFFFF && 0 <= blockGain <= 200
    ensures scaled as int == Saturate(Scaled(centered as int, blockGain as int, muted))
    ensures clipped == Clips(Scaled(centered as int, blockGain as int, muted))
  {
    scaled, clipped := 0, false;
    if !muted {
      ProductFits(centered as int, blockGain as int);
      var product := centered * blockGain;
      TruncDivBounds(product as int, 100, 131_070, 131_070);
      scaled := TruncDiv(product as int, 100) as Int32;
      if scaled > 0x7FFF {
        scaled, clipped := 0x7FFF, true;
      } else if scaled < -0x8000 {
        scaled, clipped := -0x8000, true;
      }
    }
  }

  lemma {:induction false} ClippedStep(t: seq<int>, gain: int, muted: bool, k: nat)
    requires k < |t|
    ensures |ClippedTo(t, gain, muted, k + 1)| ==
            |ClippedTo(t, gain, muted, k)| + if Clips(Scaled(t[k], gain, muted)) then 1 else 0
  {
    var a, b := ClippedTo(t, gain, muted, k), ClippedTo(t, gain, muted, k + 1);
    if Clips(Scaled(t[k], gain, muted)) {
      assert b == a + {k};
    } else {
      assert b == a;
    }
  }

  lemma PlayedFits(t: seq<int>, gain: int, muted: bool)
    ensures Within(Played(t, gain, muted), 0x8000)
  {
  }

  /** The controls and meters the loopback task shares with the user interface. */
  class LoopbackStage {
    var gainPercent: int
    var muted: bool
    var dc: Int32
    var rms: UInt32
    var outputRms: UInt32
    var levelPercent: int
    var clippedSamples: UInt32

    /** Pass 1: the DC average. */
    method MeasureDc(rx: array<Int16>, n: nat) returns (mean: Int32)
      requires 0 < n <= rx.Length && n <= MAX_SAMPLES
      ensures mean as int == Mean(rx[..n])
    {
      var sum: Int64 := 0;
      ghost var s := rx[..n];
      for i := 0 to n
        invariant sum as int == SumTo(s, i)
      {
        SumBounds(s, i);
        sum := sum + rx[i] as Int64;
      }
      CenteredFits(s);
      mean := TruncDiv(sum as int, n) as Int32;
    }

    /** Pass 2: removes the offset, applies gain and mute, and measures both signals. */
    method ApplyGain(rx: array<Int16>, tx: array<Int16>, n: nat, mean: Int32, gain: Int32, mute: bool)
      returns (inSquares: UInt64, outSquares: UInt64, clipped: UInt32)
      requires 0 < n <= rx.Length && n <= tx.Length && n <= MAX_SAMPLES && rx != tx
      requires Within(Centered(rx[..n], mean as int), 0xFFFF) && 0 <= gain <= 200
      modifies tx
      ensures var t := Centered(rx[..n], mean as int);
              var out := Played(t, gain as int, mute);
              && (forall k | 0 <= k < n :: tx[k] as int == out[k])
              && inSquares as int == SquaresTo(t, n) && outSquares as int == SquaresTo(out, n)
              && clipped as int == |ClippedTo(t, gain as int, mute, n)|
      ensures tx[n..] == old(tx[n..])
    {
      ghost var t := Centered(rx[..n], mean as int);
      ghost var out := Played(t, gain as int, mute);
      PlayedFits(t, gain as int, mute);
      inSquares, outSquares, clipped := 0, 0, 0;
      for i := 0 to n
        invariant forall k | 0 <= k < i :: tx[k] as int == out[k]
        invariant tx[n..] == old(tx[n..])
        invariant inSquares as int == SquaresTo(t, i) && outSquares as int == SquaresTo(out, i)
        invariant clipped as int == |ClippedTo(t, gain as int, mute, i)| && clipped as int <= i
        invariant inSquares as int <= i * 0x1_0000_0000 && outSquares as int <= i * 0x1_0000_0000
      {
        ClippedStep(t, gain as int, mute, i);
        var centered := rx[i] as Int32 - mean;
        assert centered as int == t[i];
        inSquares := AddSquare(inSquares, centered);
        var scaled, clip := Play(centered, gain, mute);
        if clip {
          clipped := clipped + 1;
        }
        tx[i] := scaled as Int16;
        outSquares := AddSquare(outSquares, scaled);
      }
    }

    method AddSquare(squares: UInt64, x: Int32) returns (r: UInt64)
      requires -0xFFFF <= x <= 0xFFFF && squares as int <= MAX_SAMPLES * 0x1_0000_0000
      ensures r as int == squares as int + x as int * x as int <= squares as int + 0x1_0000_0000
    {
      SquareBound(x as int, 0xFFFF);
      var y := x as Int64;
      r := squares + (y * y) as UInt64;
    }

    method RootMeanSquare(squares: UInt64, n: nat, ghost t: seq<int>) returns (r: UInt32)
      requires 0 < n == |t| && n <= MAX_SAMPLES && squares as int == SquaresTo(t, n)
      ensures r as int == Rms(t)
    {
      r := Isqrt(squares / n as UInt64);
    }

    /** One block of the loopback loop, from the samples read to the samples written and the telemetry. */
    method Process(rx: array<Int16>, tx: array<Int16>, n: nat)
      requires 0 < n <= rx.Length && n <= tx.Length && n <= MAX_SAMPLES && rx != tx
      modifies tx, this`dc, this`rms, this`outputRms, this`levelPercent, this`clippedSamples
      ensures dc as int == Mean(rx[..n])
      ensures var t := Centered(rx[..n], Mean(rx[..n]));
              var gain := ClampGain(gainPercent);
              var out := Played(t, gain, muted);
              && (forall k | 0 <= k < n :: tx[k] as int == out[k]) && tx[n..] == old(tx[n..])
              && rms as int == Rms(t) && outputRms as int == Rms(out)
              && levelPercent == MeterLevel(Rms(t))
              && clippedSamples as int == |ClippedTo(t, gain, muted, n)|
    {
      var mean := MeasureDc(rx, n);
      CenteredFits(rx[..n]);
      var blockGain := ClampGain(gainPercent) as Int32;
      var inSquares, outSquares, clipped := ApplyGain(rx, tx, n, mean, blockGain, muted);
      dc := mean;
      ghost var t := Centered(rx[..n], mean as int);
      rms := RootMeanSquare(inSquares, n, t);
      outputRms := RootMeanSquare(outSquares, n, Played(t, blockGain as int, muted));
      levelPercent := MeterLevel(rms as int);
      clippedSamples := clipped;
    }
  }

  // ---------------------------------------------------------------------------------------------
  // What the stage promises about a block
  // ---------------------------------------------------------------------------------------------

  lemma RmsAtMost(t: seq<int>, b: int)
    requires t != [] && 0 <= b && Within(t, b)
    ensures Rms(t) <= b
  {
    SquaresFit(t, |t|, b);
    var v := SquaresTo(t, |t|);
    QuotientAtMost(v, b * b, |t|);
    assert b * b < (b + 1) * (b + 1);
    RootBelow(v / |t|, b + 1);
  }

  /** However loud the input and high the gain, the output never measures above full scale. */
  lemma OutputRmsFits(s: seq<Int16>, gain: int, muted: bool)
    requires s != []
    ensures Rms(Played(Centered(s, Mean(s)), gain, muted)) <= 0x8000
    ensures Rms(Centered(s, Mean(s))) <= 0xFFFF
  {
    CenteredFits(s);
    PlayedFits(Centered(s, Mean(s)), gain, muted);
    RmsAtMost(Played(Centered(s, Mean(s)), gain, muted), 0x8000);
    RmsAtMost(Centered(s, Mean(s)), 0xFFFF);
  }

  lemma {:induction false} SquaresOfConstant(t: seq<int>, c: int, k: nat)
    requires k <= |t| && forall i | 0 <= i < k :: t[i] == c
    ensures SquaresTo(t, k) == k * (c * c)
  {
    if k > 0 {
      SquaresOfConstant(t, c, k - 1);
      assert k * (c * c) == (k - 1) * (c * c) + c * c;
    }
  }

  /** A signal that only changes its sign measures its amplitude. */
  lemma RmsOfConstant(t: seq<int>, c: nat)
    requires t != [] && forall i | 0 <= i < |t| :: Abs(t[i]) == c
    ensures Rms(t) == c
  {
    RmsAtMost(t, c);
    var u := seq(|t|, i requires 0 <= i < |t| => c);
    SquaresOfConstant(u, c, |u|);
    ExactQuotient(|u|, c * c);
    RootUnique(c * c, c);
    RmsMonotone(u, t);
  }

  lemma ExactQuotient(n: nat, x: nat)
    requires n > 0
    ensures n * x / n == x
  {
    QuotientIs(n * x, x, n);
  }

  lemma {:induction false} SumOfConstant(s: seq<Int16>, c: Int16, k: nat)
    requires k <= |s| && forall i | 0 <= i < k :: s[i] == c
    ensures SumTo(s, k) == k * c as int
  {
    if k > 0 { SumOfConstant(s, c, k - 1); }
  }

  /** A constant offset, whatever its size, is removed completely: silence in, silence out. */
  lemma OffsetIsSilence(s: seq<Int16>, c: Int16, gain: int, muted: bool)
    requires s != [] && forall i | 0 <= i < |s| :: s[i] == c
    ensures Mean(s) == c as int
    ensures var t := Centered(s, Mean(s));
            Rms(t) == 0 && MeterLevel(Rms(t)) == 0 && Rms(Played(t, gain, muted)) == 0
  {
    SumOfConstant(s, c, |s|);
    TruncDivExact(|s|, c as int);
    var t := Centered(s, Mean(s));
    RmsOfConstant(t, 0);
    RmsOfConstant(Played(t, gain, muted), 0);
  }

  lemma TruncDivExact(n: nat, c: int)
    requires n > 0
    ensures TruncDiv(n * c, n) == c
  {
    if c >= 0 {
      ExactQuotient(n, c);
      assert n * c >= 0;
    } else {
      ExactQuotient(n, -c);
      assert n * -c == -(n * c) > 0;
    }
  }

  /** Mute and gain 0 both send silence, measure 0 and clip nothing. */
  lemma MuteSilences(t: seq<int>, gain: int, muted: bool)
    requires t != [] && (muted || gain == 0)
    ensures forall i | 0 <= i < |t| :: Played(t, gain, muted)[i] == 0
    ensures Rms(Played(t, gain, muted)) == 0 && ClippedTo(t, gain, muted, |t|) == {}
  {
    RmsAtMost(Played(t, gain, muted), 0);
  }

  lemma AbsSquares(x: int, y: int)
    requires Abs(x) <= Abs(y)
    ensures x * x <= y * y
  {
    SquareMonotone(Abs(x), Abs(y));
  }

  lemma {:induction false} SquaresMonotone(t: seq<int>, u: seq<int>, k: nat)
    requires k <= |t| == |u|
    requires forall i | 0 <= i < |t| :: Abs(t[i]) <= Abs(u[i])
    ensures SquaresTo(t, k) <= SquaresTo(u, k)
  {
    if k > 0 {
      SquaresMonotone(t, u, k - 1);
      AbsSquares(t[k - 1], u[k - 1]);
    }
  }

  lemma RmsMonotone(t: seq<int>, u: seq<int>)
    requires |t| == |u| > 0
    requires forall i | 0 <= i < |t| :: Abs(t[i]) <= Abs(u[i])
    ensures Rms(t) <= Rms(u)
  {
    SquaresMonotone(t, u, |t|);
    var x, y := SquaresTo(t, |t|), SquaresTo(u, |u|);
    Quotient(x, |t|);
    QuotientAtLeast(y, x / |t|, |t|);
    RootMonotone(x / |t|, y / |u|);
  }

  lemma ScaledMonotone(c: int, low: int, high: int)
    requires 0 <= low <= high
    ensures Abs(Scaled(c, low, false)) <= Abs(Scaled(c, high, false))
    ensures c >= 0 ==> 0 <= Scaled(c, low, false) && 0 <= Scaled(c, high, false)
    ensures c <= 0 ==> 0 >= Scaled(c, low, false) && 0 >= Scaled(c, high, false)
  {
    MulMonotone(low, high, Abs(c));
    assert Abs(c) * low == (if c >= 0 then 1 else -1) * (c * low);
    assert Abs(c) * high == (if c >= 0 then 1 else -1) * (c * high);
  }

  /** Turning the gain up never makes any sample quieter, never unclips one, and never lowers the output meter. */
  lemma GainIsMonotone(t: seq<int>, low: int, high: int)
    requires t != [] && 0 <= low <= high
    ensures forall i | 0 <= i < |t| :: Abs(Played(t, low, false)[i]) <= Abs(Played(t, high, false)[i])
    ensures Rms(Played(t, low, false)) <= Rms(Played(t, high, false))
    ensures ClippedTo(t, low, false, |t|) <= ClippedTo(t, high, false, |t|)
  {
    forall i | 0 <= i < |t|
      ensures Abs(Played(t, low, false)[i]) <= Abs(Played(t, high, false)[i])
      ensures Clips(Scaled(t[i], low, false)) ==> Clips(Scaled(t[i], high, false))
    {
      ScaledMonotone(t[i], low, high);
    }
    RmsMonotone(Played(t, low, false), Played(t, high, false));
  }

  /** Up to unity gain the output is never stronger than the input. */
  lemma NoBoostBelowUnity(t: seq<int>, gain: int, muted: bool)
    requires t != [] && 0 <= gain <= 100
    ensures Rms(Played(t, gain, muted)) <= Rms(t)
  {
    forall i | 0 <= i < |t|
      ensures Abs(Played(t, gain, muted)[i]) <= Abs(t[i])
    {
      ScaledMonotone(t[i], gain, 100);
    }
    RmsMonotone(Played(t, gain, muted), t);
  }

  /** At unity gain a sample passes through unchanged unless it leaves the 16-bit range. */
  lemma UnityPasses(t: seq<int>, i: nat)
    requires i < |t|
    ensures Played(t, 100, false)[i] == t[i] <==> !Clips(t[i])
    ensures Clips(Scaled(t[i], 100, false)) <==> Clips(t[i])
  {
  }

  /** At the default gain no block whatever can clip; one percent more can, on the block `Click`. */
  lemma DefaultGainNeverClips(s: seq<Int16>, gain: int)
    requires s != [] && 0 <= gain <= GAIN_DEFAULT
    ensures ClippedTo(Centered(s, Mean(s)), gain, false, |s|) == {}
  {
    CenteredFits(s);
    var t := Centered(s, Mean(s));
    forall i | 0 <= i < |s|
      ensures !Clips(Scaled(t[i], gain, false))
    {
      ScaledMonotone(t[i], gain, 50);
    }
  }

  /** A loud click in an otherwise constant block. */
  function Click(): seq<Int16> {
    seq(1023, _ => -0x8000 as Int16) + [0x7FFF]
  }

  lemma {:induction false} ClickSum(k: nat)
    requires k <= 1023
    ensures SumTo(Click(), k) == -0x8000 * k
  {
    if k > 0 { ClickSum(k - 1); }
  }

  lemma OneMorePercentCanClip()
    ensures ClippedTo(Centered(Click(), Mean(Click())), GAIN_DEFAULT + 1, false, 1024) != {}
  {
    var s := Click();
    ClickSum(1023);
    assert SumTo(s, 1024) == -33_488_897;
    assert Mean(s) == -32_704;
    assert Centered(s, Mean(s))[1023] == 65_471;
    assert Scaled(65_471, 51, false) == 33_390;
    assert 1023 in ClippedTo(Centered(s, Mean(s)), GAIN_DEFAULT + 1, false, 1024);
  }
}
