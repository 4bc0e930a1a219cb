/** The front of Grisu3: a double and its boundaries as normalized 64-bit numbers, times a cached power of ten. */
module Scaling {
  import opened Arith
  import opened StartValues
  import opened Ieee
  import opened CachedPowers
  import FastDtoa
  import GrisuIsExact
  import PowerEstimate

  const MINIMAL_TARGET_EXPONENT := -60
  const MAXIMAL_TARGET_EXPONENT := -32

  /** A double's boundaries and value, scaled by a power of ten for the fast path. */
  datatype Scaled = Scaled(mk: int, E: nat, low: uint64, w: uint64, high: uint64) {
    /** The upper ones use all but one or two bits of a word, and each is less than one unit off. */
    ghost predicate For(d: nat) {
      var f, e, closer := Significand(d), Exponent(d), LowerBoundaryIsCloser(d);
      && 32 <= E <= 60 && 0x4000_0000_0000_0000 <= w && 0x4000_0000_0000_0000 <= high < 0xffff_ffff_ffff_ffff
      && FastDtoa.Near(GrisuIsExact.TrueEnd(f, e, closer, -1, mk, E), low)
      && FastDtoa.Near(GrisuIsExact.TrueEnd(f, e, closer, 0, mk, E), w)
      && FastDtoa.Near(GrisuIsExact.TrueEnd(f, e, closer, 1, mk, E), high)
    }
  }

  // ---- Normalization

  /** The number f * 2^e with all 64 bits used. */
  ghost predicate Normalizes(r: DiyFp, f: nat, e: int) {
    r.e <= e && 0x8000_0000_0000_0000 <= r.f < 0x1_0000_0000_0000_0000 && r.f == f * Pow(2, e - r.e)
  }

  lemma Shifts(f: nat, shift: nat, n: nat)
    ensures f * Pow(2, shift) * Pow(2, n) == f * Pow(2, shift + n)
  {
    hide Pow;
    PowAdd(2, shift, n);
    MulAssoc(f, Pow(2, shift), Pow(2, n));
  }

  lemma ShiftValues()
    ensures Pow(2, 0) == 1 && Pow(2, 1) == 2 && Pow(2, 10) == 0x400 && Pow(2, 11) == 0x800
    ensures Pow(2, 64) == 0x1_0000_0000_0000_0000
  {
    hide Pow;
    Pow1(2);
    Pow2Values();
    PowSucc(2, 8);
    PowSucc(2, 9);
    PowSucc(2, 10);
  }

  /** DiyFp::Normalize: by ten bits at a time, then by one. */
  method Normalize(a: DiyFp) returns (r: DiyFp)
    requires 0 < a.f < 0x1_0000_0000_0000_0000
    ensures Normalizes(r, a.f, a.e)
  {
    hide Pow;
    ShiftValues();
    var significand: uint64, exponent := a.f, a.e;
    while significand / 0x40_0000_0000_0000 == 0
      invariant exponent <= a.e && 0 < significand == a.f * Pow(2, a.e - exponent)
      decreases 0x1_0000_0000_0000_0000 - significand
    {
      Shifts(a.f, a.e - exponent, 10);
      significand := significand * 0x400;
      exponent := exponent - 10;
    }
    while significand / 0x8000_0000_0000_0000 == 0
      invariant exponent <= a.e && 0 < significand == a.f * Pow(2, a.e - exponent)
      decreases 0x1_0000_0000_0000_0000 - significand
    {
      Shifts(a.f, a.e - exponent, 1);
      significand := significand * 2;
      exponent := exponent - 1;
    }
    r := DiyFp(significand, exponent);
  }

  method AsNormalizedDiyFp(d: nat) returns (r: DiyFp)
    requires IsFinite(d) && 0 < d
    ensures Normalizes(r, Significand(d), Exponent(d))
  {
    hide Pow;
    SignificandBounds(d);
    ShiftValues();
    var f: uint64, e := Significand(d), Exponent(d);
    while f / 0x10_0000_0000_0000 % 2 == 0
      invariant e <= Exponent(d) && 0 < f == Significand(d) * Pow(2, Exponent(d) - e) && f < 0x20_0000_0000_0000
      decreases 0x20_0000_0000_0000 - f
    {
      PowerEstimate.HiddenBit(f);
      Shifts(Significand(d), Exponent(d) - e, 1);
      f := f * 2;
      e := e - 1;
    }
    PowerEstimate.HiddenBit(f);
    Shifts(Significand(d), Exponent(d) - e, 11);
    r := DiyFp(f * 0x800, e - 11);
  }

  /** The boundaries with the same exponent, that of the normalized upper one. */
  method NormalizedBoundaries(d: nat) returns (minus: DiyFp, plus: DiyFp)
    requires IsFinite(d) && 0 < d
    ensures Normalizes(plus, Significand(d) * 2 + 1, Exponent(d) - 1)
    ensures plus.e <= Exponent(d) - 2 && minus.e == plus.e && minus.f < 0x1_0000_0000_0000_0000
    ensures minus.f ==
      (Significand(d) * 4 - if LowerBoundaryIsCloser(d) then 1 else 2) * Pow(2, Exponent(d) - 2 - plus.e)
  {
    hide Pow;
    SignificandBounds(d);
    var f, e := Significand(d), Exponent(d);
    plus := Normalize(DiyFp(f * 2 + 1, e - 1));
    TenBitsAtLeast(f * 2 + 1, e - 1 - plus.e);
    minus := if LowerBoundaryIsCloser(d) then DiyFp(f * 4 - 1, e - 2) else DiyFp(f * 2 - 1, e - 1);
    BelowPlus(f, LowerBoundaryIsCloser(d), e - 1 - plus.e);
    minus := DiyFp(minus.f * Pow(2, minus.e - plus.e), plus.e);
  }

  lemma TenBitsAtLeast(f: nat, shift: nat)
    requires 0 < f < 0x40_0000_0000_0000 && 0x8000_0000_0000_0000 <= f * Pow(2, shift)
    ensures 10 <= shift
  {
    hide Pow;
    if shift < 10 {
      ShiftValues();
      PowMono(2, shift, 9);
      PowSucc(2, 9);
      MulStrict(f, 0x40_0000_0000_0000, Pow(2, shift));
    }
  }

  lemma BelowPlus(f: nat, closer: bool, shift: nat)
    requires 0 < f && 1 <= shift && (2 * f + 1) * Pow(2, shift) < 0x1_0000_0000_0000_0000
    ensures (2 * f - 1) * Pow(2, shift) == (4 * f - 2) * Pow(2, shift - 1)
    ensures 0 <= (4 * f - if closer then 1 else 2) * Pow(2, shift - 1) < 0x1_0000_0000_0000_0000
  {
    hide Pow;
    var p := Pow(2, shift - 1);
    PowSucc(2, shift - 1);
    MulAssoc(2 * f - 1, 2, p);
    MulAssoc(2 * f + 1, 2, p);
    MulMono(4 * f - if closer then 1 else 2, 4 * f + 2, p);
    MulMono(0, 4 * f - if closer then 1 else 2, p);
  }

  /** A number and its upper boundary, half a unit above it, are normalized by the same shift. */
  lemma SameExponent(f: nat, e: int, w: DiyFp, plus: DiyFp)
    requires 0 < f && Normalizes(w, f, e) && Normalizes(plus, 2 * f + 1, e - 1)
    ensures w.e == plus.e
  {
    hide Pow;
    var s, t := e - w.e, e - 1 - plus.e;
    ShiftValues();
    if t >= s {
      NoRoom(f, s, t);
    } else if t <= s - 2 {
      RoomForHalf(f, s);
      PowMono(2, t, s - 2);
      MulMono(Pow(2, t), Pow(2, s - 2), 2 * f + 1);
    }
  }

  lemma NoRoom(f: nat, s: nat, t: nat)
    requires 0x8000_0000_0000_0000 <= f * Pow(2, s) && s <= t
    ensures 0x1_0000_0000_0000_0000 <= (2 * f + 1) * Pow(2, t)
  {
    hide Pow;
    PowMono(2, s, t);
    MulMono(Pow(2, s), Pow(2, t), 2 * f + 1);
    MulAssoc(2, f, Pow(2, s));
    assert (2 * f + 1) * Pow(2, s) == 2 * f * Pow(2, s) + Pow(2, s);
  }

  lemma RoomForHalf(f: nat, s: nat)
    requires 0 < f && 2 <= s && f * Pow(2, s) < 0x1_0000_0000_0000_0000
    ensures (2 * f + 1) * Pow(2, s - 2) < 0x8000_0000_0000_0000
  {
    hide Pow;
    ShiftValues();
    var p := Pow(2, s);
    if s > 64 { PowMono(2, 64, s); MulMono(1, f, p); }
    PowAdd(2, 64 - s, s);
    MulCancel(f, Pow(2, 64 - s), p);
    MulMono(f + 1, Pow(2, 64 - s), p);
    PowSucc(2, s - 2);
    PowSucc(2, s - 1);
    var q := Pow(2, s - 2);
    assert f * p == f * (4 * q) && (f + 1) * p == (f + 1) * (4 * q);
    assert (f + 1) * (4 * q) == 2 * ((2 * f + 1) * q) + 2 * q;
  }

  // ---- Scaling

  /** The exact value of a normalized number times a power of ten: its significand times that of the power, where
      2^64 times the unit is left. */
  lemma ScaledExactly(g: nat, e: int, m: nat, me: int, c: CachedPower, E: nat)
    requires me <= e - 2 && m == g * Pow(2, e - 2 - me) && E == -(me + c.binaryExponent + 64)
    ensures var mk, ce := c.decimalExponent, c.binaryExponent;
      g * Num(1, e, -mk) * Pow(2, E) * (Pow(2, 64) * Num(1, ce, mk)) == m * Den(ce, mk) * (4 * Den(e, -mk))
  {
    hide Pow, Num, Den;
    var mk, ce, s := c.decimalExponent, c.binaryExponent, e - 2 - me;
    RatioParts(e, -mk);
    RatioParts(ce, mk);
    TwosCancel(e, me, ce, E, s);
    CancelArith(g, Pow(2, s), Pow(2, E), Pow(2, 64), Pow(2, Max(e, 0)), Pow(2, Max(-e, 0)), Pow(2, Max(ce, 0)),
                Pow(2, Max(-ce, 0)), Pow(10, Max(mk, 0)), Pow(10, Max(-mk, 0)));
  }

  lemma TwosCancel(e: int, me: int, ce: int, E: nat, s: nat)
    requires E == -(me + ce + 64) && s == e - 2 - me
    ensures Pow(2, Max(e, 0)) * Pow(2, E) * Pow(2, 64) * Pow(2, Max(ce, 0)) ==
            Pow(2, s) * Pow(2, Max(-ce, 0)) * 4 * Pow(2, Max(-e, 0))
  {
    hide Pow;
    Pow1(2);
    PowAdd(2, 1, 1);
    PowAdd(2, Max(e, 0), E);
    PowAdd(2, Max(e, 0) + E, 64);
    PowAdd(2, Max(e, 0) + E + 64, Max(ce, 0));
    PowAdd(2, s, Max(-ce, 0));
    PowAdd(2, s + Max(-ce, 0), 2);
    PowAdd(2, s + Max(-ce, 0) + 2, Max(-e, 0));
  }

  lemma CancelArith(g: int, s: int, E: int, word: int, x: int, y: int, cx: int, cy: int, t: int, u: int)
    requires x * E * word * cx == s * cy * 4 * y
    ensures g * (x * t) * E * (word * (cx * u)) == g * s * (cy * t) * (4 * (y * u))
  {
    var a, b := x * E * word * cx, s * cy * 4 * y;
    Regroup(x, t, E, word, cx, u);
    Regroup(1, t, s * cy, 4, y, u);
    assert g * (x * t) * E * (word * (cx * u)) == g * ((x * t) * E * (word * (cx * u)));
    assert g * s * (cy * t) * (4 * (y * u)) == g * ((1 * t) * (s * cy) * (4 * (y * u)));
  }

  lemma Regroup(x: int, t: int, e: int, word: int, cx: int, u: int)
    ensures (x * t) * e * (word * (cx * u)) == (x * e * word * cx) * (t * u)
  {
  }

  /** The rounded product of a normalized number and a power of ten that is less than half a unit off is less than
      one unit off. */
  lemma ProductIsNear(f: nat, e: int, closer: bool, which: int, m: uint64, me: int, c: CachedPower, E: nat, p: int)
    requires IsPower(c) && me <= e - 2 && E == -(me + c.binaryExponent + 64)
    requires var g := 4 * f + if which < 0 then if closer then -1 else -2 else if which > 0 then 2 else 0;
      0 <= g && m == g * Pow(2, e - 2 - me)
    requires p == (m * c.significand + 0x8000_0000_0000_0000) / 0x1_0000_0000_0000_0000
    ensures FastDtoa.Near(GrisuIsExact.TrueEnd(f, e, closer, which, c.decimalExponent, E), p)
  {
    hide Pow, Num, Den;
    var g := 4 * f + if which < 0 then if closer then -1 else -2 else if which > 0 then 2 else 0;
    var mk, ce := c.decimalExponent, c.binaryExponent;
    ScaledExactly(g, e, m, me, c, E);
    ShiftValues();
    ExactPositive(e, mk, ce);
    HalfUnit(c);
    var n, d := Num(1, ce, mk), Den(ce, mk);
    RatioIsNear(GrisuIsExact.End(f, e, closer, which, -mk) * Pow(2, E), 4 * Den(e, -mk), m, c.significand, n, d, p);
  }

  lemma ExactPositive(e: int, mk: int, ce: int)
    ensures 0 < Den(e, -mk) && 0 < Num(1, ce, mk)
  {
    hide Pow;
    RatioMoves(ce, mk, 0, 0);
  }

  /** a / b is m * d / n / 2^64, where d / n is within half a unit of c. */
  lemma RatioIsNear(a: int, b: int, m: uint64, c: uint64, n: int, d: int, p: int)
    requires 0 < b && 0 < n && a * (0x1_0000_0000_0000_0000 * n) == m * d * b
    requires (2 * c - 1) * n <= 2 * d <= (2 * c + 1) * n
    requires p == (m * c + 0x8000_0000_0000_0000) / 0x1_0000_0000_0000_0000
    ensures FastDtoa.Near(a as real / b as real, p)
  {
    MulMono((2 * c - 1) * n, 2 * d, m);
    MulMono(2 * d, (2 * c + 1) * n, m);
    // twice the product, between m * (2 * c - 1) and m * (2 * c + 1) in units of n
    var low, high := m * (2 * c - 1), m * (2 * c + 1);
    assert low * n <= m * (2 * d) <= high * n by { MulAssoc(m, 2 * c - 1, n); MulAssoc(m, 2 * c + 1, n); }
    Quotient(a, b, m * d, n, low, high);
    assert low == 2 * (m * c) - m && high == 2 * (m * c) + m by { Distributes(m, c); }
    FromTwice(a, b, p, low, high);
  }

  lemma Distributes(m: int, c: int)
    ensures m * (2 * c - 1) == 2 * (m * c) - m && m * (2 * c + 1) == 2 * (m * c) + m
  {
  }

  lemma Quotient(a: int, b: int, md: int, n: int, low: int, high: int)
    requires 0 < b && 0 < n && a * (0x1_0000_0000_0000_0000 * n) == md * b && low * n <= 2 * md <= high * n
    ensures low * b <= 2 * (a * 0x1_0000_0000_0000_0000) <= high * b
  {
    MulMono(low * n, 2 * md, b);
    MulMono(2 * md, high * n, b);
    var twice := 2 * (a * 0x1_0000_0000_0000_0000);
    assert twice * n == 2 * md * b;
    assert (low * b) * n == (low * n) * b && (high * b) * n == (high * n) * b;
    MulCancel(twice, low * b, n);
    MulCancel(high * b, twice, n);
  }

  lemma FromTwice(a: int, b: int, p: int, low: int, high: int)
    requires 0 < b && low * b <= 2 * (a * 0x1_0000_0000_0000_0000) <= high * b
    requires 2 * (p - 1) * 0x1_0000_0000_0000_0000 < low && high < 2 * (p + 1) * 0x1_0000_0000_0000_0000
    ensures FastDtoa.Near(a as real / b as real, p)
  {
    MulStrict(2 * (p - 1) * 0x1_0000_0000_0000_0000, low, b);
    MulStrict(high, 2 * (p + 1) * 0x1_0000_0000_0000_0000, b);
    Doubled(p - 1, b);
    Doubled(p + 1, b);
    QuotientIsNear(a, b, p);
  }

  lemma Doubled(p: int, b: int)
    ensures 2 * p * 0x1_0000_0000_0000_0000 * b == 2 * (p * b * 0x1_0000_0000_0000_0000)
  {
  }

  lemma QuotientIsNear(a: int, b: int, p: int)
    requires 0 < b && (p - 1) * b < a < (p + 1) * b
    ensures FastDtoa.Near(a as real / b as real, p)
  {
    var x, low, high := a as real / b as real, (p - 1) * b, (p + 1) * b;
    RealQuotient(a as real, b as real);
    RealProduct(p - 1, b);
    RealProduct(p + 1, b);
    RealBelow((p - 1) as real, x, b as real, low as real, a as real);
    RealBelow(x, (p + 1) as real, b as real, a as real, high as real);
  }

  lemma RealQuotient(a: real, b: real)
    requires 0.0 < b
    ensures a / b * b == a
  {
  }

  lemma RealProduct(p: int, b: int)
    ensures p as real * b as real == (p * b) as real
  {
  }

  lemma RealBelow(x: real, y: real, b: real, xb: real, yb: real)
    requires 0.0 < b && xb == x * b && yb == y * b && xb < yb
    ensures x < y
  {
    assert (y - x) * b == yb - xb;
  }

  /** DiyFp::Times. */
  method Times(a: DiyFp, b: DiyFp) returns (r: DiyFp)
    requires a.f < 0x1_0000_0000_0000_0000 && b.f < 0x1_0000_0000_0000_0000
    ensures r.e == a.e + b.e + 64 && r.f == (a.f * b.f + 0x8000_0000_0000_0000) / 0x1_0000_0000_0000_0000
    ensures r.f < 0xffff_ffff_ffff_ffff
  {
    var f := FastDtoa.Multiply(a.f, b.f);
    r := DiyFp(f, a.e + b.e + 64);
  }

  lemma ExponentRange(f: nat, shift: nat)
    requires 0 < f && f * Pow(2, shift) < 0x1_0000_0000_0000_0000
    ensures shift < 64
  {
    hide Pow;
    if shift >= 64 {
      ShiftValues();
      PowMono(2, 64, shift);
      MulMono(1, f, Pow(2, shift));
    }
  }

  lemma AllNear(d: nat, w: DiyFp, minus: DiyFp, plus: DiyFp, c: CachedPower, s: Scaled)
    requires IsFinite(d) && 0 < d && Normalizes(w, Significand(d), Exponent(d))
    requires w.e == minus.e == plus.e <= Exponent(d) - 2
    requires Normalizes(plus, Significand(d) * 2 + 1, Exponent(d) - 1) && minus.f < 0x1_0000_0000_0000_0000
    requires minus.f ==
      (Significand(d) * 4 - if LowerBoundaryIsCloser(d) then 1 else 2) * Pow(2, Exponent(d) - 2 - plus.e)
    requires IsPower(c) && s.mk == c.decimalExponent && s.E == -(w.e + c.binaryExponent + 64) && 32 <= s.E <= 60
    requires s.low == (minus.f * c.significand + 0x8000_0000_0000_0000) / 0x1_0000_0000_0000_0000
    requires s.w == (w.f * c.significand + 0x8000_0000_0000_0000) / 0x1_0000_0000_0000_0000
    requires s.high == (plus.f * c.significand + 0x8000_0000_0000_0000) / 0x1_0000_0000_0000_0000
    requires s.high < 0xffff_ffff_ffff_ffff
    ensures s.For(d)
  {
    hide Pow, FastDtoa.Near, GrisuIsExact.TrueEnd, IsPower;
    SignificandBounds(d);
    var f, e, closer := Significand(d), Exponent(d), LowerBoundaryIsCloser(d);
    var p := Pow(2, e - 2 - w.e);
    PowSucc(2, e - 2 - w.e);
    PowSucc(2, e - 1 - w.e);
    assert w.f == (4 * f) * p by { MulAssoc(f, 4, p); MulAssoc(4, f, p); }
    assert plus.f == (4 * f + 2) * p by { MulAssoc(2 * f + 1, 2, p); }
    ProductIsNear(f, e, closer, -1, minus.f, w.e, c, s.E, s.low);
    ProductIsNear(f, e, closer, 0, w.f, w.e, c, s.E, s.w);
    ProductIsNear(f, e, closer, 1, plus.f, w.e, c, s.E, s.high);
    UpperHalf(w.f, c, s.w);
    UpperHalf(plus.f, c, s.high);
  }

  lemma UpperHalf(m: int, c: CachedPower, p: int)
    requires 0x8000_0000_0000_0000 <= m && IsPower(c)
    requires p == (m * c.significand + 0x8000_0000_0000_0000) / 0x1_0000_0000_0000_0000
    ensures 0x4000_0000_0000_0000 <= p
  {
    hide Num, Den;
    MulMono(0x8000_0000_0000_0000, m, c.significand);
    MulMono(0x8000_0000_0000_0000, c.significand, 0x8000_0000_0000_0000);
  }

  /** The first half of Grisu3. */
  method Scale(d: nat, noise: real) returns (scaled: Scaled)
    requires IsFinite(d) && 0 < d && -0.0005 < noise < 0.0005
    ensures scaled.For(d)
  {
    hide Pow, IsPower, FastDtoa.Near, GrisuIsExact.TrueEnd;
    SignificandBounds(d);
    var w := AsNormalizedDiyFp(d);
    var minus, plus := NormalizedBoundaries(d);
    SameExponent(Significand(d), Exponent(d), w, plus);
    ExponentRange(Significand(d), Exponent(d) - w.e);
    var power := GetCachedPowerForBinaryExponentRange(
      MINIMAL_TARGET_EXPONENT - (w.e + 64), MAXIMAL_TARGET_EXPONENT - (w.e + 64), noise);
    var tenMk := DiyFp(power.significand, power.binaryExponent);
    var scaledW := Times(w, tenMk);
    var scaledMinus := Times(minus, tenMk);
    var scaledPlus := Times(plus, tenMk);
    scaled := Scaled(power.decimalExponent, -scaledW.e, scaledMinus.f, scaledW.f, scaledPlus.f);
    AllNear(d, w, minus, plus, power, scaled);
  }
}
