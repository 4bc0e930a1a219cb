/** Which double a decimal number reads as, decided by comparisons with the boundaries between doubles. */
module StrtodSpec {
  import opened Arith
  import opened Ieee

  /** The decimal number n * 10^exponent reads as the double d, ties to even (section 4.3.1 of IEEE 754-2008). */
  ghost predicate ReadsAs(n: int, exponent: int, d: nat)
    requires IsDouble(d)
  {
    RoundsToDouble(n * Pow(10, Max(exponent, 0)), Pow(10, Max(-exponent, 0)), d)
  }

  /** The difference of n * 10^exponent and f * 2^e, scaled to an integer. */
  ghost function Side(n: int, exponent: int, f: int, e: int): int {
    n * Pow(10, Max(exponent, 0)) * Pow(2, Max(-e, 0)) - f * Pow(2, Max(e, 0)) * Pow(10, Max(-exponent, 0))
  }

  /** The comparison with the boundary above d is the comparison in the definition of rounding. */
  lemma SideIsMid(n: int, exponent: int, d: nat)
    requires IsFinite(d)
    ensures var b := UpperBoundary(d);
      var x, m := n * Pow(10, Max(exponent, 0)) * Pow(2, 1075), Pow(10, Max(-exponent, 0)) * TwiceMid(d);
      Sign(Side(n, exponent, b.f, b.e)) == Sign(x - m)
  {
    hide Pow, TwiceMid;
    var b := UpperBoundary(d);
    UpperBoundaryIsMid(d);
    PowAdd(2, Max(b.e, 0), 1075 - Max(-b.e, 0));
    PowAdd(2, Max(-b.e, 0), 1075 - Max(-b.e, 0));
    MidArith(n * Pow(10, Max(exponent, 0)), Pow(10, Max(-exponent, 0)), b.f, Pow(2, Max(b.e, 0)), Pow(2, Max(-b.e, 0)),
             Pow(2, 1075 - Max(-b.e, 0)), Pow(2, b.e + 1075), Pow(2, 1075), TwiceMid(d));
  }

  lemma MidArith(x: int, den: int, f: int, p: int, q: int, s: int, ps: int, qs: int, mid: int)
    requires 0 < s && ps == p * s && qs == q * s && mid == f * ps
    ensures Sign(x * q - f * p * den) == Sign(x * qs - den * mid)
  {
  }

  lemma SignScaled(x: int, s: int)
    requires 0 < s
    ensures Sign(x * s) == Sign(x) && Sign(s * x) == Sign(x)
  {
  }

  ghost function SideOf(n: int, exponent: int, d: nat): int {
    Side(n, exponent, UpperBoundary(d).f, UpperBoundary(d).e)
  }

  /** Reading as d is lying between its boundaries. */
  lemma ReadsAsBySides(n: int, exponent: int, d: nat)
    requires IsDouble(d)
    ensures ReadsAs(n, exponent, d) <==>
      && (0 < d ==> if d % 2 == 0 then SideOf(n, exponent, d - 1) >= 0 else SideOf(n, exponent, d - 1) > 0)
      && (IsFinite(d) ==> if d % 2 == 0 then SideOf(n, exponent, d) <= 0 else SideOf(n, exponent, d) < 0)
  {
    hide Pow, TwiceMid, Side, UpperBoundary;
    if 0 < d { SideIsMid(n, exponent, d - 1); }
    if IsFinite(d) { SideIsMid(n, exponent, d); }
  }

  /** Two decimals on the same side of every boundary read as the same double. */
  lemma SameSides(n: int, exponent: int, n': int, exponent': int, d: nat)
    requires IsDouble(d)
    requires forall c :: 0 <= c < INFINITY ==> Sign(SideOf(n, exponent, c)) == Sign(SideOf(n', exponent', c))
    ensures ReadsAs(n, exponent, d) <==> ReadsAs(n', exponent', d)
  {
    hide SideOf, ReadsAs;
    ReadsAsBySides(n, exponent, d);
    ReadsAsBySides(n', exponent', d);
    if 0 < d { assert Sign(SideOf(n, exponent, d - 1)) == Sign(SideOf(n', exponent', d - 1)); }
    if IsFinite(d) { assert Sign(SideOf(n, exponent, d)) == Sign(SideOf(n', exponent', d)); }
  }

  // ---- Everything scaled by a power of ten

  /** f * 2^e * 10^scale, an integer when scale is large enough. */
  ghost function ScaledBoundary(f: int, e: int, scale: nat): int
    requires 0 <= e + scale
  {
    if e >= 0 then f * Pow(2, e) * Pow(10, scale) else f * Pow(5, -e) * Pow(10, scale + e)
  }

  lemma SideSign(n: int, exponent: int, f: int, e: int, scale: nat)
    requires 0 <= e + scale && 0 <= exponent + scale && Max(-exponent, 0) <= scale
    ensures Sign(Side(n, exponent, f, e)) == Sign(n * Pow(10, exponent + scale) - ScaledBoundary(f, e, scale))
  {
    if e >= 0 { SideSignInteger(n, exponent, f, e, scale); } else { SideSignFraction(n, exponent, f, e, scale); }
  }

  lemma SideSignInteger(n: int, exponent: int, f: int, e: int, scale: nat)
    requires 0 <= e && 0 <= exponent + scale && Max(-exponent, 0) <= scale
    ensures Sign(Side(n, exponent, f, e)) == Sign(n * Pow(10, exponent + scale) - f * Pow(2, e) * Pow(10, scale))
  {
    hide Pow;
    var a, b := Max(exponent, 0), Max(-exponent, 0);
    var s := Pow(10, scale - b);
    PowAdd(10, a, scale - b);
    PowAdd(10, b, scale - b);
    Pow1(2);
    SignScaled(Side(n, exponent, f, e), s);
    SideArith(n, Pow(10, a), 1, f, Pow(2, e), Pow(10, b), s);
  }

  lemma SideSignFraction(n: int, exponent: int, f: int, e: int, scale: nat)
    requires e < 0 <= e + scale && 0 <= exponent + scale && Max(-exponent, 0) <= scale
    ensures Sign(Side(n, exponent, f, e)) == Sign(n * Pow(10, exponent + scale) - f * Pow(5, -e) * Pow(10, scale + e))
  {
    hide Pow;
    var a, b := Max(exponent, 0), Max(-exponent, 0);
    var s := Pow(10, scale - b);
    PowAdd(10, a, scale - b);
    PowAdd(10, b, scale - b);
    Pow1(2);
    PowProduct(2, 5, -e);
    PowAdd(10, -e, scale + e);
    FractionArith(n, Pow(10, a), Pow(2, -e), f, Pow(10, b), s, Pow(5, -e), Pow(10, scale + e));
  }

  lemma FractionArith(n: int, a: int, two: int, f: int, b: int, s: int, five: int, rest: int)
    requires 0 < two && 0 < s && b * s == (two * five) * rest
    ensures Sign(n * a * two - f * 1 * b) == Sign(n * (a * s) - f * five * rest)
  {
  }

  lemma SideArith(n: int, a: int, p: int, f: int, q: int, b: int, s: int)
    ensures (n * a * p - f * q * b) * s == (n * (a * s)) * p - (f * q) * (b * s)
  {
  }

  // ---- Trimming and cutting

  /** Zeros moved from the number into the exponent do not matter. */
  lemma SameNumber(n: int, exponent: int, zeros: nat, d: nat)
    requires IsDouble(d)
    ensures ReadsAs(n * Pow(10, zeros), exponent, d) <==> ReadsAs(n, exponent + zeros, d)
  {
    hide Pow, Side, ReadsAs;
    var n', exponent' := n * Pow(10, zeros), exponent + zeros;
    forall c | 0 <= c < INFINITY ensures Sign(SideOf(n', exponent, c)) == Sign(SideOf(n, exponent', c)) {
      var scale := Max(-exponent, 0) + 1075;
      BoundaryExponent(c);
      SideSign(n', exponent, UpperBoundary(c).f, UpperBoundary(c).e, scale);
      SideSign(n, exponent', UpperBoundary(c).f, UpperBoundary(c).e, scale);
      PowAdd(10, zeros, exponent + scale);
      MulAssoc(n, Pow(10, zeros), Pow(10, exponent + scale));
    }
    SameSides(n', exponent, n, exponent', d);
  }

  lemma BoundaryExponent(c: nat)
    requires IsFinite(c)
    ensures -1075 <= UpperBoundary(c).e <= 970 && 0 <= UpperBoundary(c).f < 0x40_0000_0000_0000
  {
  }

  /** A boundary is an integer of at most 772 digits times a power of ten. */
  lemma ShortBoundary(f: int, e: int, scale: nat) returns (b: int, q: nat)
    requires 0 <= f < 0x40_0000_0000_0000 && -1075 <= e <= 970 && 1075 <= scale
    ensures ScaledBoundary(f, e, scale) == b * Pow(10, q) && 0 <= b < Pow(10, 772)
  {
    hide Pow;
    SmallPowers(e);
    if e >= 0 {
      b, q := f * Pow(2, e), scale;
      MulMono(0, Pow(2, e), f);
      MulMono(f, 0x40_0000_0000_0000, Pow(2, e));
      MulMono(Pow(2, e), Pow(10, 753), 0x40_0000_0000_0000);
    } else {
      b, q := f * Pow(5, -e), scale + e;
      MulMono(0, Pow(5, -e), f);
      MulMono(f, 0x40_0000_0000_0000, Pow(5, -e));
      MulMono(Pow(5, -e), Pow(10, 753), 0x40_0000_0000_0000);
    }
  }

  lemma SmallPowers(e: int)
    ensures e >= 0 && e <= 970 ==> Pow(2, e) <= Pow(10, 753)
    ensures e < 0 && -1075 <= e ==> Pow(5, -e) <= Pow(10, 753)
    ensures 0x40_0000_0000_0000 * Pow(10, 753) < Pow(10, 772)
  {
    hide Pow;
    if 0 <= e <= 970 {
      PowMono(2, e, 970);
      Pow1(2);
      PowAdd(2, 1, 1);
      PowAdd(2, 2, 1);
      PowPow(2, 3, 324);
      PowMono(2, 970, 972);
      PowBaseMono(8, 10, 324);
      PowMono(10, 324, 753);
    }
    if -1075 <= e < 0 {
      PowMono(5, -e, 1075);
      Pow1(5);
      PowAdd(5, 1, 1);
      PowAdd(5, 2, 2);
      PowAdd(5, 4, 4);
      PowAdd(5, 8, 2);
      PowAdd(5, 4, 1);
      PowAdd(5, 5, 1070);
      PowPow(5, 10, 107);
      TenTo7();
      PowBaseMono(9765625, 10_000_000, 107);
      PowPow(10, 7, 107);
      Pow1(10);
      PowAdd(10, 1, 1);
      PowAdd(10, 2, 2);
      PowAdd(10, 4, 749);
      MulMono(3125, 10_000, Pow(5, 1070));
      MulMono(Pow(5, 1070), Pow(10, 749), 10_000);
    }
    PowAdd(10, 19, 753);
    TenTo19();
    MulStrict(0x40_0000_0000_0000, Pow(10, 19), Pow(10, 753));
  }

  lemma TenTo7()
    ensures Pow(10, 7) == 10_000_000
  {
  }

  lemma TenTo19()
    ensures Pow(10, 19) == 10_000_000_000_000_000_000
  {
    hide Pow;
    Pow1(10);
    TenTo7();
    PowAdd(10, 7, 7);
    PowAdd(10, 1, 1);
    PowAdd(10, 2, 2);
    PowAdd(10, 4, 1);
    PowAdd(10, 14, 5);
  }

  /** Between p and p + 1 units, where p has 772 digits or more, there is no boundary, whatever power of
      ten the unit is. */
  lemma NoBoundaryBetween(p: int, unit: nat, b: int, q: nat)
    requires Pow(10, 771) <= p && 0 <= b < Pow(10, 772)
    ensures b * Pow(10, q) <= p * Pow(10, unit) || (p + 1) * Pow(10, unit) <= b * Pow(10, q)
  {
    hide Pow;
    if unit <= q {
      PowAdd(10, q - unit, unit);
      MulAssoc(b, Pow(10, q - unit), Pow(10, unit));
      var c := b * Pow(10, q - unit);
      if c <= p { MulMono(c, p, Pow(10, unit)); } else { MulMono(p + 1, c, Pow(10, unit)); }
    } else {
      PowSucc(10, 771);
      PowSucc(10, q);
      PowMono(10, q + 1, unit);
      SmallerBoundary(p, Pow(10, 771), b, Pow(10, q), Pow(10, unit));
    }
  }

  lemma SmallerBoundary(p: int, digits: int, b: int, t: int, unit: int)
    requires 0 < digits <= p && 0 <= b < 10 * digits && 0 < t && 10 * t <= unit
    ensures b * t <= p * unit
  {
    MulMono(b, 10 * digits, t);
    MulAssoc(10, digits, t);
    MulAssoc(digits, 10, t);
    assert digits * (10 * t) == 10 * (digits * t);
    MulMono(10 * t, unit, digits);
    MulMono(digits, p, unit);
  }

  /** Cutting a number to 772 or more digits p and a final one: as long as something is cut off, both lie
      strictly between p and p + 1 units, and read as the same double. */
  lemma CutReadsTheSame(p: int, rest: int, cut: nat, exponent: int, d: nat)
    requires IsDouble(d) && Pow(10, 771) <= p && 1 <= cut && 0 < rest < Pow(10, cut)
    ensures ReadsAs(p * Pow(10, cut) + rest, exponent, d) <==> ReadsAs(10 * p + 1, exponent + cut - 1, d)
  {
    hide Pow, Side, ReadsAs;
    var n, n', exponent' := p * Pow(10, cut) + rest, 10 * p + 1, exponent + cut - 1;
    forall c | 0 <= c < INFINITY ensures Sign(SideOf(n, exponent, c)) == Sign(SideOf(n', exponent', c)) {
      BoundaryExponent(c);
      CutSide(p, rest, cut, exponent, UpperBoundary(c).f, UpperBoundary(c).e);
    }
    SameSides(n, exponent, n', exponent', d);
  }

  lemma CutSide(p: int, rest: int, cut: nat, exponent: int, f: int, e: int)
    requires Pow(10, 771) <= p && 1 <= cut && 0 < rest < Pow(10, cut)
    requires 0 <= f < 0x40_0000_0000_0000 && -1075 <= e <= 970
    ensures Sign(Side(p * Pow(10, cut) + rest, exponent, f, e)) == Sign(Side(10 * p + 1, exponent + cut - 1, f, e))
  {
    hide Pow, Side, ScaledBoundary;
    var scale := Max(-exponent, 0) + 1075;
    SideSign(p * Pow(10, cut) + rest, exponent, f, e, scale);
    SideSign(10 * p + 1, exponent + cut - 1, f, e, scale);
    var b, q := ShortBoundary(f, e, scale);
    var unit := exponent + cut + scale;
    NoBoundaryBetween(p, unit, b, q);
    var t := Pow(10, exponent + scale);
    PowAdd(10, cut, exponent + scale);
    PowSucc(10, unit - 1);
    MulStrict(0, rest, t);
    MulStrict(rest, Pow(10, cut), t);
    CutArith(p, rest, Pow(10, cut), t, Pow(10, unit), Pow(10, unit - 1), ScaledBoundary(f, e, scale));
  }

  lemma CutArith(p: int, rest: int, cut: int, t: int, unit: int, tenth: int, boundary: int)
    requires unit == cut * t && unit == 10 * tenth && 0 < tenth && 0 < rest * t < unit
    requires boundary <= p * unit || (p + 1) * unit <= boundary
    ensures Sign((p * cut + rest) * t - boundary) == Sign((10 * p + 1) * tenth - boundary)
  {
  }

  /** A decimal reads as one double only. */
  lemma OneDouble(n: int, exponent: int, c: nat, d: nat)
    requires IsDouble(c) && IsDouble(d) && c != d
    ensures !(ReadsAs(n, exponent, c) && ReadsAs(n, exponent, d))
  {
    hide RoundsToDouble;
    if c < d {
      RoundedIsUnique(n * Pow(10, Max(exponent, 0)), Pow(10, Max(-exponent, 0)), c, d);
    } else {
      RoundedIsUnique(n * Pow(10, Max(exponent, 0)), Pow(10, Max(-exponent, 0)), d, c);
    }
  }

  // ---- Numbers out of range

  lemma ZeroReadsAsZero(exponent: int)
    ensures ReadsAs(0, exponent, 0)
  {
  }

  lemma TwoTo93()
    ensures Pow(2, 93) < Pow(10, 28)
  {
    hide Pow;
    Pow2Values();
    PowAdd(2, 64, 28);
    Pow1(2);
    PowAdd(2, 92, 1);
    TenTo19();
    TenTo7();
    PowAdd(10, 7, 19);
    Pow1(10);
    PowAdd(10, 26, 1);
    PowAdd(10, 27, 1);
  }

  /** The range of doubles in powers of ten. */
  lemma RangeInTens()
    ensures Pow(2, 1024) < Pow(10, 309) && Pow(2, 1075) < Pow(10, 324)
  {
    hide Pow;
    TwoTo93();
    PowPow(2, 93, 11);
    PowPow(10, 28, 11);
    PowBaseMono(Pow(2, 93), Pow(10, 28), 11);
    Pow1(2);
    Pow1(10);
    PowAdd(2, 1, 1023);
    PowAdd(10, 1, 308);
    Pow2Values();
    PowAdd(2, 28, 12);
    PowAdd(2, 40, 12);
    PowAdd(2, 52, 1023);
    TenTo7();
    PowAdd(10, 7, 7);
    PowAdd(10, 1, 1);
    PowAdd(10, 14, 2);
    PowAdd(10, 16, 308);
    MulMono(Pow(2, 1023), Pow(10, 308), Pow(2, 52));
    MulStrict(Pow(2, 52), Pow(10, 16), Pow(10, 308));
  }

  lemma HugeReadsAsInfinity(n: int, exponent: int, digits: nat)
    requires 0 < digits && Pow(10, digits - 1) <= n && 309 <= exponent + digits - 1
    ensures ReadsAs(n, exponent, INFINITY)
  {
    hide Pow;
    var a, b := Max(exponent, 0), Max(-exponent, 0);
    RangeInTens();
    LargestMid();
    PowAdd(10, digits - 1, a);
    PowAdd(10, b, 309);
    PowMono(10, b + 309, digits - 1 + a);
    MulMono(Pow(10, digits - 1), n, Pow(10, a));
    HugeArith(n * Pow(10, a), Pow(10, b), Pow(10, 309), Pow(2, 1024), Pow(2, 1075), TwiceMid(INFINITY - 1));
  }

  lemma HugeArith(num: int, den: int, tens: int, twos: int, units: int, mid: int)
    requires 0 < den && den * tens <= num && 0 < twos <= tens && 0 < units && mid <= twos * units
    ensures den * mid <= num * units
  {
  }

  lemma LargestMid()
    ensures TwiceMid(INFINITY - 1) <= Pow(2, 1024) * Pow(2, 1075)
  {
    hide Pow;
    ScaledMono(INFINITY - 1, INFINITY);
    DivModUnique(INFINITY, 0x10_0000_0000_0000, 2047, 0);
    assert Scaled(INFINITY) == 0x10_0000_0000_0000 * Pow(2, 2046);
    Pow2Values();
    PowAdd(2, 28, 12);
    PowAdd(2, 40, 12);
    PowAdd(2, 52, 2046);
    PowSucc(2, 2098);
    PowAdd(2, 1024, 1075);
  }

  lemma TinyReadsAsZero(n: int, exponent: int, digits: nat)
    requires 0 <= n < Pow(10, digits) && exponent + digits <= -324
    ensures ReadsAs(n, exponent, 0)
  {
    hide Pow;
    RangeInTens();
    SmallestMid();
    PowAdd(10, digits, 324);
    PowMono(10, digits + 324, -exponent);
    Pow1(10);
    MulMono(n, Pow(10, digits), Pow(2, 1075));
    MulMono(Pow(2, 1075), Pow(10, 324), Pow(10, digits));
  }

  lemma SmallestMid()
    ensures TwiceMid(0) == 1
  {
  }

  /** The comparison with its upper boundary picks between a guess and the double above it. */
  lemma GuessDecided(n: int, exponent: int, guess: nat)
    requires IsFinite(guess) && (ReadsAs(n, exponent, guess) || ReadsAs(n, exponent, guess + 1))
    ensures ReadsAs(n, exponent, guess) <==>
      (SideOf(n, exponent, guess) < 0 || (SideOf(n, exponent, guess) == 0 && guess % 2 == 0))
  {
    hide SideOf, ReadsAs;
    ReadsAsBySides(n, exponent, guess);
    ReadsAsBySides(n, exponent, guess + 1);
  }

  /** Far out of range the exponent does not matter: a positive number is infinity, or zero. */
  lemma OutOfRangeAlike(n: int, digits: nat, exponent: int, exponent': int, d: nat)
    requires 0 <= n < Pow(10, digits) && IsDouble(d)
    requires (309 <= exponent && 309 <= exponent') || (exponent + digits <= -324 && exponent' + digits <= -324)
    ensures ReadsAs(n, exponent, d) <==> ReadsAs(n, exponent', d)
  {
    hide ReadsAs;
    Pow1(10);
    var c := if n == 0 || exponent < 309 then 0 else INFINITY;
    if n == 0 {
      ZeroReadsAsZero(exponent);
      ZeroReadsAsZero(exponent');
    } else if exponent >= 309 {
      HugeReadsAsInfinity(n, exponent, 1);
      HugeReadsAsInfinity(n, exponent', 1);
    } else {
      TinyReadsAsZero(n, exponent, digits);
      TinyReadsAsZero(n, exponent', digits);
    }
    if d != c {
      OneDouble(n, exponent, c, d);
      OneDouble(n, exponent', c, d);
    }
  }

  /** Every decimal reads as some double: the first one whose upper boundary it does not pass. */
  lemma EveryDecimalReads(n: int, exponent: int) returns (d: nat)
    ensures IsDouble(d) && ReadsAs(n, exponent, d)
  {
    d := FirstNotPassed(n, exponent, 0);
  }

  lemma {:induction false} FirstNotPassed(n: int, exponent: int, c: nat) returns (d: nat)
    requires IsDouble(c) && (0 < c ==>
      if c % 2 == 0 then SideOf(n, exponent, c - 1) >= 0 else SideOf(n, exponent, c - 1) > 0)
    ensures IsDouble(d) && ReadsAs(n, exponent, d)
    decreases INFINITY - c
  {
    hide SideOf, ReadsAs;
    var side := SideOf(n, exponent, c);
    if c == INFINITY || side < 0 || (side == 0 && c % 2 == 0) {
      ReadsAsBySides(n, exponent, c);
      d := c;
    } else {
      d := FirstNotPassed(n, exponent, c + 1);
    }
  }
}
