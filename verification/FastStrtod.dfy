/** The fast reading conversion: digits and exponent as a number of 64 bits with a bounded error, rounded to a double
    when the error cannot matter. */
module FastStrtod {
  import opened Arith
  import opened Decimal
  import opened Ieee
  import opened StrtodSpec
  import opened CachedPowers
  import opened ErrorBounds
  import PowerEstimate
  import Scaling
  import StartValues

  /** The decimal n * 10^exponent. */
  ghost function Value(n: int, exponent: int): real { n as real * Power(10, exponent) }

  /** What is known of a fast conversion: it is right when it says so, and otherwise right or one double too low. */
  ghost predicate Approximates(n: int, exponent: int, exact: bool, guess: nat) {
    && IsDouble(guess)
    && (ReadsAs(n, exponent, guess) || (!exact && IsFinite(guess) && ReadsAs(n, exponent, guess + 1)))
  }

  // ---- Boundaries between doubles

  ghost predicate Under(v: real, f: int, e: int) { v < f as real * Two(e) }

  ghost predicate Over(v: real, f: int, e: int) { f as real * Two(e) < v }

  /** The comparison with f * 2^e as one of reals. */
  lemma SideIsReal(n: int, exponent: int, f: int, e: int)
    ensures Side(n, exponent, f, e) < 0 <==> Under(Value(n, exponent), f, e)
    ensures Side(n, exponent, f, e) > 0 <==> Over(Value(n, exponent), f, e)
  {
    hide Power, Pow;
    PowerParts(10, exponent);
    PowerParts(2, e);
    SideArith(n, f, Power(10, exponent), Two(e), Pow(10, Max(-exponent, 0)), Pow(10, Max(exponent, 0)),
              Pow(2, Max(-e, 0)), Pow(2, Max(e, 0)));
  }

  lemma SideArith(n: int, f: int, x: real, y: real, a: int, a': int, b: int, b': int)
    requires IsRatio(x, a, a') && IsRatio(y, b, b')
    ensures var side := n * a' * b - f * b' * a;
      (side < 0 <==> n as real * x < f as real * y) && (side > 0 <==> n as real * x > f as real * y)
  {
    var p, q := a as real, b as real;
    RealPositive(p, q);
    RealTriple(n, a', b);
    RealTriple(f, b', a);
    Regrouped(n as real, x, p, q);
    Regrouped(f as real, y, q, p);
    RealLess(n as real * x, f as real * y, p * q);
    RealLess(f as real * y, n as real * x, p * q);
    assert p * q == q * p;
  }

  lemma Regrouped(n: real, x: real, p: real, q: real)
    ensures (n * x) * (p * q) == n * (x * p) * q
  {
  }

  /** The double with this significand and exponent. */
  function Join(f: nat, e: int): int {
    if f < 0x10_0000_0000_0000 then f else (e + 1075) * 0x10_0000_0000_0000 + (f - 0x10_0000_0000_0000)
  }

  ghost predicate AreParts(f: nat, e: int) {
    && f < 0x20_0000_0000_0000 && DENORMAL_EXPONENT <= e <= 971
    && (0x10_0000_0000_0000 <= f || e == DENORMAL_EXPONENT)
  }

  lemma Joined(f: nat, e: int)
    requires AreParts(f, e)
    ensures 0 <= Join(f, e) < INFINITY && Significand(Join(f, e)) == f && Exponent(Join(f, e)) == e
  {
    if f < 0x10_0000_0000_0000 {
      DivModUnique(f, 0x10_0000_0000_0000, 0, f);
    } else {
      DivModUnique(Join(f, e), 0x10_0000_0000_0000, e + 1075, f - 0x10_0000_0000_0000);
    }
  }

  /** Halves and quarters of a unit. */
  lemma Halves(x: int, e: int)
    ensures (2 * x) as real * Two(e - 1) == x as real * Two(e)
  {
    hide Power;
    PowerAdd(2, e - 1, 1);
    TwoIs(1);
    Pow1(2);
    Doubled(x as real, Two(e - 1));
  }

  lemma Doubled(x: real, t: real)
    ensures (2.0 * x) * t == x * (t * 2.0)
  {
  }

  /** Where a number lies that is not more than a quarter of a unit below the double (f, e), and less than one and a
      half above it. */
  lemma BetweenDoubles(n: int, exponent: int, f: nat, e: int)
    requires AreParts(f, e)
    requires Over(Value(n, exponent), 4 * f - 1, e - 2) && Under(Value(n, exponent), 2 * f + 3, e - 1)
    ensures var d, v := Join(f, e), Value(n, exponent);
      && IsFinite(d)
      && (Under(v, 2 * f + 1, e - 1) ==> ReadsAs(n, exponent, d))
      && (Over(v, 2 * f + 1, e - 1) ==> ReadsAs(n, exponent, d + 1))
      && (ReadsAs(n, exponent, d) || ReadsAs(n, exponent, d + 1))
  {
    hide Value, ReadsAs, Side, SideOf, Join, Under, Over;
    Joined(f, e);
    var d := Join(f, e);
    if 0 < d { AboveLower(n, exponent, d); }
    if IsFinite(d + 1) { BelowUpper(n, exponent, d); }
    MiddleSide(n, exponent, d);
    BySides(n, exponent, d);
  }

  lemma MiddleSide(n: int, exponent: int, d: nat)
    ensures SideOf(n, exponent, d) < 0 <==> Under(Value(n, exponent), 2 * Significand(d) + 1, Exponent(d) - 1)
    ensures SideOf(n, exponent, d) > 0 <==> Over(Value(n, exponent), 2 * Significand(d) + 1, Exponent(d) - 1)
  {
    hide Value, Side, Under, Over;
    SideIsReal(n, exponent, 2 * Significand(d) + 1, Exponent(d) - 1);
  }

  lemma BySides(n: int, exponent: int, d: nat)
    requires IsFinite(d) && (0 < d ==> SideOf(n, exponent, d - 1) > 0)
    requires IsFinite(d + 1) ==> SideOf(n, exponent, d + 1) < 0
    ensures SideOf(n, exponent, d) < 0 ==> ReadsAs(n, exponent, d)
    ensures SideOf(n, exponent, d) > 0 ==> ReadsAs(n, exponent, d + 1)
    ensures ReadsAs(n, exponent, d) || ReadsAs(n, exponent, d + 1)
  {
    hide ReadsAs, SideOf;
    ReadsAsBySides(n, exponent, d);
    ReadsAsBySides(n, exponent, d + 1);
  }

  lemma AboveLower(n: int, exponent: int, d: nat)
    requires IsFinite(d) && 0 < d
    requires Over(Value(n, exponent), 4 * Significand(d) - 1, Exponent(d) - 2)
    ensures SideOf(n, exponent, d - 1) > 0
  {
    hide Value, Side, Two;
    var f, e := Significand(d), Exponent(d);
    Below(d);
    if LowerBoundaryIsCloser(d) {
      SideIsReal(n, exponent, 4 * f - 1, e - 2);
    } else {
      Halves(2 * f - 1, e - 1);
      TwoMono(4 * f - 2, 4 * f - 1, e - 2);
      SideIsReal(n, exponent, 2 * f - 1, e - 1);
    }
  }

  lemma TwoMono(x: int, y: int, e: int)
    requires x <= y
    ensures x as real * Two(e) <= y as real * Two(e)
  {
    hide Power;
    PowerParts(2, e);
    RealMono(x as real, y as real, Two(e));
  }

  lemma BelowUpper(n: int, exponent: int, d: nat)
    requires IsFinite(d) && IsFinite(d + 1)
    requires Under(Value(n, exponent), 2 * Significand(d) + 3, Exponent(d) - 1)
    ensures SideOf(n, exponent, d + 1) < 0
  {
    hide Value, Side, Two;
    var f, e := Significand(d), Exponent(d);
    NextParts(d);
    if Exponent(d + 1) == e {
      SideIsReal(n, exponent, 2 * f + 3, e - 1);
    } else {
      Halves(f + 2, e);
      TwoMono(2 * f + 3, 2 * f + 4, e - 1);
      SideIsReal(n, exponent, f + 2, e);
    }
  }

  lemma NextParts(d: nat)
    requires IsFinite(d) && IsFinite(d + 1)
    ensures (Exponent(d + 1) == Exponent(d) && Significand(d + 1) == Significand(d) + 1) ||
      (Exponent(d + 1) == Exponent(d) + 1 && 2 * Significand(d + 1) == Significand(d) + 1)
  {
    var h := 0x10_0000_0000_0000;
    DivMod(d, h);
    var q, r := d / h, d % h;
    if r + 1 < h { DivModUnique(d + 1, h, q, r + 1); } else { DivModUnique(d + 1, h, q + 1, 0); }
  }

  // ---- From a significand and exponent to a double

  /** DiyFpToUint64. */
  method DiyFpToUint64(f: uint64, e: int) returns (d: nat)
    ensures IsDouble(d)
    ensures f < 0x20_0000_0000_0000 && e < DENORMAL_EXPONENT ==> d == 0
    ensures 0x10_0000_0000_0000 <= f && e > 971 ==> d == INFINITY
    ensures AreParts(f, e) ==> d == Join(f, e)
    ensures f == 0x20_0000_0000_0000 && DENORMAL_EXPONENT <= e <= 971 ==> d == Join(f - 1, e) + 1
  {
    var significand: uint64, exponent := f, e;
    while significand > 0x1f_ffff_ffff_ffff
      invariant exponent >= e && (f < 0x20_0000_0000_0000 ==> significand == f && exponent == e)
      invariant f == 0x20_0000_0000_0000 ==>
        (significand == f && exponent == e) || (significand == 0x10_0000_0000_0000 && exponent == e + 1)
      invariant 0x10_0000_0000_0000 <= f ==> 0x10_0000_0000_0000 <= significand
      decreases significand
    {
      significand := significand / 2;
      exponent := exponent + 1;
    }
    if exponent > 971 { return INFINITY; }
    if exponent < DENORMAL_EXPONENT { return 0; }
    ghost var before := (significand, exponent);
    while exponent > DENORMAL_EXPONENT && significand / 0x10_0000_0000_0000 % 2 == 0
      invariant DENORMAL_EXPONENT <= exponent <= 971 && significand < 0x20_0000_0000_0000
      invariant before.0 >= 0x10_0000_0000_0000 || before.1 == DENORMAL_EXPONENT ==> before == (significand, exponent)
      decreases exponent - DENORMAL_EXPONENT
    {
      HiddenBitClear(significand);
      significand := significand * 2;
      exponent := exponent - 1;
    }
    var biasedExponent := if exponent == DENORMAL_EXPONENT && significand / 0x10_0000_0000_0000 % 2 == 0 then 0
      else exponent + 1075;
    HiddenBitClear(significand);
    d := significand % 0x10_0000_0000_0000 + biasedExponent * 0x10_0000_0000_0000;
  }

  lemma HiddenBitClear(f: uint64)
    requires f < 0x20_0000_0000_0000
    ensures f / 0x10_0000_0000_0000 % 2 == 0 <==> f < 0x10_0000_0000_0000
    ensures f % 0x10_0000_0000_0000 == if f < 0x10_0000_0000_0000 then f else f - 0x10_0000_0000_0000
  {
    if f < 0x10_0000_0000_0000 { DivModUnique(f, 0x10_0000_0000_0000, 0, f); }
    else { DivModUnique(f, 0x10_0000_0000_0000, 1, f - 0x10_0000_0000_0000); }
  }

  /** Rounded down or up, or the other way: double and next double. */
  lemma JoinNext(f: nat, e: int)
    requires AreParts(f, e)
    ensures f + 1 < 0x20_0000_0000_0000 ==> AreParts(f + 1, e) && Join(f + 1, e) == Join(f, e) + 1
  {
  }

  // ---- Rounding to the precision of a double

  /** A multiple of a larger unit, counted in units of 2^e. */
  lemma InUnits(z: int, e: int, k: nat)
    ensures z as real * Two(e + k) == (z * Pow(2, k)) as real * Two(e)
  {
    hide Power, Pow;
    PowerAdd(2, e, k);
    TwoIs(k);
    RealProduct(z, Pow(2, k));
    RealAssoc(z as real, Pow(2, k) as real, Two(e));
  }

  /** Where a number lies whose significand f has the upper part upper and the lower part bits, of count bits. */
  lemma BitsBounds(v: real, f: int, e: int, error: int, upper: int, bits: int, count: nat)
    requires Closer(v, f, e, error) && 2 <= count && f == upper * Pow(2, count) + bits
    requires 0 <= bits < Pow(2, count) && 0 <= error <= 2 * Pow(2, count)
    ensures var e' := e + count;
      && Over(v, 4 * upper - 1, e' - 2) && Under(v, 2 * upper + 3, e' - 1)
      && (8 * bits >= 4 * Pow(2, count) + error ==> Over(v, 2 * upper + 1, e' - 1))
      && (8 * bits + error <= 4 * Pow(2, count) ==> Under(v, 2 * upper + 1, e' - 1))
  {
    hide Closer, Pow, Under, Over;
    CloserIs(v, f, e, error);
    var quarter, half := Pow(2, count - 2), Pow(2, count - 1);
    PowSucc(2, count - 2);
    PowSucc(2, count - 1);
    BitsArith(f, upper, bits, error, quarter, half, Pow(2, count));
    BelowBound(v, 4 * upper - 1, e, count - 2, 8 * f - error);
    AboveBound(v, 2 * upper + 3, e, count - 1, 8 * f + error);
    if 8 * bits >= 4 * Pow(2, count) + error { BelowBound(v, 2 * upper + 1, e, count - 1, 8 * f - error); }
    if 8 * bits + error <= 4 * Pow(2, count) { AboveBound(v, 2 * upper + 1, e, count - 1, 8 * f + error); }
  }

  lemma BitsArith(f: int, upper: int, bits: int, error: int, quarter: int, half: int, whole: int)
    requires half == 2 * quarter && whole == 2 * half && f == upper * whole + bits
    requires 0 <= bits < whole && 0 <= error <= 2 * whole
    ensures 8 * ((4 * upper - 1) * quarter) <= 8 * f - error && 8 * f + error <= 8 * ((2 * upper + 3) * half)
    ensures 8 * bits >= 4 * whole + error ==> 8 * ((2 * upper + 1) * half) <= 8 * f - error
    ensures 8 * bits + error <= 4 * whole ==> 8 * f + error <= 8 * ((2 * upper + 1) * half)
  {
    QuarterArith(upper, quarter);
  }

  lemma CloserIs(v: real, f: int, e: int, error: int)
    ensures Closer(v, f, e, error) <==> Over(8.0 * v, 8 * f - error, e) && Under(8.0 * v, 8 * f + error, e)
  {
  }

  lemma BelowBound(v: real, z: int, e: int, k: nat, y: int)
    requires 8 * (z * Pow(2, k)) <= y && Over(8.0 * v, y, e)
    ensures Over(v, z, e + k)
  {
    hide Power, Pow;
    InUnits(z, e, k);
    PowerParts(2, e);
    EighthsBelow(z * Pow(2, k), y, v, Two(e));
  }

  lemma AboveBound(v: real, z: int, e: int, k: nat, y: int)
    requires y <= 8 * (z * Pow(2, k)) && Under(8.0 * v, y, e)
    ensures Under(v, z, e + k)
  {
    hide Power, Pow;
    InUnits(z, e, k);
    PowerParts(2, e);
    EighthsAbove(z * Pow(2, k), y, v, Two(e));
  }

  lemma QuarterArith(upper: int, quarter: int)
    ensures (4 * upper - 1) * quarter == 4 * (upper * quarter) - quarter
    ensures (2 * upper + 3) * (2 * quarter) == 4 * (upper * quarter) + 6 * quarter
    ensures (2 * upper + 1) * (2 * quarter) == 4 * (upper * quarter) + 2 * quarter
    ensures upper * (4 * quarter) == 4 * (upper * quarter)
  {
  }

  lemma EighthsBelow(x: int, y: int, v: real, t: real)
    requires 0.0 < t && 8 * x <= y && y as real * t < 8.0 * v
    ensures x as real * t < v
  {
    RealMono((8 * x) as real, y as real, t);
    EightTimesReal(x, t);
  }

  lemma EighthsAbove(x: int, y: int, v: real, t: real)
    requires 0.0 < t && y <= 8 * x && 8.0 * v < y as real * t
    ensures v < x as real * t
  {
    RealMono(y as real, (8 * x) as real, t);
    EightTimesReal(x, t);
  }

  lemma EightTimesReal(x: int, t: real)
    ensures (8 * x) as real * t == 8.0 * (x as real * t)
  {
    RealAssoc(8.0, x as real, t);
  }

  /** Dropping shift bits of the significand, with one more eighth and one more unit of error. */
  lemma ShiftedRight(v: real, f: int, e: int, error: int, shift: nat)
    requires Closer(v, f, e, error) && 0 <= f && 0 <= error
    ensures Closer(v, f / Pow(2, shift), e + shift, error / Pow(2, shift) + 9)
  {
    hide Two, Pow;
    var p := Pow(2, shift);
    DivMod(f, p);
    DivMod(error, p);
    var f', error' := f / p, error / p + 9;
    ShiftArith(f, f', f % p, error, error / p, error % p, p);
    InLargerUnits(v, 8 * f' - error', 8 * f - error, 8 * f + error, 8 * f' + error', e, shift);
  }

  lemma InLargerUnits(v: real, low': int, low: int, high: int, high': int, e: int, k: nat)
    requires low as real * Two(e) < 8.0 * v < high as real * Two(e)
    requires low' * Pow(2, k) <= low && high <= high' * Pow(2, k)
    ensures low' as real * Two(e + k) < 8.0 * v < high' as real * Two(e + k)
  {
    hide Two, Pow;
    LargerBelow(8.0 * v, low', low, e, k);
    LargerAbove(8.0 * v, high', high, e, k);
  }

  lemma LargerBelow(v: real, low': int, low: int, e: int, k: nat)
    requires low as real * Two(e) < v && low' * Pow(2, k) <= low
    ensures low' as real * Two(e + k) < v
  {
    hide Power, Pow;
    InUnits(low', e, k);
    PowerParts(2, e);
    RealMono((low' * Pow(2, k)) as real, low as real, Two(e));
  }

  lemma LargerAbove(v: real, high': int, high: int, e: int, k: nat)
    requires v < high as real * Two(e) && high <= high' * Pow(2, k)
    ensures v < high' as real * Two(e + k)
  {
    hide Power, Pow;
    InUnits(high', e, k);
    PowerParts(2, e);
    RealMono(high as real, (high' * Pow(2, k)) as real, Two(e));
  }

  lemma ShiftArith(f: int, f': int, r: int, error: int, q: int, s: int, p: int)
    requires 0 < p && f == f' * p + r && error == q * p + s && 0 <= r < p && 0 <= s < p
    ensures (8 * f' - (q + 9)) * p <= 8 * f - error && 8 * f + error <= (8 * f' + (q + 9)) * p
  {
    assert (8 * f' - (q + 9)) * p == 8 * (f' * p) - q * p - 9 * p;
    assert (8 * f' + (q + 9)) * p == 8 * (f' * p) + q * p + 9 * p;
  }

  /** Double::SignificandSizeForOrderOfMagnitude. */
  function SignificandSizeForOrderOfMagnitude(order: int): int {
    if order >= DENORMAL_EXPONENT + 53 then 53 else if order <= DENORMAL_EXPONENT then 0 else order - DENORMAL_EXPONENT
  }

  /** A number below half of the smallest double, or just that. */
  lemma TinyValue(n: int, exponent: int)
    requires Value(n, exponent) <= Two(-1075)
    ensures ReadsAs(n, exponent, 0)
  {
    hide Value, Side, Two, ReadsAs;
    SideIsReal(n, exponent, 1, -1075);
    assert SideOf(n, exponent, 0) == Side(n, exponent, 1, -1075);
    ReadsAsBySides(n, exponent, 0);
  }

  /** Numbers that round to significands with exponents beyond those of doubles. */
  lemma HugeValue(n: int, exponent: int, f: nat, e: int)
    requires 0x10_0000_0000_0000 <= f && e > 971 && Over(Value(n, exponent), 4 * f - 1, e - 2)
    ensures ReadsAs(n, exponent, INFINITY)
  {
    hide Value, ReadsAs, SideOf, Join, Over;
    LargestJoined();
    Joined(0x1f_ffff_ffff_ffff, 971);
    OverLargest(Value(n, exponent), f, e);
    MiddleSide(n, exponent, INFINITY - 1);
    ReadsAsBySides(n, exponent, INFINITY);
  }

  lemma OverLargest(v: real, f: nat, e: int)
    requires 0x10_0000_0000_0000 <= f && e > 971 && Over(v, 4 * f - 1, e - 2)
    ensures Over(v, 0x3f_ffff_ffff_ffff, 970)
  {
    hide Two, Pow;
    var k := e - 972;
    assert e - 2 == 970 + k;
    InUnits(4 * f - 1, 970, k);
    PowMono(2, 0, k);
    Pow1(2);
    MulMono(1, Pow(2, k), 4 * f - 1);
    TwoMono(0x3f_ffff_ffff_ffff, (4 * f - 1) * Pow(2, k), 970);
  }

  lemma LargestJoined()
    ensures Join(0x1f_ffff_ffff_ffff, 971) == INFINITY - 1
  {
  }

  lemma UnderHalf(v: real, f: nat, e: int, error: int)
    requires Closer(v, f, e, error) && f < 0x1_0000_0000_0000_0000 && error <= 180 && 64 + e <= -1076
    ensures v <= Two(-1075)
  {
    hide Power, Pow;
    Pow2Values();
    Pow1(2);
    PowSucc(2, 64);
    PowMono(2, 65, -1075 - e);
    InUnits(1, e, -1075 - e);
    PowerParts(2, e);
    EighthsAbove(Pow(2, -1075 - e), 8 * f + error, v, Two(e));
    assert 1 as real * Two(-1075) == Two(-1075);
  }

  /** The upper part is a significand, or the exponent is out of range. */
  lemma UpperPart(f: uint64, e: int, size: int, upper: nat)
    requires 0x8000_0000_0000_0000 <= f && size == SignificandSizeForOrderOfMagnitude(64 + e)
    requires upper == f / Pow(2, 64 - size)
    ensures upper < 0x20_0000_0000_0000
    ensures var e' := e + (64 - size);
      if e' < DENORMAL_EXPONENT then upper == 0 && e' == 64 + e
      else if e' > 971 then 0x10_0000_0000_0000 <= upper < 0x20_0000_0000_0000
      else AreParts(upper, e')
  {
    hide Pow;
    Pow2Values();
    var p := Pow(2, 64 - size);
    PowAdd(2, size, 64 - size);
    DivMod(f, p);
    MulCancel(upper, Pow(2, size), p);
    if size == 53 {
      ElevenBits();
    } else {
      PowMono(2, size, 52);
      PowerOf52();
      Pow1(2);
    }
  }

  lemma PowerOf52()
    ensures Pow(2, 52) == 0x10_0000_0000_0000
  {
    hide Pow;
    Pow2Values();
    PowAdd(2, 32, 16);
    PowAdd(2, 48, 4);
  }

  lemma ElevenBits()
    ensures Pow(2, 11) == 0x800 && Pow(2, 53) == 0x20_0000_0000_0000
  {
    hide Pow;
    Pow2Values();
    PowSucc(2, 8);
    PowSucc(2, 9);
    PowSucc(2, 10);
    PowerOf52();
    PowSucc(2, 52);
  }

  /** What the code makes of the rounded significand. */
  lemma RoundedRight(n: int, exponent: int, upper: nat, e: int, up: bool, guess: nat, exact: bool)
    requires AreParts(upper, e) && guess == Join(upper, e) + if up then 1 else 0
    requires Over(Value(n, exponent), 4 * upper - 1, e - 2) && Under(Value(n, exponent), 2 * upper + 3, e - 1)
    requires up ==> exact && Over(Value(n, exponent), 2 * upper + 1, e - 1)
    requires exact && !up ==> Under(Value(n, exponent), 2 * upper + 1, e - 1)
    ensures Approximates(n, exponent, exact, guess)
  {
    hide Value, ReadsAs, Join, Under, Over;
    Joined(upper, e);
    BetweenDoubles(n, exponent, upper, e);
  }

  const DENOMINATOR_LOG := 3
  const DENOMINATOR := 8

  lemma DivDiv(x: int, m: nat, n: nat)
    ensures x / Pow(2, m) / Pow(2, n) == x / Pow(2, m + n)
  {
    hide Pow;
    var p, q := Pow(2, m), Pow(2, n);
    PowAdd(2, m, n);
    DivMod(x, p);
    DivMod(x / p, q);
    var a, b, c := x / p / q, (x / p) % q, x % p;
    MulAssoc(a, q, p);
    MulMono(b + 1, q, p);
    MulMono(0, b, p);
    assert (a * q + b) * p == (a * q) * p + b * p && (b + 1) * p == b * p + p;
    MulAssoc(q, p, 1);
    assert q * p == p * q;
    DivModUnique(x, p * q, a, b * p + c);
  }

  /** For very small numbers the bits below the precision would not fit eight times: drop a few. */
  method MakeRoom(f: uint64, e: int, error: nat, count: int, ghost v: real)
    returns (f': uint64, e': int, error': nat, count': int)
    requires Closer(v, f, e, error) && error <= 180 && 11 <= count <= 64
    ensures Closer(v, f', e', error') && error' <= 189 && 11 <= count' <= 60
    ensures e' + count' == e + count && f' / Pow(2, count') == f / Pow(2, count)
  {
    hide Pow, Closer;
    f', e', error', count' := f, e, error, count;
    if count + DENOMINATOR_LOG >= 64 {
      var shiftAmount := count + DENOMINATOR_LOG - 64 + 1;
      ShiftedRight(v, f, e, error, shiftAmount);
      DivDiv(f, shiftAmount, 60);
      Shrinks(f, Pow(2, shiftAmount));
      Shrinks(error, Pow(2, shiftAmount));
      f' := f / Pow(2, shiftAmount);
      e' := e + shiftAmount;
      error' := error / Pow(2, shiftAmount) + 1 + DENOMINATOR;
      count' := count - shiftAmount;
    }
  }

  lemma Shrinks(x: int, p: int)
    requires 0 <= x && 1 <= p
    ensures 0 <= x / p <= x
  {
    DivMod(x, p);
    DivMono(0, x, p);
    DivModUnique(0, p, 0, 0);
    MulMono(1, p, x / p);
  }

  /** Rounds a number of 64 bits to a double, and tells whether its error may change the result. */
  method RoundInput(f0: uint64, e0: int, error0: nat, ghost n: int, ghost exponent: int)
    returns (exact: bool, guess: nat)
    requires 0x8000_0000_0000_0000 <= f0 && error0 <= 180 && Closer(Value(n, exponent), f0, e0, error0)
    requires 64 + e0 == -1075 ==> Value(n, exponent) <= Two(-1075)
    ensures Approximates(n, exponent, exact, guess)
  {
    hide Value, Pow, Two, Closer, Approximates, Join, AreParts, Under, Over, CACHED_POWERS;
    var orderOfMagnitude := 64 + e0;
    var size := SignificandSizeForOrderOfMagnitude(orderOfMagnitude);
    var f, e, error, count := MakeRoom(f0, e0, error0, 64 - size, Value(n, exponent));
    CountBits(count);
    DivMod(f, Pow(2, count));
    var bits: uint64, upper: uint64 := f % Pow(2, count), f / Pow(2, count);
    UpperPart(f0, e0, size, upper);
    BitsBounds(Value(n, exponent), f, e, error, upper, bits, count);
    var precisionBits: uint64, halfWay: uint64 := bits * DENOMINATOR, Pow(2, count - 1) * DENOMINATOR;
    var up := precisionBits >= halfWay + error;
    exact := !(halfWay - error < precisionBits < halfWay + error);
    guess := Rounded(upper, e + count, up);
    GuessIsRight(n, exponent, f0, e0, error0, upper, e + count, up, guess, exact);
  }

  lemma CountBits(count: int)
    requires 11 <= count <= 60
    ensures 0x800 <= Pow(2, count) == 2 * Pow(2, count - 1) <= 0x1000_0000_0000_0000
  {
    hide Pow;
    ElevenBits();
    PowMono(2, 11, count);
    PowMono(2, count, 60);
    Pow2Values();
    PowAdd(2, 28, 32);
    PowSucc(2, count - 1);
  }

  method Rounded(upper: uint64, e: int, up: bool) returns (guess: nat)
    requires upper < 0x20_0000_0000_0000 && (e < DENORMAL_EXPONENT ==> upper == 0)
    requires DENORMAL_EXPONENT <= e <= 971 ==> AreParts(upper, e)
    requires e > 971 ==> 0x10_0000_0000_0000 <= upper
    ensures e < DENORMAL_EXPONENT ==> guess == 0
    ensures e > 971 ==> guess == INFINITY
    ensures DENORMAL_EXPONENT <= e <= 971 ==> guess == Join(upper, e) + if up then 1 else 0
  {
    if DENORMAL_EXPONENT <= e <= 971 { JoinNext(upper, e); }
    guess := DiyFpToUint64(if up then upper + 1 else upper, e);
  }

  lemma GuessIsRight(n: int, exponent: int, f: uint64, e: int, error: int, upper: nat, e': int, up: bool, guess: nat,
                     exact: bool)
    requires error <= 180 && Closer(Value(n, exponent), f, e, error)
    requires 64 + e == -1075 ==> Value(n, exponent) <= Two(-1075)
    requires Over(Value(n, exponent), 4 * upper - 1, e' - 2) && Under(Value(n, exponent), 2 * upper + 3, e' - 1)
    requires up ==> exact && Over(Value(n, exponent), 2 * upper + 1, e' - 1)
    requires exact && !up ==> Under(Value(n, exponent), 2 * upper + 1, e' - 1)
    requires if e' < DENORMAL_EXPONENT then upper == 0 && e' == 64 + e && guess == 0
      else if e' > 971 then 0x10_0000_0000_0000 <= upper && guess == INFINITY
      else AreParts(upper, e') && guess == Join(upper, e') + if up then 1 else 0
    ensures Approximates(n, exponent, exact, guess)
  {
    hide Value, ReadsAs, Two, Closer, Under, Over, Join;
    if e' < DENORMAL_EXPONENT {
      if 64 + e <= -1076 { UnderHalf(Value(n, exponent), f, e, error); }
      TinyValue(n, exponent);
    } else if e' > 971 {
      HugeValue(n, exponent, upper, e');
    } else {
      RoundedRight(n, exponent, upper, e', up, guess, exact);
    }
  }

  // ---- The first digits

  const MAX_UINT64_DECIMAL_DIGITS := 19

  /** As many digits as surely fit a 64-bit word. */
  method ReadUint64(buffer: seq<char>) returns (result: uint64, count: nat)
    requires AllDigits(buffer) && buffer != []
    ensures 1 <= count <= |buffer| && result == DigitsVal(buffer[..count]) <= 0xffff_ffff_ffff_fff9
    ensures count < |buffer| ==> 1_844_674_407_370_955_161 <= result
    ensures DigitsVal(buffer[..count - 1]) <= 1_844_674_407_370_955_160
  {
    hide DigitsVal;
    result, count := 0, 0;
    NoDigits();
    assert buffer[..0] == [];
    while count < |buffer| && result <= 0xffff_ffff_ffff_ffff / 10 - 1
      invariant 0 <= count <= |buffer| && 0 <= result <= 0xffff_ffff_ffff_fff9 && result == DigitsVal(buffer[..count])
      invariant count > 0 ==> DigitsVal(buffer[..count - 1]) <= 1_844_674_407_370_955_160
    {
      assert buffer[..count + 1] == buffer[..count] + [buffer[count]];
      DigitsAppend(buffer[..count], buffer[count]);
      result := 10 * result + DigitOf(buffer[count]);
      count := count + 1;
    }
  }

  /** The digits read, rounded if more follow: f is within half a unit of n / 10^remaining. */
  ghost predicate IsRead(n: int, f: int, remaining: nat) {
    && (2 * f - 1) * Pow(10, remaining) <= 2 * n <= (2 * f + 1) * Pow(10, remaining)
    && (remaining == 0 ==> n == f)
  }

  method ReadDiyFp(buffer: seq<char>) returns (input: DiyFp, remaining: nat)
    requires AllDigits(buffer) && buffer != [] && buffer[0] != '0'
    ensures remaining < |buffer| && input.e == 0 && 0 < input.f < 0x1_0000_0000_0000_0000
    ensures IsRead(DigitsVal(buffer), input.f, remaining)
    ensures remaining > 0 ==> 1_844_674_407_370_955_161 <= input.f
    ensures |buffer| - remaining <= 20 && (remaining > 0 ==> 20 <= |buffer|)
    ensures |buffer| <= 18 ==> 0 < input.f < Pow(10, |buffer|)
  {
    hide DigitsVal, Pow;
    var significand, count := ReadUint64(buffer);
    ReadLength(buffer, count, significand);
    Pow1(10);
    remaining := |buffer| - count;
    if count == |buffer| {
      assert buffer[..count] == buffer;
    } else {
      ReadRounded(buffer, count, significand);
      if buffer[count] >= '5' { significand := significand + 1; }
    }
    input := DiyFp(significand, 0);
  }

  /** At most twenty digits are read, and at least nineteen if more follow. */
  lemma ReadLength(buffer: seq<char>, count: nat, significand: int)
    requires AllDigits(buffer) && buffer != [] && buffer[0] != '0' && 1 <= count <= |buffer|
    requires significand == DigitsVal(buffer[..count]) && DigitsVal(buffer[..count - 1]) <= 1_844_674_407_370_955_160
    requires count < |buffer| ==> 1_844_674_407_370_955_161 <= significand
    ensures count <= 20 && (count < |buffer| ==> 19 <= count) && 0 < significand
    ensures |buffer| <= 18 ==> significand < Pow(10, |buffer|)
  {
    hide DigitsVal, Pow;
    if count > 1 { Positive(buffer[..count - 1]); }
    Positive(buffer[..count]);
    DigitsBound(buffer[..count]);
    PowMono(10, 0, count - 1);
    Pow1(10);
    TenTo19();
    PowSucc(10, 18);
    if count > 20 { PowMono(10, 19, count - 2); }
    if count < 19 { PowMono(10, count, 18); }
  }

  /** The next digit decides the rounding. */
  lemma ReadRounded(buffer: seq<char>, count: nat, significand: int)
    requires AllDigits(buffer) && count < |buffer| && significand == DigitsVal(buffer[..count])
    ensures IsRead(DigitsVal(buffer), significand + if buffer[count] >= '5' then 1 else 0, |buffer| - count)
  {
    hide DigitsVal, Pow;
    var c, rest := buffer[count], buffer[count + 1..];
    var r := |rest|;
    assert buffer == buffer[..count] + ([c] + rest);
    DigitsConcat(buffer[..count], [c] + rest);
    DigitsConcat([c], rest);
    OneDigit(c);
    DigitsBound(rest);
    PowSucc(10, r);
    RoundArith(significand, DigitOf(c), Pow(10, r), DigitsVal(rest), DigitsVal(buffer));
  }

  lemma RoundArith(f: int, digit: int, p: int, rest: int, n: int)
    requires 0 <= digit <= 9 && 0 <= rest < p && n == f * (10 * p) + (digit * p + rest)
    ensures var f' := f + if digit >= 5 then 1 else 0;
      (2 * f' - 1) * (10 * p) <= 2 * n <= (2 * f' + 1) * (10 * p)
  {
    if digit >= 5 { MulMono(5, digit, p); MulMono(digit, 9, p); } else { MulMono(0, digit, p); MulMono(digit, 4, p); }
    HalvesOfTen(f, p);
    HalvesOfTen(f + 1, p);
  }

  lemma HalvesOfTen(f: int, p: int)
    ensures (2 * f - 1) * (10 * p) == 2 * (f * (10 * p)) - 10 * p
    ensures (2 * f + 1) * (10 * p) == 2 * (f * (10 * p)) + 10 * p
    ensures f * (10 * p) == (f - 1) * (10 * p) + 10 * p
  {
  }

  /** The error of what was read, in eighths. */
  lemma ReadClose(n: int, f: int, remaining: nat)
    requires IsRead(n, f, remaining)
    ensures Close(Value(n, 0 - remaining), f, 0, if remaining == 0 then 0 else 4)
  {
    hide Power, Pow;
    PowerParts(10, 0 - remaining);
    TwoIs(0);
    Pow1(2);
    Pow1(10);
    var p := Pow(10, remaining);
    RealProduct(2 * f - 1, p);
    RealProduct(2 * f + 1, p);
    RatioClose(n, f, Power(10, 0 - remaining), p);
  }

  lemma RatioClose(n: int, f: int, x: real, p: int)
    requires 0 < p && IsRatio(x, p, 1) && (2 * f - 1) * p <= 2 * n <= (2 * f + 1) * p
    ensures (8 * f - 4) as real <= 8.0 * (n as real * x) <= (8 * f + 4) as real
    ensures p == 1 ==> n as real * x == n as real
  {
    RealProduct(2 * f - 1, p);
    RealProduct(2 * f + 1, p);
    RatioBetween(n as real, x, p as real, n as real * x, (2 * f - 1) as real, (2 * f + 1) as real);
  }

  lemma RatioBetween(n: real, x: real, q: real, y: real, low: real, high: real)
    requires 0.0 < q && x * q == 1.0 && y == n * x && low * q <= 2.0 * n <= high * q
    ensures low <= 2.0 * y <= high
  {
    RealAssoc(n, x, q);
    assert y * q == n;
    RealLess(low, 2.0 * y, q);
    RealLess(2.0 * y, high, q);
    RealAssoc(2.0, y, q);
  }

  // ---- Scaling by a power of ten

  /** AdjustmentPowerOfTen: powers below the distance of the table, exactly. */
  function AdjustmentPowerOfTen(exponent: int): DiyFp
    requires 0 < exponent < DECIMAL_EXPONENT_DISTANCE
  {
    if exponent == 1 then DiyFp(0xa000_0000_0000_0000, -60)
    else if exponent == 2 then DiyFp(0xc800_0000_0000_0000, -57)
    else if exponent == 3 then DiyFp(0xfa00_0000_0000_0000, -54)
    else if exponent == 4 then DiyFp(0x9c40_0000_0000_0000, -50)
    else if exponent == 5 then DiyFp(0xc350_0000_0000_0000, -47)
    else if exponent == 6 then DiyFp(0xf424_0000_0000_0000, -44)
    else DiyFp(0x9896_8000_0000_0000, -40)
  }

  lemma AdjustmentIsExact(exponent: int)
    requires 0 < exponent < DECIMAL_EXPONENT_DISTANCE
    ensures var a := AdjustmentPowerOfTen(exponent);
      && 0x8000_0000_0000_0000 <= a.f < 0x1_0000_0000_0000_0000 && a.e < 0
      && a.f == Pow(10, exponent) * Pow(2, -a.e) && Power(10, exponent) == a.f as real * Two(a.e)
  {
    hide Power, Pow;
    var a := AdjustmentPowerOfTen(exponent);
    AdjustmentPowers();
    PowerParts(2, a.e);
    PowerParts(10, exponent);
    Pow1(2);
    Pow1(10);
    ExactPower(Power(10, exponent), Two(a.e), Pow(10, exponent), Pow(2, -a.e), a.f);
  }

  lemma ExactPower(x: real, t: real, ten: int, two: int, f: int)
    requires IsRatio(x, 1, ten) && IsRatio(t, two, 1) && f == ten * two
    ensures x == f as real * t
  {
    RealProduct(ten, two);
    RealAssoc(ten as real, two as real, t);
  }

  lemma AdjustmentPowers()
    ensures Pow(10, 1) == 10 && Pow(10, 2) == 100 && Pow(10, 3) == 1000 && Pow(10, 4) == 10_000
    ensures Pow(10, 5) == 100_000 && Pow(10, 6) == 1_000_000 && Pow(10, 7) == 10_000_000
    ensures Pow(2, 40) == 0x100_0000_0000 && Pow(2, 44) == 0x1000_0000_0000 && Pow(2, 47) == 0x8000_0000_0000
    ensures Pow(2, 50) == 0x4_0000_0000_0000 && Pow(2, 54) == 0x40_0000_0000_0000
    ensures Pow(2, 57) == 0x200_0000_0000_0000 && Pow(2, 60) == 0x1000_0000_0000_0000
  {
    hide Pow;
    Pow1(10);
    PowAdd(10, 1, 1);
    PowAdd(10, 1, 2);
    PowAdd(10, 2, 2);
    PowAdd(10, 2, 3);
    PowAdd(10, 3, 3);
    PowAdd(10, 3, 4);
    Pow2Values();
    Pow1(2);
    PowSucc(2, 1);
    PowSucc(2, 2);
    PowAdd(2, 12, 28);
    PowAdd(2, 40, 4);
    PowAdd(2, 44, 3);
    PowAdd(2, 47, 3);
    PowAdd(2, 50, 4);
    PowAdd(2, 54, 3);
    PowAdd(2, 57, 3);
  }

  function RoundedProduct(f: int, g: int): int {
    (f * g + 0x8000_0000_0000_0000) / 0x1_0000_0000_0000_0000
  }

  lemma ProductIsRounded(f: int, g: int)
    ensures IsProduct(RoundedProduct(f, g), f, g)
  {
    RoundedIsProduct(RoundedProduct(f, g), f, g);
  }

  lemma ProductSize(f: int, g: int, low: int)
    requires 0 < low <= f < 0x1_0000_0000_0000_0000 && 0x8000_0000_0000_0000 <= g < 0x1_0000_0000_0000_0000
    ensures low / 2 <= RoundedProduct(f, g) < 0x1_0000_0000_0000_0000
  {
    var x := f * g + 0x8000_0000_0000_0000;
    MulMono(low, f, g);
    MulMono(0x8000_0000_0000_0000, g, low);
    MulMono(f, 0xffff_ffff_ffff_ffff, g);
    MulMono(g, 0xffff_ffff_ffff_ffff, 0xffff_ffff_ffff_ffff);
    DivMod(x, 0x1_0000_0000_0000_0000);
  }

  /** Up to 19 digits times a small power of ten: the product of the normalized numbers has no bits to round off. */
  lemma WholeProduct(digits: nat, length: nat, k: nat, exponent: int)
    requires 0 < exponent < DECIMAL_EXPONENT_DISTANCE && length + exponent <= 19 && 0 < digits < Pow(10, length)
    requires 0x8000_0000_0000_0000 <= digits * Pow(2, k)
    ensures var f, g := digits * Pow(2, k), AdjustmentPowerOfTen(exponent).f;
      f * g == RoundedProduct(f, g) * 0x1_0000_0000_0000_0000
  {
    hide Pow, AdjustmentPowerOfTen;
    AdjustmentIsExact(exponent);
    var a := AdjustmentPowerOfTen(exponent);
    var t, n := digits * Pow(10, exponent), k - a.e;
    PowAdd(2, k, -a.e);
    FourFactors(digits, Pow(2, k), Pow(10, exponent), Pow(2, -a.e));
    TopBits(digits * Pow(2, k), a.f);
    BelowWord(digits, length, exponent);
    EnoughZeros(t, n);
    var q := WholeQuotient(t, n, 5 * (digits * Pow(10, exponent - 1)));
    DivModUnique(q * 0x1_0000_0000_0000_0000 + 0x8000_0000_0000_0000, 0x1_0000_0000_0000_0000, q,
                 0x8000_0000_0000_0000);
  }

  lemma TopBits(f: int, g: int)
    requires 0x8000_0000_0000_0000 <= f && 0x8000_0000_0000_0000 <= g
    ensures 0x4000_0000_0000_0000_0000_0000_0000_0000 <= f * g
  {
    MulMono(0x8000_0000_0000_0000, f, g);
    MulMono(0x8000_0000_0000_0000, g, 0x8000_0000_0000_0000);
  }

  /** The decimal product is even and fits a word. */
  lemma BelowWord(digits: nat, length: nat, exponent: nat)
    requires 0 < exponent && length + exponent <= 19 && 0 < digits < Pow(10, length)
    ensures 0 < digits * Pow(10, exponent) < 0x1_0000_0000_0000_0000
    ensures digits * Pow(10, exponent) == 2 * (5 * (digits * Pow(10, exponent - 1)))
  {
    hide Pow;
    PowAdd(10, length, exponent);
    PowMono(10, length + exponent, 19);
    TenTo19();
    MulStrict(digits, Pow(10, length), Pow(10, exponent));
    MulStrict(0, digits, Pow(10, exponent));
    PowSucc(10, exponent - 1);
    MulAssoc(digits, 10, Pow(10, exponent - 1));
    MulAssoc(10, digits, Pow(10, exponent - 1));
  }

  lemma FourFactors(a: int, b: int, c: int, d: int)
    ensures (a * b) * (c * d) == (a * c) * (b * d)
  {
  }

  lemma EnoughZeros(t: int, n: nat)
    requires 0 < t < 0x1_0000_0000_0000_0000 && 0x4000_0000_0000_0000_0000_0000_0000_0000 <= t * Pow(2, n)
    ensures 63 <= n
  {
    hide Pow;
    if n < 63 {
      PowMono(2, n, 62);
      SixtyTwo();
      MulStrict(t, 0x1_0000_0000_0000_0000, Pow(2, n));
    }
  }

  lemma SixtyTwo()
    ensures Pow(2, 62) == 0x4000_0000_0000_0000 && Pow(2, 63) == 0x8000_0000_0000_0000
  {
    hide Pow;
    AdjustmentPowers();
    PowSucc(2, 60);
    PowSucc(2, 61);
    PowSucc(2, 62);
  }

  lemma WholeQuotient(t: int, n: nat, half: int) returns (q: int)
    requires 63 <= n && t == 2 * half
    ensures t * Pow(2, n) == q * 0x1_0000_0000_0000_0000
  {
    hide Pow;
    Pow2Values();
    SixtyTwo();
    if n == 63 {
      q := half;
    } else {
      PowAdd(2, n - 64, 64);
      q := t * Pow(2, n - 64);
      MulAssoc(t, Pow(2, n - 64), 0x1_0000_0000_0000_0000);
    }
  }

  /** The table entry as a bound on the real power of ten. */
  lemma CachedBounds(c: CachedPower)
    requires IsPower(c)
    ensures var w, t := Power(10, c.decimalExponent), Two(c.binaryExponent);
      (1024 * c.significand - 509) as real * t <= 1024.0 * w <= (1024 * c.significand + 509) as real * t
  {
    hide Power, Pow;
    var k, e := c.decimalExponent, c.binaryExponent;
    RatioParts(e, k);
    PowerParts(10, k);
    PowerParts(2, e);
    BoundedRatio(Power(10, k), Two(e), Pow(10, Max(-k, 0)), Pow(10, Max(k, 0)), Pow(2, Max(-e, 0)), Pow(2, Max(e, 0)),
                 1024 * c.significand - 509, 1024, true);
    BoundedRatio(Power(10, k), Two(e), Pow(10, Max(-k, 0)), Pow(10, Max(k, 0)), Pow(2, Max(-e, 0)), Pow(2, Max(e, 0)),
                 1024 * c.significand + 509, 1024, false);
  }

  lemma BoundedRatio(w: real, t: real, a: int, a': int, b: int, b': int, x: int, c: int, lower: bool)
    requires IsRatio(w, a, a') && IsRatio(t, b, b')
    requires if lower then x * (b' * a) <= c * (b * a') else c * (b * a') <= x * (b' * a)
    ensures if lower then x as real * t <= c as real * w else c as real * w <= x as real * t
  {
    var p, q := a as real, b as real;
    RealPositive(p, q);
    MulAssoc(x, b', a);
    MulAssoc(c, b, a');
    assert c * b * a' == c * a' * b by { MulAssoc(c, a', b); }
    RealTriple(x, b', a);
    RealTriple(c, a', b);
    Regrouped(x as real, t, q, p);
    Regrouped(c as real, w, p, q);
    assert p * q == q * p;
    RealLess(x as real * t, c as real * w, p * q);
    RealLess(c as real * w, x as real * t, p * q);
  }

  /** From the decimal read to the number: multiplication by 10^exponent, first by a small exact power if the table
      has no entry for the exponent, then by the entry below it. */
  method ScaleByTen(input: DiyFp, error0: nat, exponent: int, length: nat, ghost v: real, ghost digits: nat,
                    ghost k: nat)
    returns (r: DiyFp, error: nat)
    requires 0x8000_0000_0000_0000 <= input.f < 0x1_0000_0000_0000_0000 && Close(v, input.f, input.e, error0)
    requires -348 <= exponent < 348 && error0 <= 32
    requires length <= 18 ==> error0 == 0 && input.f == digits * Pow(2, k) && 0 < digits < Pow(10, length)
    ensures Closer(TimesTen(v, exponent), r.f, r.e, error) && error <= 45
    ensures 0x2000_0000_0000_0000 <= r.f < 0x1_0000_0000_0000_0000
    ensures exponent == -342 ==> r == DiyFp(RoundedProduct(RoundedProduct(input.f, 0xf424_0000_0000_0000),
                                                           0xfa8f_d5a0_081c_0288), input.e - 1136)
  {
    hide Close, Closer, TimesTen, Pow, IsPower, RoundedProduct;
    var power;
    r, error, power := ToEntry(input, error0, exponent, length, v, digits, k);
    TwoSteps(v, exponent - power.decimalExponent, power.decimalExponent);
    NormalizedEntry(power);
    CachedStep(TimesTen(v, exponent - power.decimalExponent), r, error, power);
    r := Multiply(r, DiyFp(power.significand, power.binaryExponent));
    var errorAb := if error == 0 then 0 else 1;
    error := error + DENOMINATOR / 2 + errorAb + DENOMINATOR / 2;
  }

  /** The entry of the table, and the number with the exponent that remains for it. */
  method ToEntry(input: DiyFp, error0: nat, exponent: int, length: nat, ghost v: real, ghost digits: nat, ghost k: nat)
    returns (r: DiyFp, error: nat, power: CachedPower)
    requires 0x8000_0000_0000_0000 <= input.f < 0x1_0000_0000_0000_0000 && Close(v, input.f, input.e, error0)
    requires -348 <= exponent < 348 && error0 <= 32
    requires length <= 18 ==> error0 == 0 && input.f == digits * Pow(2, k) && 0 < digits < Pow(10, length)
    ensures IsPower(power) && Close(TimesTen(v, exponent - power.decimalExponent), r.f, r.e, error) && error <= 36
    ensures 0x4000_0000_0000_0000 <= r.f < 0x1_0000_0000_0000_0000
    ensures exponent == -342 ==>
      power == CachedPower(0xfa8f_d5a0_081c_0288, -1220, -348) &&
      r == DiyFp(RoundedProduct(input.f, 0xf424_0000_0000_0000), input.e + 20)
  {
    hide Close, TimesTen, Pow, IsPower, RoundedProduct;
    r, error := input, error0;
    power := GetCachedPowerForDecimalExponent(exponent);
    var adjustment := exponent - power.decimalExponent;
    if adjustment != 0 {
      r, error := Adjust(input, error0, adjustment, length, v, digits, k);
    } else {
      NoAdjustment(v);
    }
  }

  lemma TwoSteps(v: real, m: int, n: int)
    ensures TimesTen(TimesTen(v, m), n) == TimesTen(v, m + n)
  {
    hide Power;
    PowerAdd(10, m, n);
    RealAssoc(v, Power(10, m), Power(10, n));
  }

  lemma NormalizedEntry(c: CachedPower)
    requires IsPower(c)
    ensures 0x8000_0000_0000_0000 <= c.significand
  {
  }

  ghost function TimesTen(v: real, k: int): real { v * Power(10, k) }

  lemma TimesTenIs(v: real, k: int)
    ensures TimesTen(v, k) == v * Power(10, k)
  {
  }

  lemma NoAdjustment(v: real)
    ensures TimesTen(v, 0) == v
  {
    Pow1(10);
  }

  method Adjust(input: DiyFp, error0: nat, adjustment: int, length: nat, ghost v: real, ghost digits: nat, ghost k: nat)
    returns (r: DiyFp, error: nat)
    requires 0x8000_0000_0000_0000 <= input.f < 0x1_0000_0000_0000_0000 && Close(v, input.f, input.e, error0)
    requires 0 < adjustment < DECIMAL_EXPONENT_DISTANCE && error0 <= 32
    requires length <= 18 ==> error0 == 0 && input.f == digits * Pow(2, k) && 0 < digits < Pow(10, length)
    ensures Close(TimesTen(v, adjustment), r.f, r.e, error) && error <= 36
    ensures 0x4000_0000_0000_0000 <= r.f < 0x1_0000_0000_0000_0000
    ensures r.f == RoundedProduct(input.f, AdjustmentPowerOfTen(adjustment).f)
    ensures r.e == input.e + AdjustmentPowerOfTen(adjustment).e + 64
  {
    hide Close, TimesTen, Pow, AdjustmentPowerOfTen, RoundedProduct;
    error := error0;
    var power := AdjustmentPowerOfTen(adjustment);
    AdjustmentIsExact(adjustment);
    r := Multiply(input, power);
    ProductSize(input.f, power.f, 0x8000_0000_0000_0000);
    if MAX_UINT64_DECIMAL_DIGITS - length >= adjustment {
      WholeStep(v, input, adjustment, length, digits, k);
    } else {
      ExactStep(v, input, error, adjustment);
      error := error + DENOMINATOR / 2;
    }
  }

  method Multiply(a: DiyFp, b: DiyFp) returns (r: DiyFp)
    requires a.f < 0x1_0000_0000_0000_0000 && b.f < 0x1_0000_0000_0000_0000
    ensures r.e == a.e + b.e + 64 && r.f == RoundedProduct(a.f, b.f)
  {
    r := Scaling.Times(a, b);
  }

  lemma WholeStep(v: real, input: DiyFp, adjustment: int, length: nat, digits: nat, k: nat)
    requires 0x8000_0000_0000_0000 <= input.f && Close(v, input.f, input.e, 0)
    requires 0 < adjustment < DECIMAL_EXPONENT_DISTANCE && length + adjustment <= 19
    requires input.f == digits * Pow(2, k) && 0 < digits < Pow(10, length)
    ensures var a := AdjustmentPowerOfTen(adjustment);
      Close(TimesTen(v, adjustment), RoundedProduct(input.f, a.f), input.e + a.e + 64, 0)
  {
    hide Close, TimesTen, Power, Pow, AdjustmentPowerOfTen, RoundedProduct;
    AdjustmentIsExact(adjustment);
    WholeProduct(digits, length, k, adjustment);
    var a := AdjustmentPowerOfTen(adjustment);
    TimesTenIs(v, adjustment);
    MultiplyWhole(v, input.f, input.e, Power(10, adjustment), a.f, a.e, RoundedProduct(input.f, a.f),
                  TimesTen(v, adjustment));
  }

  lemma ExactStep(v: real, input: DiyFp, error: nat, adjustment: int)
    requires 0x8000_0000_0000_0000 <= input.f && Close(v, input.f, input.e, error) && error <= 32
    requires 0 < adjustment < DECIMAL_EXPONENT_DISTANCE
    ensures var a := AdjustmentPowerOfTen(adjustment);
      Close(TimesTen(v, adjustment), RoundedProduct(input.f, a.f), input.e + a.e + 64, error + 4)
  {
    hide Close, TimesTen, Power, Pow, AdjustmentPowerOfTen, IsProduct, RoundedProduct;
    AdjustmentIsExact(adjustment);
    var a := AdjustmentPowerOfTen(adjustment);
    ProductIsRounded(input.f, a.f);
    TimesTenIs(v, adjustment);
    MultiplyExact(v, input.f, input.e, error, Power(10, adjustment), a.f, a.e, RoundedProduct(input.f, a.f),
                  TimesTen(v, adjustment));
  }

  lemma CachedStep(v: real, input: DiyFp, error: nat, c: CachedPower)
    requires 0x4000_0000_0000_0000 <= input.f < 0x1_0000_0000_0000_0000 && Close(v, input.f, input.e, error)
    requires error <= 36 && IsPower(c)
    ensures 0x2000_0000_0000_0000 <= RoundedProduct(input.f, c.significand) < 0x1_0000_0000_0000_0000
    ensures Closer(TimesTen(v, c.decimalExponent), RoundedProduct(input.f, c.significand),
                   input.e + c.binaryExponent + 64, error + 8 + if error == 0 then 0 else 1)
  {
    hide Close, Closer, TimesTen, Power, Pow, IsPower, IsProduct, Two, RoundedProduct;
    CachedBounds(c);
    NormalizedEntry(c);
    ProductSize(input.f, c.significand, 0x4000_0000_0000_0000);
    ProductIsRounded(input.f, c.significand);
    TimesTenIs(v, c.decimalExponent);
    MultiplyCached(v, input.f, input.e, error, Power(10, c.decimalExponent), c.significand, c.binaryExponent,
                   RoundedProduct(input.f, c.significand), TimesTen(v, c.decimalExponent));
  }

  // ---- Numbers next to half of the smallest double

  /** Just above 2^-1075 the leading 19 digits are known. */
  lemma Window(v: real)
    requires Two(-1075) < v && Under(8.0 * v, 0x8_0000_0000_0000_00ac, -1139)
    ensures 2470328229206232720.5 < TimesTen(v, 342) < 2470328229206232727.0
  {
    hide Power, TimesTen;
    var x, y, vx, yx := Power(10, 342), Two(-1075), TimesTen(v, 342), TimesTen(Two(-1075), 342);
    HalfTimesTen();
    TimesTenIs(v, 342);
    TimesTenIs(y, 342);
    WindowBelow(v, y, x, vx, yx);
    SmallUnits();
    WindowAbove(v, y, Two(-1139), x, vx, yx);
  }

  lemma SmallUnits()
    ensures Two(-1075) == Two(-1139) * 18446744073709551616.0
  {
    hide Power;
    PowerAdd(2, -1139, 64);
    WordIsPower();
  }

  lemma HalfTimesTen()
    ensures 0.0 < Power(10, 342)
    ensures 25296161067071823061.0 * 50.0 <= 512.0 * TimesTen(Two(-1075), 342) <= 25296161067071823063.0 * 50.0
  {
    hide Power, Pow;
    PowerParts(10, 342);
    PowerParts(2, -1075);
    Pow1(2);
    Pow1(10);
    WindowPowers();
    assert Power(10, 342) == Pow(10, 342) as real;
    WindowProduct(Two(-1075), Pow(10, 342), Pow(2, 1075), TimesTen(Two(-1075), 342));
  }

  /** 10^342 against 2^1075, by the table entry for 10^340. */
  lemma WindowPowers()
    ensures 25_296_161_067_071_823_061 * 50 * Pow(2, 1075) <= 512 * Pow(10, 342)
    ensures 512 * Pow(10, 342) <= 25_296_161_067_071_823_063 * 50 * Pow(2, 1075)
  {
    hide Pow;
    var c := CachedPower(0xaf87_023b_9bf0_ee6b, 1066, 340);
    HighPowers();
    PowerEstimate.FromTable();
    PowerEstimate.EntryBounds(c);
    AdjustmentPowers();
    PowAdd(10, 340, 2);
    PowAdd(2, 1066, 9);
    Pow2Values();
    PowSucc(2, 8);
  }

  lemma WindowProduct(y: real, ten: int, two: int, product: real)
    requires 0 < two && IsRatio(y, two, 1) && product == y * ten as real
    requires 25_296_161_067_071_823_061 * 50 * two <= 512 * ten <= 25_296_161_067_071_823_063 * 50 * two
    ensures 25296161067071823061.0 * 50.0 <= 512.0 * product <= 25296161067071823063.0 * 50.0
  {
    var t := two as real;
    assert product * t == ten as real by { RealAssoc(y, ten as real, t); RealAssoc(ten as real, y, t); }
    RealLess(25296161067071823061.0 * 50.0, 512.0 * product, t);
    RealLess(512.0 * product, 25296161067071823063.0 * 50.0, t);
  }

  lemma WindowBelow(v: real, y: real, x: real, vx: real, yx: real)
    requires 0.0 < x && y < v && vx == v * x && yx == y * x
    ensures yx < vx
  {
    RealLess(y, v, x);
  }

  /** v is less than y and 172 / 2^67 of it. */
  lemma WindowAbove(v: real, y: real, t: real, x: real, vx: real, yx: real)
    requires 0.0 < x && y == t * 18446744073709551616.0 && 8.0 * v < 147573952589676413100.0 * t
    requires vx == v * x && yx == y * x
    ensures 147573952589676412928.0 * vx < 147573952589676413100.0 * yx
  {
    var a, b := 147573952589676412928.0, 147573952589676413100.0;
    assert a * v < b * y;
    RealAssoc(a, v, x);
    RealAssoc(b, y, x);
    WindowBelow(b * y, a * v, x, b * y * x, a * v * x);
  }

  lemma TenOrMore(m: int)
    ensures 0.0 < Power(10, m) && (m >= 1 ==> Power(10, m) >= 10.0) && (m <= -1 ==> Power(10, m) * 10.0 <= 1.0)
  {
    hide Power, Pow;
    PowerParts(10, m);
    Pow1(10);
    if m >= 1 { PowMono(10, 1, m); }
    if m <= -1 {
      PowMono(10, 1, -m);
      RealMono(10.0, Pow(10, -m) as real, Power(10, m));
    }
  }

  /** The first 19 digits of a number just above half of the smallest double. */
  lemma WindowDigits(n: int, exponent: int, f: int, remaining: nat)
    requires IsRead(n, f, remaining) && 0 <= n && 0 < f < 0x1_0000_0000_0000_0000
    requires remaining > 0 ==> 1_844_674_407_370_955_161 <= f
    requires 2470328229206232720.5 < TimesTen(Value(n, exponent), 342) < 2470328229206232727.0
    ensures exponent + remaining == -342 && 2_470_328_229_206_232_721 <= f <= 2_470_328_229_206_232_727
  {
    hide Power, Pow, TimesTen, Value, Close;
    var m := exponent + remaining + 342;
    var a := Value(n, 0 - remaining);
    ReadClose(n, f, remaining);
    CloseToRead(a, f, if remaining == 0 then 0 else 4);
    SplitExponent(n, exponent, remaining, m);
    TimesTenIs(a, m);
    TenOrMore(m);
    var w := TimesTen(a, m);
    if m >= 1 {
      LargePart(a, Power(10, m), w);
      if remaining == 0 { NoSuchMultiple(n, m, w); }
    } else if m <= -1 {
      SmallPart(a, Power(10, m), w);
    } else {
      NoAdjustment(a);
    }
  }

  lemma CloseToRead(a: real, f: int, error: int)
    requires Close(a, f, 0, error)
    ensures (8 * f - error) as real <= 8.0 * a <= (8 * f + error) as real
  {
    TwoIs(0);
    Pow1(2);
  }

  lemma SplitExponent(n: int, exponent: int, remaining: nat, m: int)
    requires m == exponent + remaining + 342
    ensures TimesTen(Value(n, exponent), 342) == TimesTen(Value(n, 0 - remaining), m)
    ensures Value(n, exponent) == TimesTen(Value(n, 0 - remaining), exponent + remaining)
  {
    hide Power;
    TwoSteps(n as real, exponent, 342);
    TwoSteps(n as real, 0 - remaining, m);
    TwoSteps(n as real, 0 - remaining, exponent + remaining);
  }

  lemma SmallPart(a: real, x: real, w: real)
    requires w == a * x && x * 10.0 <= 1.0 && 0.0 <= a
    ensures 10.0 * w <= a
  {
    RealMono(x * 10.0, 1.0, a);
    RealAssoc(a, x, 10.0);
  }

  lemma LargePart(a: real, x: real, w: real)
    requires w == a * x && 10.0 <= x && 0.0 <= a
    ensures 10.0 * a <= w
  {
    RealMono(10.0, x, a);
  }

  lemma NoSuchMultiple(n: int, m: int, w: real)
    requires 1 <= m && w == TimesTen(Value(n, 0), m)
    ensures !(2470328229206232720.5 < w < 2470328229206232727.0)
  {
    hide Pow;
    Pow1(10);
    PowSucc(10, m - 1);
    RealProduct(n, Pow(10, m));
    MulAssoc(n, 10, Pow(10, m - 1));
    assert w == (n * Pow(10, m)) as real;
    MultipleOfTen(n * Pow(10, m - 1), n * Pow(10, m));
  }

  lemma MultipleOfTen(q: int, x: int)
    requires x == 10 * q
    ensures x <= 2_470_328_229_206_232_720 || 2_470_328_229_206_232_730 <= x
  {
  }

  lemma ProductMono(f: int, f': int, g: int)
    requires f <= f' && 0 <= g
    ensures RoundedProduct(f, g) <= RoundedProduct(f', g)
  {
    MulMono(f, f', g);
    DivMono(f * g + 0x8000_0000_0000_0000, f' * g + 0x8000_0000_0000_0000, 0x1_0000_0000_0000_0000);
  }

  /** Times 10^-342 in two steps they come out just large enough to need no shift. */
  lemma WindowProducts(f: int)
    requires 4 * 2_470_328_229_206_232_721 <= f
    ensures 0x8000_0000_0000_0000 <=
      RoundedProduct(RoundedProduct(f, 0xf424_0000_0000_0000), 0xfa8f_d5a0_081c_0288)
  {
    var a, b := 0xf424_0000_0000_0000, 0xfa8f_d5a0_081c_0288;
    ProductMono(4 * 2_470_328_229_206_232_721, f, a);
    ProductMono(RoundedProduct(4 * 2_470_328_229_206_232_721, a), RoundedProduct(f, a), b);
    FirstProduct();
  }

  lemma FirstProduct()
    ensures 0x8000_0000_0000_0000 <= RoundedProduct(
      RoundedProduct(4 * 2_470_328_229_206_232_721, 0xf424_0000_0000_0000), 0xfa8f_d5a0_081c_0288)
  {
  }

  lemma ShiftByTwo(f: int, k: nat)
    requires 2_470_328_229_206_232_721 <= f <= 2_470_328_229_206_232_727
    requires 0x8000_0000_0000_0000 <= f * Pow(2, k) < 0x1_0000_0000_0000_0000
    ensures k == 2 && Pow(2, k) == 4
  {
    hide Pow;
    Pow1(2);
    PowSucc(2, 1);
    PowSucc(2, 2);
    if k < 2 { PowMono(2, k, 1); MulMono(Pow(2, k), 2, f); }
    if k > 2 { PowMono(2, 3, k); MulMono(8, Pow(2, k), f); }
  }

  /** Where the bits of the significand end below the smallest double, the number is not above half of it: the error
      alone would not exclude that, but the digits of the only such numbers are known, and their products. */
  lemma NotJustAbove(n: int, exponent: int, read: int, remaining: nat, input: DiyFp, r: DiyFp,
                       result: DiyFp, error: nat)
    requires IsRead(n, read, remaining) && 0 <= n && 0 < read < 0x1_0000_0000_0000_0000
    requires remaining > 0 ==> 1_844_674_407_370_955_161 <= read
    requires Scaling.Normalizes(input, read, 0) && Scaling.Normalizes(result, r.f, r.e)
    requires exponent + remaining == -342 ==> r == DiyFp(RoundedProduct(
      RoundedProduct(input.f, 0xf424_0000_0000_0000), 0xfa8f_d5a0_081c_0288), input.e - 1136)
    requires Closer(Value(n, exponent), result.f, result.e, error) && error <= 180 && 64 + result.e == -1075
    ensures Value(n, exponent) <= Two(-1075)
  {
    hide Two, Value, Pow, IsRead, RoundedProduct, Under, Over, Closer;
    if Value(n, exponent) > Two(-1075) {
      CloserIs(Value(n, exponent), result.f, result.e, error);
      UnderMore(8.0 * Value(n, exponent), 8 * result.f + error, 0x8_0000_0000_0000_00ac, -1139);
      Window(Value(n, exponent));
      WindowDigits(n, exponent, read, remaining);
      ShiftByTwo(read, 0 - input.e);
      WindowProducts(input.f);
      NoShift(r.f, r.e - result.e);
      assert false;
    }
  }

  lemma UnderMore(v: real, x: int, y: int, e: int)
    requires Under(v, x, e) && x <= y
    ensures Under(v, y, e)
  {
    hide Two;
    TwoMono(x, y, e);
  }

  lemma NoShift(f: int, k: nat)
    requires 0x8000_0000_0000_0000 <= f && f * Pow(2, k) < 0x1_0000_0000_0000_0000
    ensures k == 0
  {
    hide Pow;
    Pow1(2);
    if k > 0 { PowMono(2, 1, k); MulMono(2, Pow(2, k), f); }
  }

  // ---- The whole conversion

  /** The decimal as a double, and whether that is certain: if not, it is the double or the one below. */
  method DiyFpStrtod(buffer: seq<char>, exponent0: int) returns (exact: bool, guess: nat)
    requires AllDigits(buffer) && buffer != [] && buffer[0] != '0' && exponent0 + |buffer| <= 340
    ensures Approximates(DigitsVal(buffer), exponent0, exact, guess)
  {
    hide DigitsVal, Value, Approximates, Close, Pow, IsRead;
    var input, remaining := ReadDiyFp(buffer);
    var exponent := exponent0 + remaining;
    var error := if remaining == 0 then 0 else DENOMINATOR / 2;
    ghost var read := input.f;
    input, error := NormalizeRead(buffer, input, remaining, error);
    DigitsBound(buffer);
    if exponent < -348 {
      TinyReadsAsZero(DigitsVal(buffer), exponent0, |buffer|);
      ZeroIsRight(DigitsVal(buffer), exponent0);
      return true, 0;
    }
    exact, guess := ScaleAndRound(input, error, exponent, |buffer|, DigitsVal(buffer), read, remaining);
  }

  method ScaleAndRound(input: DiyFp, error0: nat, exponent: int, length: nat, ghost n: int, ghost read: nat,
                       ghost remaining: nat)
    returns (exact: bool, guess: nat)
    requires -348 <= exponent < 348 && 0 <= n && 0 < read < 0x1_0000_0000_0000_0000 && IsRead(n, read, remaining)
    requires remaining > 0 ==> 1_844_674_407_370_955_161 <= read
    requires Scaling.Normalizes(input, read, 0) && error0 <= 32
    requires Close(Value(n, 0 - remaining), input.f, input.e, error0)
    requires length <= 18 ==> error0 == 0 && 0 < read < Pow(10, length)
    ensures Approximates(n, exponent - remaining, exact, guess)
  {
    hide Value, Approximates, Close, Closer, Pow, Two, IsRead, TimesTen, RoundedProduct;
    var r, error := ScaleByTen(input, error0, exponent, length, Value(n, 0 - remaining), read, 0 - input.e);
    SplitExponent(n, exponent - remaining, remaining, exponent + 342);
    var result;
    result, error := NormalizeAgain(r, error, Value(n, exponent - remaining));
    if 64 + result.e == -1075 { NotJustAbove(n, exponent - remaining, read, remaining, input, r, result, error); }
    exact, guess := RoundInput(result.f, result.e, error, n, exponent - remaining);
  }

  lemma ZeroIsRight(n: int, exponent: int)
    requires ReadsAs(n, exponent, 0)
    ensures Approximates(n, exponent, true, 0)
  {
  }

  method NormalizeRead(ghost buffer: seq<char>, input0: DiyFp, remaining: nat, error0: nat)
    returns (input: DiyFp, error: nat)
    requires input0.e == 0 && 0 < input0.f < 0x1_0000_0000_0000_0000
    requires IsRead(DigitsVal(buffer), input0.f, remaining) && error0 == (if remaining == 0 then 0 else 4)
    requires remaining > 0 ==> 1_844_674_407_370_955_161 <= input0.f
    ensures Scaling.Normalizes(input, input0.f, 0) && error <= 32 && (remaining == 0 ==> error == 0)
    ensures Close(Value(DigitsVal(buffer), 0 - remaining), input.f, input.e, error)
  {
    hide DigitsVal, Value, Close, Pow, IsRead;
    ReadClose(DigitsVal(buffer), input0.f, remaining);
    input := Scaling.Normalize(input0);
    Shifted(Value(DigitsVal(buffer), 0 - remaining), input0.f, 0, error0, 0 - input.e);
    Pow2Values();
    if remaining > 0 { SmallShift(input0.f, 0 - input.e, 1_844_674_407_370_955_161, 3); }
    error := error0 * Pow(2, 0 - input.e);
    ShiftedError(error0, 0 - input.e, 3, 4);
  }

  lemma ShiftedError(error: nat, k: nat, most: nat, bound: nat)
    requires error <= bound && (error > 0 ==> k <= most)
    ensures 0 <= error * Pow(2, k) <= bound * Pow(2, most)
    ensures Pow(2, 2) == 4 && Pow(2, 3) == 8
  {
    hide Pow;
    Pow1(2);
    PowSucc(2, 1);
    PowSucc(2, 2);
    MulMono(0, bound, Pow(2, most));
    if error > 0 {
      PowMono(2, k, most);
      MulMono(Pow(2, k), Pow(2, most), error);
      MulMono(error, bound, Pow(2, most));
      MulMono(0, error, Pow(2, k));
    }
  }

  lemma SmallShift(f: int, k: nat, low: int, most: nat)
    requires f * Pow(2, k) < 0x1_0000_0000_0000_0000 && 0 < low <= f
    requires 0x1_0000_0000_0000_0000 <= low * Pow(2, most + 1)
    ensures k <= most
  {
    hide Pow;
    if k > most {
      PowMono(2, most + 1, k);
      MulMono(Pow(2, most + 1), Pow(2, k), low);
      MulMono(low, f, Pow(2, k));
    }
  }

  method NormalizeAgain(r: DiyFp, error0: nat, ghost v: real) returns (result: DiyFp, error: nat)
    requires 0x2000_0000_0000_0000 <= r.f < 0x1_0000_0000_0000_0000 && Closer(v, r.f, r.e, error0) && error0 <= 45
    ensures Scaling.Normalizes(result, r.f, r.e) && error <= 180 && Closer(v, result.f, result.e, error)
  {
    hide Closer, Pow;
    result := Scaling.Normalize(r);
    Shifted(v, r.f, r.e, error0, r.e - result.e);
    ShiftedError(error0, 0, 3, 45);
    SmallShift(r.f, r.e - result.e, 0x2000_0000_0000_0000, 2);
    error := error0 * Pow(2, r.e - result.e);
    ShiftedError(error0, r.e - result.e, 2, 45);
  }
}
