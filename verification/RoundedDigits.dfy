/** What rounding to places and to significant digits keeps: the size of the number, and from 17 digits on the
    double. */
module RoundedDigits {
  import opened Arith
  import opened CachedPowers
  import opened CountedDtoa
  import opened Decimal
  import opened Ieee
  import opened ShortestSpec
  import opened StartValues
  import opened StrtodSpec
  import ExactDtoa
  import FastFixed
  import PowerEstimate
  import RoundTrip

  /** The bits of the double nearest to 10^60. */
  const FIRST_NON_FIXED: nat := 0x4c63_e9e4_e4c2_f344

  // ---- Doubles below 10^60

  ghost predicate BelowSixty(f: nat, e: int) {
    Num(f, e, 0) <= (Pow(10, 60) - 1) * Den(e, 0)
  }

  lemma FirstNonFixedBound()
    ensures 0x13_e9e4_e4c2_f344 * Pow(2, 147) <= Pow(10, 60) - 1
  {
    hide Pow;
    var c := CachedPower(0x9f4f_2726_179a_2245, 136, 60);
    Upward();
    EntrySixty();
    PowerEstimate.EntryBounds(c);
    PowAdd(2, 136, 11);
    Pow2Values();
    PowSucc(2, 8);
    PowSucc(2, 9);
    PowSucc(2, 10);
    PowMono(2, 1, 136);
    Pow1(2);
    TopBits(Pow(2, 136), Pow(10, 60));
  }

  lemma TopBits(s: int, ten: int)
    requires 2 <= s && (2 * 0x9f4f_2726_179a_2245 - 1) * s <= 2 * ten
    ensures 0x13_e9e4_e4c2_f344 * (s * 0x800) <= ten - 1
  {
  }

  lemma EntrySixty()
    ensures |CACHED_POWERS| == 87 && CACHED_POWERS[51] == CachedPower(0x9f4f_2726_179a_2245, 136, 60)
  {
  }

  lemma FixedIsBelowSixty(d: nat)
    requires 0 < d < FIRST_NON_FIXED
    ensures BelowSixty(Significand(d), Exponent(d))
  {
    hide Pow, Num, Den;
    SignificandBounds(d);
    var f, e := Significand(d), Exponent(d);
    FirstNonFixedFields(d);
    FirstNonFixedBound();
    RatioMoves(e, 0, 147 - e, 0);
    Pow1(2);
    Pow1(10);
    RatioParts(147, 0);
    ExactDtoa.NumGrows(f, e, 0);
    if e < 147 { PowMono(2, 1, 147 - e); }
    BelowArith(f, Num(1, e, 0), Den(e, 0), Pow(2, 147 - e), Pow(2, 147), Pow(10, 60) - 1);
  }

  lemma FirstNonFixedFields(d: nat)
    requires 0 < d < FIRST_NON_FIXED
    ensures Exponent(d) <= 147 && (Exponent(d) == 147 ==> Significand(d) < 0x13_e9e4_e4c2_f344)
  {
    DivMod(d, 0x10_0000_0000_0000);
  }

  lemma BelowArith(f: nat, u: int, d: int, s: int, big: int, t: int)
    requires 0 < u && 0 < d && 0 < s && u * s == d * big
    requires 0x13_e9e4_e4c2_f344 * big <= t && f < 0x20_0000_0000_0000
    requires (s == 1 && f < 0x13_e9e4_e4c2_f344) || 2 <= s
    ensures f * u <= t * d
  {
    assert f <= 0x13_e9e4_e4c2_f344 * s;
    MulMono(f, 0x13_e9e4_e4c2_f344 * s, u);
    assert (0x13_e9e4_e4c2_f344 * s) * u == (0x13_e9e4_e4c2_f344 * big) * d;
    MulMono(0x13_e9e4_e4c2_f344 * big, t, d);
  }

  /** The leading digit of such a double is among the sixty before the point. */
  lemma LeadingBelowSixty(f: nat, e: int, point: int)
    requires BelowSixty(f, e) && ExactDtoa.LeadingAt(f, e, point)
    ensures point <= 60
  {
    hide Num, Den, Pow;
    if point > 60 {
      var p := point - 1;
      ExactDtoa.ChangePower(f, e, 0, p);
      PowMono(10, 60, p);
      TooHigh(Num(f, e, 0), Den(e, 0), Num(f, e, p), Den(e, p), Pow(10, p), Pow(10, 60));
    }
  }

  lemma TooHigh(n: int, d: int, n': int, d': int, power: int, ten: int)
    requires 0 < d && 0 < d' && d' <= n' && 0 < ten <= power && n * d' == power * (n' * d)
    ensures ten * d <= n
  {
    MulMono(d', n', d);
    MulMono(d' * d, n' * d, power);
    assert power * (d' * d) == (power * d) * d';
    MulCancel(power * d, n, d');
    MulMono(ten, power, d);
  }

  /** Rounded to any number of places, it still has at most sixty digits before the point. */
  lemma RoundedBelowSixty(f: nat, e: int, places: nat)
    requires BelowSixty(f, e)
    ensures ExactDtoa.RoundV(f, e, places) < Pow(10, 60 + places)
  {
    hide Num, Den, Pow;
    ExactDtoa.ChangePower(f, e, 0 - places, places);
    PowAdd(10, 60, places);
    PowMono(10, 0, places);
    Pow1(10);
    RoundedArith(Num(f, e, 0), Den(e, 0), Num(f, e, 0 - places), Den(e, 0 - places), Pow(10, places), Pow(10, 60));
  }

  lemma RoundedArith(n: int, d: int, n': int, d': int, s: int, ten: int)
    requires 0 < d && 0 < d' && 1 <= s && n <= (ten - 1) * d && n' * d == s * (n * d')
    ensures RoundHalfUp(n', d') < ten * s
  {
    MulMono(n, (ten - 1) * d, d');
    MulMono(n * d', (ten - 1) * d * d', s);
    assert s * ((ten - 1) * d * d') == ((ten - 1) * s * d') * d;
    MulCancel((ten - 1) * s * d', n', d);
    assert (ten - 1) * s * d' == ten * s * d' - s * d';
    MulMono(1, s, d');
    RoundsBelow(n', d', ten * s);
  }

  lemma RoundsBelow(n: int, d: int, q: int)
    requires 0 < d && n <= q * d - d
    ensures RoundHalfUp(n, d) < q
  {
    var r := RoundHalfUp(n, d);
    DivMod(2 * n + d, 2 * d);
    assert q * (2 * d) == 2 * (q * d);
    if q <= r { MulMono(q, r, 2 * d); }
  }

  /** Digits that denote such a number have the point behind at most sixty of them. */
  lemma FixedPoint(f: nat, e: int, places: nat, digits: seq<char>, decimalPoint: int)
    requires BelowSixty(f, e) && digits != [] && digits[0] != '0'
    requires FastFixed.Denotes(digits, decimalPoint, places, ExactDtoa.RoundV(f, e, places))
    ensures decimalPoint <= 60
  {
    hide Num, Den, Pow, ExactDtoa.RoundV;
    RoundedBelowSixty(f, e, places);
    Positive(digits);
    var zeros := decimalPoint - |digits| + places;
    PowAdd(10, |digits| - 1, zeros);
    MulMono(Pow(10, |digits| - 1), DigitsVal(digits), Pow(10, zeros));
    if decimalPoint > 60 { PowMono(10, 60 + places, decimalPoint - 1 + places); }
  }

  // ---- Seventeen digits

  /** From 17 significant digits on, a double is identified by them. */
  lemma SeventeenReadBack(d: nat, digits: seq<char>, decimalPoint: int, point: int)
    requires IsFinite(d) && 0 < d && 17 <= |digits|
    requires ExactDtoa.PrecisionAt(Significand(d), Exponent(d), digits, decimalPoint, point)
    ensures forall c: nat :: IsDouble(c) ==> (ReadsAs(DigitsVal(digits), decimalPoint - |digits|, c) <==> c == d)
  {
    hide ReadsAs, DigitsVal, Pow, ExactDtoa.RoundV, RoundTrip.IntervalOf, Interval.Fits, LowerBoundaryIsCloser;
    SignificandBounds(d);
    var j := |digits| - 1;
    var m := DigitsVal(digits) * Pow(10, decimalPoint - point);
    NearestFits(d, point - 1, m, j);
    RoundTrip.FitsIffReadsAs(d, point - 1, m, j);
    SameNumber(DigitsVal(digits), point - 1 - j, decimalPoint - point, d);
    forall c: nat | IsDouble(c) ensures ReadsAs(DigitsVal(digits), decimalPoint - |digits|, c) <==> c == d {
      if c != d { OneDouble(DigitsVal(digits), decimalPoint - |digits|, c, d); }
    }
  }

  /** The decimal of j + 1 digits nearest to v lies inside the interval of v. */
  lemma NearestFits(d: nat, t: int, m: int, j: nat)
    requires IsFinite(d) && 0 < d && 16 <= j && m == ExactDtoa.RoundV(Significand(d), Exponent(d), j - t)
    requires Den(Exponent(d), t) <= Num(Significand(d), Exponent(d), t)
    ensures RoundTrip.IntervalOf(d, t).Fits(m, j)
  {
    hide Num, Den, Pow, RoundHalfUp, LowerBoundaryIsCloser;
    SignificandBounds(d);
    var f, e := Significand(d), Exponent(d);
    ExactDtoa.RoundScaledIsRoundV(f, e, t, j, 1);
    ExactDtoa.NumGrows(f, e, t);
    ExactDtoa.TenTo16();
    PowMono(10, 16, j);
    var iv := RoundTrip.IntervalOf(d, t);
    RoundedIsClose(Num(f, e, t), Den(e, t), Pow(10, j), m);
    CloseFits(f, Num(1, e, t), Den(e, t), Pow(10, j), m, if LowerBoundaryIsCloser(d) then 1 else 2);
  }

  lemma RoundedIsClose(n: int, d: int, x: int, m: int)
    requires 0 < d && m == RoundHalfUp(n * x, d)
    ensures -d <= 2 * (m * d - n * x) <= d
  {
    DivMod(2 * (n * x) + d, 2 * d);
    MulAssoc(2, m, d);
    assert m * (2 * d) == 2 * (m * d);
  }

  /** Half a unit of the last digit is less than the distance to the nearer boundary. */
  lemma CloseFits(f: nat, u: int, d: int, x: int, m: int, minus: int)
    requires 0 < u && 0 < d <= f * u && 10_000_000_000_000_000 <= x
    requires f < 0x20_0000_0000_0000 && (minus == 2 || (minus == 1 && f <= 0x10_0000_0000_0000))
    requires -d <= 2 * (m * d - (f * u) * x) <= d
    ensures (4 * (f * u)) * x - (minus * u) * x < m * (4 * d) < (4 * (f * u)) * x + (2 * u) * x
  {
    Slack(f, u, d, x, minus);
    MulAssoc(minus, u, x);
    MulAssoc(2, u, x);
    MulAssoc(4, m, d);
    MulAssoc(4, f * u, x);
    assert m * (4 * d) == 4 * (m * d);
  }

  lemma Slack(f: nat, u: int, d: int, x: int, minus: int)
    requires 0 < u && 0 < d <= f * u && 10_000_000_000_000_000 <= x
    requires f < 0x20_0000_0000_0000 && (minus == 2 || (minus == 1 && f <= 0x10_0000_0000_0000))
    ensures 2 * d < minus * (u * x) <= 2 * (u * x)
  {
    MulStrict(2 * f, minus * x, u);
    MulAssoc(2, f, u);
    MulAssoc(minus, x, u);
    MulMono(0, x, u);
  }

  /** The number rounded to as many significant digits as there are. */
  ghost predicate IsRounded(d: nat, digits: seq<char>, decimalPoint: int) {
    if d == 0 then DigitsVal(digits) == 0 && AllDigits(digits) && decimalPoint == 1
    else exists point :: ExactDtoa.PrecisionAt(Significand(d), Exponent(d), digits, decimalPoint, point)
  }

  lemma RoundedReads(d: nat, digits: seq<char>, decimalPoint: int)
    requires IsFinite(d) && 17 <= |digits| && IsRounded(d, digits, decimalPoint)
    ensures forall c: nat :: IsDouble(c) ==> (ReadsAs(DigitsVal(digits), decimalPoint - |digits|, c) <==> c == d)
  {
    hide ReadsAs, DigitsVal, ExactDtoa.PrecisionAt;
    if d == 0 {
      ZeroReadsAsZero(decimalPoint - |digits|);
      forall c: nat | IsDouble(c) ensures ReadsAs(DigitsVal(digits), decimalPoint - |digits|, c) <==> c == d {
        if c != d { OneDouble(0, decimalPoint - |digits|, c, d); }
      }
    } else {
      var point :| ExactDtoa.PrecisionAt(Significand(d), Exponent(d), digits, decimalPoint, point);
      SeventeenReadBack(d, digits, decimalPoint, point);
    }
  }

  // ---- The range of the decimal point

  lemma RoundedInRange(d: nat, digits: seq<char>, decimalPoint: int)
    requires IsFinite(d) && IsRounded(d, digits, decimalPoint)
    ensures -324 <= decimalPoint <= 311
  {
    if d != 0 {
      var point :| ExactDtoa.PrecisionAt(Significand(d), Exponent(d), digits, decimalPoint, point);
      SignificandBounds(d);
      PointInRange(Significand(d), Exponent(d), point);
    }
  }

  lemma PointInRange(f: nat, e: int, point: int)
    requires 0 < f < 0x20_0000_0000_0000 && DENORMAL_EXPONENT <= e <= 971 && ExactDtoa.LeadingAt(f, e, point)
    ensures -324 <= point <= 310
  {
    hide Pow, Num, Den;
    var p := point - 1;
    RatioParts(e, p);
    ExactDtoa.NumGrows(f, e, p);
    Pow1(2);
    Pow1(10);
    if p >= 310 {
      NotSoLarge(f, e, p);
    } else if p <= -326 {
      NotSoSmall(f, e, -p);
    }
  }

  lemma NotSoLarge(f: nat, e: int, p: nat)
    requires 0 < f < 0x20_0000_0000_0000 && e <= 971 && 310 <= p
    ensures f * Pow(2, Max(e, 0)) < Pow(2, Max(-e, 0)) * Pow(10, p)
  {
    hide Pow;
    PowerEstimate.TwoTo52();
    PowMono(2, Max(e, 0), 971);
    PowAdd(2, 53, 971);
    PowerEstimate.TwoAtMostTen(1024, 309);
    PowStrict(10, 309, p);
    MulMono(f, Pow(2, 53), Pow(2, Max(e, 0)));
    MulMono(Pow(2, Max(e, 0)), Pow(2, 971), Pow(2, 53));
    MulMono(1, Pow(2, Max(-e, 0)), Pow(10, p));
  }

  lemma NotSoSmall(f: nat, e: int, p: nat)
    requires 0 < f && DENORMAL_EXPONENT <= e && 326 <= p
    ensures 10 * Pow(2, Max(-e, 0)) <= f * (Pow(2, Max(e, 0)) * Pow(10, p))
  {
    hide Pow;
    PowMono(2, Max(-e, 0), 1074);
    PowerEstimate.TwoAtMostTen(1074, 324);
    PowSucc(10, 324);
    PowMono(10, 325, p);
    MulMono(1, Pow(2, Max(e, 0)), Pow(10, p));
    MulMono(1, f, Pow(2, Max(e, 0)) * Pow(10, p));
  }

  // ---- 2^-19 = 0.0000019073486328125

  lemma TwoToMinus19(digits: seq<char>, decimalPoint: int)
    requires |digits| == 120 && IsRounded(0x3ec0_0000_0000_0000, digits, decimalPoint)
    ensures decimalPoint == -5
  {
    hide DigitsVal, Pow, ExactDtoa.RoundV;
    var f, e := 0x10_0000_0000_0000, -71;
    assert Significand(0x3ec0_0000_0000_0000) == f && Exponent(0x3ec0_0000_0000_0000) == e;
    var point :| ExactDtoa.PrecisionAt(f, e, digits, decimalPoint, point);
    MicroLeads();
    ExactDtoa.LeadingUnique(f, e, point, -5);
    if decimalPoint == -4 {
      MicroRounded();
      Positive(digits);
      PowSucc(10, 119);
      Pow1(10);
    }
  }

  lemma MicroPowers()
    ensures Pow(2, 71) == 0x80_0000_0000_0000_0000 && Pow(10, 5) == 100_000 && Pow(10, 6) == 1_000_000
  {
    hide Pow;
    Pow2Values();
    Pow1(2);
    PowAdd(2, 64, 4);
    PowAdd(2, 68, 3);
    PowSucc(2, 1);
    PowSucc(2, 2);
    PowerEstimate.SmallTens();
    PowSucc(10, 3);
    PowSucc(10, 4);
  }

  lemma MicroLeads()
    ensures ExactDtoa.LeadingAt(0x10_0000_0000_0000, -71, -5)
  {
    hide Pow;
    MicroPowers();
    Pow1(2);
    Pow1(10);
  }

  lemma MicroRounded()
    ensures ExactDtoa.RoundV(0x10_0000_0000_0000, -71, 125) < Pow(10, 120)
  {
    hide Pow, RoundHalfUp;
    MicroPowers();
    Pow1(2);
    Pow1(10);
    PowAdd(10, 5, 120);
    PowMono(10, 1, 120);
    RoundsBelow(0x10_0000_0000_0000 * Pow(10, 125), Pow(2, 71), Pow(10, 120));
  }
}
