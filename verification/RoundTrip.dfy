/** Printing and reading are inverse: the decimals in the interval of the shortest conversion are exactly those that
    read as the double. */
module RoundTrip {
  import opened Arith
  import opened Decimal
  import opened Ieee
  import opened ShortestSpec
  import opened StartValues
  import opened StrtodSpec
  import ExactDtoa
  import GrisuIsExact

  /** The interval of the double d over 10^t. */
  ghost function IntervalOf(d: nat, t: int): Interval {
    ExactDtoa.Exact(Significand(d), Exponent(d), LowerBoundaryIsCloser(d), t)
  }

  /** The comparison with a boundary g * 2^(e - k), in the scale of the interval. */
  lemma BoundarySign(m: int, p: int, g: int, e: int, k: nat, h: int)
    requires h == Pow(2, k)
    ensures Sign(GrisuIsExact.Err(g * Num(1, e, 0), h * Den(e, 0), m, p)) == Sign(Side(m, p, g, e - k))
  {
    hide Pow;
    Pow1(10);
    var s := Pow(2, k + Max(-e, 0) - Max(k - e, 0));
    PowAdd(2, Max(k - e, 0), k + Max(-e, 0) - Max(k - e, 0));
    PowAdd(2, k, Max(-e, 0));
    PowAdd(2, Max(e - k, 0), Max(e, 0) - Max(e - k, 0));
    BoundaryArith(m * Pow(10, Max(p, 0)), Pow(10, Max(-p, 0)), g, h * Pow(2, Max(-e, 0)), Pow(2, Max(e, 0)),
                  Pow(2, Max(k - e, 0)), Pow(2, Max(e - k, 0)), s);
    MulAssoc(h, Pow(2, Max(-e, 0)), 1);
  }

  lemma BoundaryArith(x: int, u: int, g: int, d: int, n: int, d': int, n': int, s: int)
    requires 0 < s && d == d' * s && n == n' * s
    ensures Sign(x * d - g * n * u) == Sign(x * d' - g * n' * u)
  {
  }

  /** The upper end of the interval is the boundary above d. */
  lemma UpperEnd(d: nat, m: int, p: int)
    requires IsFinite(d)
    ensures Sign(GrisuIsExact.EndErr(Significand(d), Exponent(d), LowerBoundaryIsCloser(d), 1, 0, m, p)) ==
      Sign(SideOf(m, p, d))
  {
    hide Num, Den, Side;
    var f, e := Significand(d), Exponent(d);
    Pow1(2);
    BoundarySign(m, p, 2 * f + 1, e, 1, 2);
    TwiceErr((2 * f + 1) * Num(1, e, 0), 2 * Den(e, 0), m, p);
    MulAssoc(2, 2 * f + 1, Num(1, e, 0));
  }

  lemma TwiceErr(n: int, d: int, m: int, p: int)
    ensures GrisuIsExact.Err(2 * n, 2 * d, m, p) == 2 * GrisuIsExact.Err(n, d, m, p)
  {
  }

  /** The lower end is the boundary above the double below d, also where the exponent changes. */
  lemma LowerEnd(d: nat, m: int, p: int)
    requires IsFinite(d) && 0 < d
    ensures Sign(GrisuIsExact.EndErr(Significand(d), Exponent(d), LowerBoundaryIsCloser(d), -1, 0, m, p)) ==
      Sign(SideOf(m, p, d - 1))
  {
    hide Num, Den, Side;
    var f, e := Significand(d), Exponent(d);
    Below(d);
    Pow1(2);
    PowSucc(2, 1);
    if LowerBoundaryIsCloser(d) {
      BoundarySign(m, p, 4 * f - 1, e, 2, 4);
    } else {
      BoundarySign(m, p, 2 * f - 1, e, 1, 2);
      TwiceErr((2 * f - 1) * Num(1, e, 0), 2 * Den(e, 0), m, p);
      MulAssoc(2, 2 * f - 1, Num(1, e, 0));
    }
  }

  /** The ends of the interval at any power of ten. */
  lemma EndAtPower(d: nat, which: int, t: int, m: int, j: nat)
    ensures Sign(GrisuIsExact.EndErr(Significand(d), Exponent(d), LowerBoundaryIsCloser(d), which, t, m, 0 - j)) ==
            Sign(GrisuIsExact.EndErr(Significand(d), Exponent(d), LowerBoundaryIsCloser(d), which, 0, m, t - j))
  {
    hide Den, GrisuIsExact.End, GrisuIsExact.SameErrs, GrisuIsExact.Err, LowerBoundaryIsCloser;
    var f, e, closer := Significand(d), Exponent(d), LowerBoundaryIsCloser(d);
    var n0, d0 := GrisuIsExact.End(f, e, closer, which, 0), 4 * Den(e, 0);
    var n1, d1 := GrisuIsExact.End(f, e, closer, which, t), 4 * Den(e, t);
    if t >= 0 {
      GrisuIsExact.EndsMove(f, e, closer, which, 0, t, t - j);
      GrisuIsExact.SameSigns(n0, d0, n1, d1, t - j, 0 - j, m);
    } else {
      GrisuIsExact.EndsMove(f, e, closer, which, t, -t, 0 - j);
      GrisuIsExact.SameSigns(n1, d1, n0, d0, 0 - j, t - j, m);
    }
  }

  /** A decimal m / 10^j * 10^t lies in the interval of d exactly if it reads as d. */
  lemma FitsIffReadsAs(d: nat, t: int, m: int, j: nat)
    requires IsFinite(d) && 0 < d
    ensures IntervalOf(d, t).Fits(m, j) <==> ReadsAs(m, t - j, d)
  {
    hide GrisuIsExact.EndErr, SideOf, ReadsAs, Interval.Fits, ExactDtoa.Exact, LowerBoundaryIsCloser;
    SignificandBounds(d);
    GrisuIsExact.FitsIs(Significand(d), Exponent(d), LowerBoundaryIsCloser(d), t, m, j);
    EndAtPower(d, -1, t, m, j);
    EndAtPower(d, 1, t, m, j);
    UpperEnd(d, m, t - j);
    LowerEnd(d, m, t - j);
    ReadsAsBySides(m, t - j, d);
  }

  /** What ShortestDtoa guarantees about its output for d. */
  ghost predicate IsShortestOutput(d: nat, digits: seq<char>, decimalPoint: int) {
    && 0 < |digits| && AllDigits(digits) && digits[0] != '0'
    && IntervalOf(d, decimalPoint - 1).BelowTen() && IntervalOf(d, decimalPoint - 1).AtLeastOne()
    && IsShortest(IntervalOf(d, decimalPoint - 1), DigitsVal(digits), |digits| - 1)
  }

  /** The shortest output reads back as d and as nothing else. */
  lemma ReadsBack(d: nat, digits: seq<char>, decimalPoint: int, c: nat)
    requires IsFinite(d) && 0 < d && IsShortestOutput(d, digits, decimalPoint) && IsDouble(c)
    ensures ReadsAs(DigitsVal(digits), decimalPoint - |digits|, c) <==> c == d
  {
    hide ReadsAs, DigitsVal, Interval.Fits, IntervalOf;
    FitsIffReadsAs(d, decimalPoint - 1, DigitsVal(digits), |digits| - 1);
    if c != d { OneDouble(DigitsVal(digits), decimalPoint - |digits|, c, d); }
  }

  /** No decimal of fewer digits, whatever its exponent, reads as d. */
  lemma NothingShorterReadsBack(d: nat, digits: seq<char>, decimalPoint: int, m: int, p: int, count: nat)
    requires IsFinite(d) && 0 < d && IsShortestOutput(d, digits, decimalPoint)
    requires ReadsAs(m, p, d) && m < Pow(10, count)
    ensures |digits| <= count
  {
    hide ReadsAs, DigitsVal, Interval.Fits, IntervalOf, Pow;
    var t := decimalPoint - 1;
    if p <= t {
      FitsIffReadsAs(d, t, m, t - p);
      FewestDigits(IntervalOf(d, t), DigitsVal(digits), |digits|, m, t - p, count);
    } else {
      SameNumber(m, t, p - t, d);
      FitsIffReadsAs(d, t, m * Pow(10, p - t), 0);
      FewestDigitsInteger(IntervalOf(d, t), DigitsVal(digits), |digits|, m, p - t, count);
    }
  }
}
