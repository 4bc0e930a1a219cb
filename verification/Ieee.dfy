/** IEEE 754 binary64 numbers as the conversion code sees them: the bits of a non-negative double, its
    significand f and exponent e with value f * 2^e, and the boundaries to its neighbours. */
module Ieee {
  import opened Arith

  const INFINITY: nat := 0x7ff0_0000_0000_0000
  const DENORMAL_EXPONENT: int := -1074

  /** A non-negative double that is not a NaN; infinity is the largest. */
  ghost predicate IsDouble(d: nat) { d <= INFINITY }

  ghost predicate IsFinite(d: nat) { d < INFINITY }

  function IsDenormal(d: nat): bool { d / 0x10_0000_0000_0000 == 0 }

  function Exponent(d: nat): int {
    if IsDenormal(d) then DENORMAL_EXPONENT else d / 0x10_0000_0000_0000 - 1075
  }

  function Significand(d: nat): nat {
    var fraction := d % 0x10_0000_0000_0000;
    if IsDenormal(d) then fraction else fraction + 0x10_0000_0000_0000
  }

  function LowerBoundaryIsCloser(d: nat): bool {
    d % 0x10_0000_0000_0000 == 0 && Exponent(d) != DENORMAL_EXPONENT
  }

  function NextDouble(d: nat): nat {
    if d == INFINITY then INFINITY else d + 1
  }

  /** A number f * 2^e without rounding, as in diy-fp.h. */
  datatype DiyFp = DiyFp(f: nat, e: int)

  function UpperBoundary(d: nat): DiyFp {
    DiyFp(Significand(d) * 2 + 1, Exponent(d) - 1)
  }

  lemma SignificandBounds(d: nat)
    requires IsDouble(d)
    ensures Significand(d) < 0x20_0000_0000_0000
    ensures DENORMAL_EXPONENT <= Exponent(d) <= 972
    ensures IsFinite(d) ==> Exponent(d) <= 971
    ensures Exponent(d) != DENORMAL_EXPONENT ==> 0x10_0000_0000_0000 <= Significand(d)
    ensures 0 < d ==> 0 < Significand(d)
    ensures Significand(d) % 2 == d % 2
    ensures LowerBoundaryIsCloser(d) ==> Significand(d) == 0x10_0000_0000_0000
  {
    var q, r := d / 0x10_0000_0000_0000, d % 0x10_0000_0000_0000;
    FieldBounds(d, q, r);
  }

  /** The fields of a double, q the exponent and r the fraction. */
  lemma FieldBounds(d: nat, q: int, r: int)
    requires IsDouble(d) && q == d / 0x10_0000_0000_0000 && r == d % 0x10_0000_0000_0000
    ensures 0 <= q <= 2047 && 0 <= r < 0x10_0000_0000_0000 && (q == 2047 ==> d == INFINITY)
    ensures r % 2 == d % 2 && (r + 0x10_0000_0000_0000) % 2 == d % 2 && (q == 0 ==> r == d)
  {
    assert d == 0x10_0000_0000_0000 * q + r;
    EvenMore(d, r, 0x8_0000_0000_0000 * q);
    EvenMore(r + 0x10_0000_0000_0000, r, 0x8_0000_0000_0000);
  }

  lemma EvenMore(x: int, r: int, n: int)
    requires x == 2 * n + r
    ensures x % 2 == r % 2
  {
  }

  /** The value of d in units of 2^-1074; infinity continues the series. */
  ghost function Scaled(d: nat): nat
    requires IsDouble(d)
  {
    SignificandBounds(d);
    Significand(d) * Pow(2, Exponent(d) + 1074)
  }

  /** One unit in the last place of d, in the same units. */
  ghost function Ulp(d: nat): nat
    requires IsDouble(d)
  {
    SignificandBounds(d);
    Pow(2, Exponent(d) + 1074)
  }

  /** The next double is exactly one unit in the last place away, also across a change of exponent. */
  lemma NextIsOneUlp(d: nat)
    requires IsFinite(d)
    ensures Scaled(d + 1) == Scaled(d) + Ulp(d)
  {
    hide Pow;
    SignificandBounds(d);
    SignificandBounds(d + 1);
    var h := 0x10_0000_0000_0000;
    DivMod(d, h);
    var q, r := d / h, d % h;
    var x := Pow(2, Exponent(d) + 1074);
    if r + 1 < h {
      DivModUnique(d + 1, h, q, r + 1);
      OneMore(Significand(d), x);
    } else {
      DivModUnique(d + 1, h, q + 1, 0);
      if q == 0 {
        OneMore(Significand(d), x);
      } else {
        assert Exponent(d + 1) == Exponent(d) + 1;
        PowSucc(2, Exponent(d) + 1074);
        OneMore(2 * h - 1, x);
        MulAssoc(h, 2, x);
      }
    }
  }

  lemma OneMore(f: int, x: int)
    ensures (f + 1) * x == f * x + x
  {
  }

  lemma {:induction false} ScaledMono(c: nat, d: nat)
    requires c <= d && IsDouble(d)
    ensures c < d ==> Scaled(c) < Scaled(d)
    decreases d - c
  {
    if c < d {
      NextIsOneUlp(c);
      ScaledMono(c + 1, d);
    }
  }

  /** Twice the midpoint between d and the next double. */
  ghost function TwiceMid(d: nat): nat
    requires IsFinite(d)
  {
    Scaled(d) + Scaled(d + 1)
  }

  /** UpperBoundary is exactly the midpoint to the next double. */
  lemma UpperBoundaryIsMid(d: nat)
    requires IsFinite(d)
    ensures UpperBoundary(d).e + 1075 >= 0
    ensures UpperBoundary(d).f * Pow(2, UpperBoundary(d).e + 1075) == TwiceMid(d)
  {
    hide Pow;
    SignificandBounds(d);
    NextIsOneUlp(d);
    TwiceAndOne(Significand(d), Pow(2, Exponent(d) + 1074));
  }

  lemma TwiceAndOne(f: int, u: int)
    ensures (f * 2 + 1) * u == 2 * (f * u) + u
  {
  }

  /** The lower midpoint is a half unit below, or a quarter where the exponent changes. */
  lemma LowerMid(d: nat)
    requires IsFinite(d) && 0 < d
    ensures LowerBoundaryIsCloser(d) ==> 2 * TwiceMid(d - 1) == 4 * Scaled(d) - Ulp(d)
    ensures !LowerBoundaryIsCloser(d) ==> 2 * TwiceMid(d - 1) == 4 * Scaled(d) - 2 * Ulp(d)
  {
    SignificandBounds(d);
    SignificandBounds(d - 1);
    NextIsOneUlp(d - 1);
    var h := 0x10_0000_0000_0000;
    DivMod(d, h);
    var q, r := d / h, d % h;
    if r > 0 {
      DivModUnique(d - 1, h, q, r - 1);
    } else {
      DivModUnique(d - 1, h, q - 1, h - 1);
      if q > 1 {
        PowSucc(2, Exponent(d - 1) + 1074);
        assert LowerBoundaryIsCloser(d);
      }
    }
  }

  /** The boundary above the double below. */
  lemma Below(d: nat)
    requires IsFinite(d) && 0 < d
    ensures if LowerBoundaryIsCloser(d) then UpperBoundary(d - 1) == DiyFp(4 * Significand(d) - 1, Exponent(d) - 2)
            else UpperBoundary(d - 1) == DiyFp(2 * Significand(d) - 1, Exponent(d) - 1)
  {
  }

  /** The non-negative rational x = num/den rounds to d: it lies between the midpoints to the neighbours, and
      on a midpoint only if d is even (round half to even). */
  ghost predicate RoundsToDouble(num: int, den: int, d: nat)
    requires IsDouble(d)
  {
    var x := num * Pow(2, 1075);
    && (0 < d ==> if d % 2 == 0 then den * TwiceMid(d - 1) <= x else den * TwiceMid(d - 1) < x)
    && (IsFinite(d) ==> if d % 2 == 0 then x <= den * TwiceMid(d) else x < den * TwiceMid(d))
  }

  /** No double is closer to x than the one it rounds to, and of two equally close ones it is the even one. */
  lemma RoundedIsNearest(num: int, den: int, d: nat, other: nat)
    requires 0 < den && 0 <= num && IsFinite(d) && IsFinite(other) && RoundsToDouble(num, den, d)
    ensures var x := num * Pow(2, 1075);
      && Abs(x - den * (2 * Scaled(d))) <= Abs(x - den * (2 * Scaled(other)))
      && (other != d && Abs(x - den * (2 * Scaled(d))) == Abs(x - den * (2 * Scaled(other))) ==> d % 2 == 0)
  {
    hide Pow, Scaled;
    var x := num * Pow(2, 1075);
    if other < d {
      ScaledMono(other, d - 1);
      ScaledMono(d - 1, d);
      NearestArith(x, den, Scaled(d), Scaled(other), Scaled(d - 1));
    } else if d < other {
      ScaledMono(d + 1, other);
      ScaledMono(d, d + 1);
      NearestMirrored(x, den, Scaled(d), Scaled(other), Scaled(d + 1));
    }
  }

  lemma NearestMirrored(x: int, den: int, s: int, o: int, n: int)
    requires 0 < den && s < n <= o && x <= den * (s + n)
    ensures Abs(x - den * (2 * s)) <= Abs(x - den * (2 * o))
    ensures x < den * (s + n) ==> Abs(x - den * (2 * s)) < Abs(x - den * (2 * o))
  {
    MulMono(2 * n, 2 * o, den);
    MulStrict(2 * s, 2 * n, den);
    assert den * (2 * n) - den * (s + n) == den * (s + n) - den * (2 * s);
  }

  /** o <= n < s on a line, with x not below the midpoint of n and s. */
  lemma NearestArith(x: int, den: int, s: int, o: int, n: int)
    requires 0 < den && o <= n < s && den * (n + s) <= x
    ensures Abs(x - den * (2 * s)) <= Abs(x - den * (2 * o))
    ensures den * (n + s) < x ==> Abs(x - den * (2 * s)) < Abs(x - den * (2 * o))
  {
    MulMono(2 * o, 2 * n, den);
    MulStrict(2 * n, 2 * s, den);
    assert den * (n + s) - den * (2 * n) == den * (2 * s) - den * (n + s);
  }

  /** A rational rounds to one double only. */
  lemma RoundedIsUnique(num: int, den: int, c: nat, d: nat)
    requires 0 < den && c < d && IsDouble(d)
    ensures !(RoundsToDouble(num, den, c) && RoundsToDouble(num, den, d))
  {
    hide Pow, Scaled;
    ScaledMono(c, d - 1);
    ScaledMono(c + 1, d);
    MulMono(TwiceMid(c), TwiceMid(d - 1), den);
    if c < d - 1 { MulStrict(TwiceMid(c), TwiceMid(d - 1), den); }
  }
}
