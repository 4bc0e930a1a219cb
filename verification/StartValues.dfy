/** The scaled start values of the exact conversion: v / 10^k as a ratio of bignums, with the distances to the
    boundaries of v over the same denominator. */
module StartValues {
  import opened Arith
  import opened BigitSeq
  import opened BignumModel
  import opened BignumDtoa

  /** f * 2^e / 10^k == Num(f, e, k) / Den(e, k). */
  ghost function Num(f: nat, e: int, k: int): nat {
    f * Pow(2, Max(e, 0)) * Pow(10, Max(-k, 0))
  }

  ghost function Den(e: int, k: int): (d: nat)
    ensures d > 0
  {
    MulStrict(0, Pow(2, Max(-e, 0)), Pow(10, Max(k, 0)));
    Pow(2, Max(-e, 0)) * Pow(10, Max(k, 0))
  }

  /** The three cases of the source. */
  lemma StartCases(f: nat, e: int, k: int)
    ensures e >= 0 && k >= 0 ==> Num(f, e, k) == Pow(2, e) * f && Den(e, k) == Pow(10, k)
    ensures e >= 0 && k >= 0 ==> Num(1, e, k) == Pow(2, e)
    ensures e < 0 && k >= 0 ==> Num(f, e, k) == f && Den(e, k) == Pow(2, -e) * Pow(10, k)
    ensures e < 0 && k >= 0 ==> Num(1, e, k) == 1
    ensures e < 0 && k < 0 ==> Num(f, e, k) == f * Pow(10, -k) && Den(e, k) == Pow(2, -e)
    ensures e < 0 && k < 0 ==> Num(1, e, k) == Pow(10, -k)
  {
  }

  /** The range of significands, exponents and powers the conversion of doubles meets. */
  ghost predicate InRange(f: nat, e: int, k: int) {
    f < 0x20_0000_0000_0000 && -1074 <= e <= 971 && -324 <= k <= 309
  }

  lemma {:induction false} TenBelowSixteen(n: nat)
    ensures Pow(10, n) <= Pow(2, 4 * n)
  {
    PowBaseMono(10, 16, n);
    Pow2Values();
    PowPow(2, 4, n);
  }

  /** All start values, times the common factors of two and times ten, are far below the capacity. */
  lemma StartRoom(f: nat, e: int, k: int)
    requires InRange(f, e, k) && (e >= 0 ==> k >= 0)
    ensures Num(f, e, k) < P(91) && Den(e, k) < P(91) && Num(1, e, k) < P(91)
  {
    hide P, Pow;
    var a, b := Max(e, 0), Max(-k, 0);
    var x, y := Max(-e, 0), Max(k, 0);
    TenBelowSixteen(b);
    TenBelowSixteen(y);
    SmallProduct(f, a, b);
    SmallProduct(1, a, b);
    SmallProduct(1, x, y);
  }

  lemma SmallProduct(f: nat, a: nat, b: nat)
    requires f < 0x20_0000_0000_0000 && a + 4 * b <= 2490 && Pow(10, b) <= Pow(2, 4 * b)
    ensures f * Pow(2, a) * Pow(10, b) < P(91)
  {
    hide P, Pow;
    PowAdd(2, a, 4 * b);
    MulMono(Pow(10, b), Pow(2, 4 * b), f * Pow(2, a));
    MulAssoc(f, Pow(2, a), Pow(2, 4 * b));
    PowMono(2, a + 4 * b, 2490);
    MulMono(Pow(2, a + 4 * b), Pow(2, 2490), f);
    MulStrict(f, 0x20_0000_0000_0000, Pow(2, 2490));
    PowAdd(2, 53, 2490);
    TwoTo53();
    PowMono(2, 2543, 28 * 91);
    PIsPow2(91);
    MulMono(0, Pow(10, b), f * Pow(2, a));
  }

  lemma TwoTo53()
    ensures Pow(2, 53) == 0x20_0000_0000_0000
  {
    hide Pow;
    Pow2Values();
    Pow1(2);
    PowAdd(2, 32, 16);
    PowAdd(2, 48, 4);
    PowAdd(2, 52, 1);
  }

  lemma Capacity91(x: int)
    requires 0 <= x < P(91)
    ensures 16 * x < P(92) && 16 * x < P(CAPACITY) / 10 && P(92) <= P(CAPACITY - 1) <= P(CAPACITY)
  {
    PMono(92, CAPACITY - 1);
    PMono(CAPACITY - 1, CAPACITY);
    assert P(92) == 0x1000_0000 * P(91);
    PMono(92, CAPACITY);
  }

  ghost predicate Fits91(b: Bignum)
    reads b, b.bigits
  {
    b.Valid() && b.Value() < P(92)
  }

  method ShiftValue(b: Bignum, n: nat)
    requires Fits91(b)
    modifies b, b.bigits
    ensures b.Valid() && b.Value() == Pow(2, n) * old(b.Value())
  {
    hide P, Bignum.Value, Bignum.Shape, Bignum.IsClamped;
    b.LengthBelow(92);
    TimesIs(Pow(2, n), b.Value());
    b.ShiftLeft(n);
  }

  method AssignShifted(b: Bignum, f: nat, n: nat)
    requires b.Shape() && f < 0x20_0000_0000_0000
    modifies b, b.bigits
    ensures b.Valid() && b.Value() == Pow(2, n) * f
  {
    hide P, Pow, Bignum.Value, Bignum.Shape, Bignum.IsClamped;
    b.AssignUInt64(f);
    ShiftRoom(f);
    ShiftValue(b, n);
  }

  /** b = 2^n, assigned and shifted. */
  method AssignPowerOfTwo(b: Bignum, n: nat)
    requires b.Shape()
    modifies b, b.bigits
    ensures b.Valid() && b.Value() == Pow(2, n)
  {
    hide P, Pow, Bignum.Value, Bignum.Shape, Bignum.IsClamped;
    b.AssignUInt16(1);
    ShiftRoom(1);
    ShiftValue(b, n);
  }

  /** The common denominator of two that makes the deltas integers. */
  method DoubleBoth(numerator: Bignum, denominator: Bignum)
    requires Fits91(numerator) && Fits91(denominator) && Distinct(numerator, denominator)
    modifies numerator, numerator.bigits, denominator, denominator.bigits
    ensures numerator.Valid() && denominator.Valid()
    ensures numerator.Value() == 2 * old(numerator.Value()) && denominator.Value() == 2 * old(denominator.Value())
  {
    hide P, Pow, Bignum.Value, Bignum.Shape, Bignum.IsClamped;
    FirstPowers();
    ShiftValue(denominator, 1);
    ShiftValue(numerator, 1);
  }

  lemma FirstPowers()
    ensures Pow(2, 0) == 1 && Pow(10, 0) == 1 && Pow(2, 1) == 2
  {
  }

  /** 10^n for the powers of the conversion. */
  method AssignPowerOfTen(b: Bignum, n: nat)
    requires b.Shape() && n <= 324
    modifies b, b.bigits
    ensures b.Valid() && b.Value() == Pow(10, n)
  {
    OddPartOfTen();
    b.AssignPowerUInt16(10, n);
  }

  lemma OddPartOfTen()
    ensures BitSize(OddPart(10)) == 3
  {
    assert OddPart(10) == OddPart(5) == 5;
    assert BitSize(5) == 1 + BitSize(2) && BitSize(2) == 1 + BitSize(1) && BitSize(1) == 1 + BitSize(0);
  }

  /** e >= 0: the numerator takes the binary exponent, the denominator the decimal one. */
  method PositiveExponent(f: nat, e: nat, k: nat, needDeltas: bool,
                          numerator: Bignum, denominator: Bignum, deltaMinus: Bignum, deltaPlus: Bignum)
    requires InRange(f, e, k) && f < 0x1_0000_0000_0000_0000 && Fresh4(numerator, denominator, deltaMinus, deltaPlus)
    modifies Parts(numerator, denominator, deltaMinus, deltaPlus)
    ensures Valid4(numerator, denominator, deltaMinus, deltaPlus)
    ensures StartIs(f, e, k, needDeltas, numerator.Value(), denominator.Value(), deltaMinus.Value(), deltaPlus.Value())
  {
    hide P, Pow, Num, Den, Bignum.Value, Bignum.Shape, Bignum.IsClamped;
    StartRoom(f, e, k);
    StartCases(f, e, k);
    FirstPowers();
    AssignShifted(numerator, f, e);
    AssignPowerOfTen(denominator, k);
    Capacity91(numerator.Value());
    Capacity91(denominator.Value());
    if needDeltas {
      DoubleBoth(numerator, denominator);
      AssignPowerOfTwo(deltaPlus, e);
      AssignPowerOfTwo(deltaMinus, e);
    }
  }

  lemma ShiftRoom(f: nat)
    requires f < 0x20_0000_0000_0000
    ensures f < P(91) && f < P(92)
  {
  }

  /** e < 0 and k >= 0: the denominator takes both exponents. */
  method NegativeExponentPositivePower(f: nat, e: int, k: nat, needDeltas: bool,
                                       numerator: Bignum, denominator: Bignum, deltaMinus: Bignum, deltaPlus: Bignum)
    requires e < 0 && InRange(f, e, k) && Fresh4(numerator, denominator, deltaMinus, deltaPlus)
    modifies Parts(numerator, denominator, deltaMinus, deltaPlus)
    ensures Valid4(numerator, denominator, deltaMinus, deltaPlus)
    ensures StartIs(f, e, k, needDeltas, numerator.Value(), denominator.Value(), deltaMinus.Value(), deltaPlus.Value())
  {
    hide P, Pow, Num, Den, Bignum.Value, Bignum.Shape, Bignum.IsClamped;
    StartRoom(f, e, k);
    StartCases(f, e, k);
    FirstPowers();
    numerator.AssignUInt64(f);
    AssignPowerOfTen(denominator, k);
    TenFits(k);
    ShiftValue(denominator, -e);
    Capacity91(numerator.Value());
    Capacity91(denominator.Value());
    if needDeltas {
      DoubleBoth(numerator, denominator);
      deltaPlus.AssignUInt16(1);
      deltaMinus.AssignUInt16(1);
    }
  }

  lemma TenFits(k: nat)
    requires k <= 324
    ensures Pow(10, k) < P(91) <= P(92)
  {
    TenBelowSixteen(k);
    Pow1(2);
    SmallProduct(1, 0, k);
    PMono(91, 92);
  }

  /** e < 0 and k < 0: numerator and deltas are multiplied by 10^-k; the numerator first serves as the
      container of that power. */
  method NegativeExponentNegativePower(f: nat, e: int, k: int, needDeltas: bool,
                                       numerator: Bignum, denominator: Bignum, deltaMinus: Bignum, deltaPlus: Bignum)
    requires e < 0 && k < 0 && InRange(f, e, k) && Fresh4(numerator, denominator, deltaMinus, deltaPlus)
    modifies Parts(numerator, denominator, deltaMinus, deltaPlus)
    ensures Valid4(numerator, denominator, deltaMinus, deltaPlus)
    ensures StartIs(f, e, k, needDeltas, numerator.Value(), denominator.Value(), deltaMinus.Value(), deltaPlus.Value())
  {
    hide P, Pow, Num, Den, Bignum.Value, Bignum.Shape, Bignum.IsClamped;
    StartRoom(f, e, k);
    StartCases(f, e, k);
    FirstPowers();
    AssignPowerOfTen(numerator, -k);
    if needDeltas {
      deltaPlus.AssignBignum(numerator);
      deltaMinus.AssignBignum(numerator);
    }
    TimesIs(f, numerator.Value());
    Capacity91(Num(f, e, k));
    SigFits(numerator, f);
    numerator.MultiplyByUInt64(f);
    AssignPowerOfTwo(denominator, -e);
    Capacity91(denominator.Value());
    if needDeltas { DoubleBoth(numerator, denominator); }
  }

  lemma SigFits(b: Bignum, f: nat)
    requires b.Valid() && f * b.Value() < P(CAPACITY)
    ensures Times(f, b.Sig()) < P(CAPACITY)
  {
    hide P, Bignum.Value;
    b.SigBelowValue();
    TimesIs(f, b.Sig());
    MulMono(b.Sig(), b.Value(), f);
  }

  ghost function Parts(a: Bignum, b: Bignum, c: Bignum, d: Bignum): set<object> {
    {a, a.bigits, b, b.bigits, c, c.bigits, d, d.bigits}
  }

  ghost predicate Fresh4(a: Bignum, b: Bignum, c: Bignum, d: Bignum)
    reads Parts(a, b, c, d)
  {
    && a.Valid() && b.Valid() && c.Valid() && d.Valid()
    && Distinct(a, b) && Distinct(a, c) && Distinct(a, d) && Distinct(b, c) && Distinct(b, d) && Distinct(c, d)
    && c.Value() == 0 && d.Value() == 0
  }

  ghost predicate Valid4(a: Bignum, b: Bignum, c: Bignum, d: Bignum)
    reads Parts(a, b, c, d)
  {
    a.Valid() && b.Valid() && c.Valid() && d.Valid()
  }

  /** numerator/denominator is v/10^k; both deltas are half a unit of the significand. */
  ghost predicate StartIs(f: nat, e: int, k: int, needDeltas: bool, n: int, d: int, m: int, p: int) {
    if needDeltas then
      n == 2 * Num(f, e, k) && d == 2 * Den(e, k) && m == Num(1, e, k) && p == Num(1, e, k)
    else
      n == Num(f, e, k) && d == Den(e, k) && m == 0 && p == 0
  }

  /** The start values, with the deltas unequal where the lower boundary is closer. */
  ghost predicate ScaledStartIs(f: nat, e: int, closer: bool, k: int, needDeltas: bool,
                                n: int, d: int, m: int, p: int)
  {
    if needDeltas && closer then
      n == 4 * Num(f, e, k) && d == 4 * Den(e, k) && m == Num(1, e, k) && p == 2 * Num(1, e, k)
    else
      StartIs(f, e, k, needDeltas, n, d, m, p)
  }

  method InitialScaledStartValues(f: nat, e: int, closer: bool, k: int, needDeltas: bool,
                                  numerator: Bignum, denominator: Bignum, deltaMinus: Bignum, deltaPlus: Bignum)
    requires InRange(f, e, k) && (e >= 0 ==> k >= 0) && Fresh4(numerator, denominator, deltaMinus, deltaPlus)
    modifies Parts(numerator, denominator, deltaMinus, deltaPlus)
    ensures Valid4(numerator, denominator, deltaMinus, deltaPlus)
    ensures ScaledStartIs(f, e, closer, k, needDeltas,
                          numerator.Value(), denominator.Value(), deltaMinus.Value(), deltaPlus.Value())
  {
    hide P, Pow, Num, Den, Bignum.Value, Bignum.Shape, Bignum.IsClamped;
    if e >= 0 {
      PositiveExponent(f, e, k, needDeltas, numerator, denominator, deltaMinus, deltaPlus);
    } else if k >= 0 {
      NegativeExponentPositivePower(f, e, k, needDeltas, numerator, denominator, deltaMinus, deltaPlus);
    } else {
      NegativeExponentNegativePower(f, e, k, needDeltas, numerator, denominator, deltaMinus, deltaPlus);
    }
    if needDeltas && closer {
      StartRoom(f, e, k);
      Capacity91(Num(f, e, k));
      Capacity91(Den(e, k));
      Capacity91(Num(1, e, k));
      DoubleBoth(numerator, denominator);
      FirstPowers();
      ShiftValue(deltaPlus, 1);
    }
  }

  /** Multiplies by ten unless the estimated power was one too low, and sets the decimal point accordingly. */
  method FixupMultiply10(estimatedPower: int, isEven: bool,
                         numerator: Bignum, denominator: Bignum, deltaMinus: Bignum, deltaPlus: Bignum)
    returns (decimalPoint: int)
    requires Small(numerator) && denominator.Valid() && Small(deltaMinus) && Small(deltaPlus)
    requires Distinct(numerator, denominator) && Distinct(numerator, deltaMinus) && Distinct(numerator, deltaPlus)
    requires Distinct(denominator, deltaMinus) && Distinct(denominator, deltaPlus) && Distinct(deltaMinus, deltaPlus)
    modifies numerator, numerator.bigits, deltaMinus, deltaMinus.bigits, deltaPlus, deltaPlus.bigits
    ensures Valid4(numerator, denominator, deltaMinus, deltaPlus)
    ensures decimalPoint == estimatedPower || decimalPoint == estimatedPower + 1
    ensures decimalPoint == estimatedPower + 1 <==>
      var upper := old(numerator.Value()) + old(deltaPlus.Value());
      if isEven then denominator.Value() <= upper else denominator.Value() < upper
    ensures var factor := if decimalPoint == estimatedPower then 10 else 1;
      && numerator.Value() == factor * old(numerator.Value())
      && deltaMinus.Value() == factor * old(deltaMinus.Value())
      && deltaPlus.Value() == factor * old(deltaPlus.Value())
  {
    hide P, Bignum.Value, Bignum.Shape, Bignum.IsClamped;
    var c := Bignum.PlusCompare(numerator, deltaPlus, denominator);
    var inRange := if isEven then c >= 0 else c > 0;
    if inRange {
      decimalPoint := estimatedPower + 1;
    } else {
      decimalPoint := estimatedPower;
      numerator.Times10();
      var same := Bignum.Equal(deltaMinus, deltaPlus);
      deltaMinus.Times10();
      if same {
        deltaPlus.AssignBignum(deltaMinus);
      } else {
        deltaPlus.Times10();
      }
    }
  }
}
