/** Reading short decimals by a few operations on doubles that are exact or rounded once. */
module ExactDoubles {
  import opened Arith
  import opened Decimal
  import opened Ieee
  import opened StrtodSpec
  import FastStrtod
  import PowerEstimate

  const EXACT_POWERS_OF_TEN: seq<nat> := [
    0x3ff0_0000_0000_0000, 0x4024_0000_0000_0000, 0x4059_0000_0000_0000, 0x408f_4000_0000_0000,
    0x40c3_8800_0000_0000, 0x40f8_6a00_0000_0000, 0x412e_8480_0000_0000, 0x4163_12d0_0000_0000,
    0x4197_d784_0000_0000, 0x41cd_cd65_0000_0000, 0x4202_a05f_2000_0000, 0x4237_4876_e800_0000,
    0x426d_1a94_a200_0000, 0x42a2_309c_e540_0000, 0x42d6_bcc4_1e90_0000, 0x430c_6bf5_2634_0000,
    0x4341_c379_37e0_8000, 0x4376_3457_85d8_a000, 0x43ab_c16d_674e_c800, 0x43e1_58e4_6091_3d00,
    0x4415_af1d_78b5_8c40, 0x444b_1ae4_d6e2_ef50, 0x4480_f0cf_064d_d592
  ]

  /** The integer n as a double. */
  ghost predicate IsInteger(d: nat, n: nat) {
    IsFinite(d) && Scaled(d) == n * Pow(2, 1074)
  }

  /** The second number is ten times the first, without rounding. */
  ghost predicate IsTenfold(a: nat, b: nat) {
    && IsFinite(a) && IsFinite(b)
    && ((Exponent(b) == Exponent(a) + 3 && 8 * Significand(b) == 10 * Significand(a)) ||
        (Exponent(b) == Exponent(a) + 4 && 16 * Significand(b) == 10 * Significand(a)))
  }

  lemma PowerCount()
    ensures |EXACT_POWERS_OF_TEN| == 23
  {
  }

  lemma Tenfold(a: nat, x: int, f: nat, b: nat, shift: int, g: nat)
    requires a == (x + 1074) * 0x10_0000_0000_0000 + f && b == (x + shift + 1074) * 0x10_0000_0000_0000 + g
    requires -1074 <= x <= 900 && 0x10_0000_0000_0000 <= f < 0x20_0000_0000_0000
    requires 0x10_0000_0000_0000 <= g < 0x20_0000_0000_0000
    requires (shift == 3 && 8 * g == 10 * f) || (shift == 4 && 16 * g == 10 * f)
    ensures IsTenfold(a, b)
  {
    hide Exponent, Significand;
    IsMadeOf(a, x, f);
    IsMadeOf(b, x + shift, g);
  }

  lemma IsMadeOf(d: nat, x: int, f: nat)
    requires d == (x + 1074) * 0x10_0000_0000_0000 + f && -1074 <= x <= 950
    requires 0x10_0000_0000_0000 <= f < 0x20_0000_0000_0000
    ensures IsFinite(d) && Exponent(d) == x && Significand(d) == f
  {
    assert d / 0x10_0000_0000_0000 == x + 1075;
  }

  lemma FirstPowers(k: int)
    requires 0 <= k < 3
    ensures k + 1 < |EXACT_POWERS_OF_TEN| && IsTenfold(EXACT_POWERS_OF_TEN[k], EXACT_POWERS_OF_TEN[k + 1])
  {
    hide IsTenfold;
    Tenfold(0x3ff0_0000_0000_0000, -52, 0x10_0000_0000_0000, 0x4024_0000_0000_0000, 3, 0x14_0000_0000_0000);
    Tenfold(0x4024_0000_0000_0000, -49, 0x14_0000_0000_0000, 0x4059_0000_0000_0000, 3, 0x19_0000_0000_0000);
    Tenfold(0x4059_0000_0000_0000, -46, 0x19_0000_0000_0000, 0x408f_4000_0000_0000, 3, 0x1f_4000_0000_0000);
  }

  lemma SecondPowers(k: int)
    requires 3 <= k < 6
    ensures k + 1 < |EXACT_POWERS_OF_TEN| && IsTenfold(EXACT_POWERS_OF_TEN[k], EXACT_POWERS_OF_TEN[k + 1])
  {
    hide IsTenfold;
    Tenfold(0x408f_4000_0000_0000, -43, 0x1f_4000_0000_0000, 0x40c3_8800_0000_0000, 4, 0x13_8800_0000_0000);
    Tenfold(0x40c3_8800_0000_0000, -39, 0x13_8800_0000_0000, 0x40f8_6a00_0000_0000, 3, 0x18_6a00_0000_0000);
    Tenfold(0x40f8_6a00_0000_0000, -36, 0x18_6a00_0000_0000, 0x412e_8480_0000_0000, 3, 0x1e_8480_0000_0000);
  }

  lemma ThirdPowers(k: int)
    requires 6 <= k < 9
    ensures k + 1 < |EXACT_POWERS_OF_TEN| && IsTenfold(EXACT_POWERS_OF_TEN[k], EXACT_POWERS_OF_TEN[k + 1])
  {
    hide IsTenfold;
    Tenfold(0x412e_8480_0000_0000, -33, 0x1e_8480_0000_0000, 0x4163_12d0_0000_0000, 4, 0x13_12d0_0000_0000);
    Tenfold(0x4163_12d0_0000_0000, -29, 0x13_12d0_0000_0000, 0x4197_d784_0000_0000, 3, 0x17_d784_0000_0000);
    Tenfold(0x4197_d784_0000_0000, -26, 0x17_d784_0000_0000, 0x41cd_cd65_0000_0000, 3, 0x1d_cd65_0000_0000);
  }

  lemma FourthPowers(k: int)
    requires 9 <= k < 12
    ensures k + 1 < |EXACT_POWERS_OF_TEN| && IsTenfold(EXACT_POWERS_OF_TEN[k], EXACT_POWERS_OF_TEN[k + 1])
  {
    hide IsTenfold;
    Tenfold(0x41cd_cd65_0000_0000, -23, 0x1d_cd65_0000_0000, 0x4202_a05f_2000_0000, 4, 0x12_a05f_2000_0000);
    Tenfold(0x4202_a05f_2000_0000, -19, 0x12_a05f_2000_0000, 0x4237_4876_e800_0000, 3, 0x17_4876_e800_0000);
    Tenfold(0x4237_4876_e800_0000, -16, 0x17_4876_e800_0000, 0x426d_1a94_a200_0000, 3, 0x1d_1a94_a200_0000);
  }

  lemma FifthPowers(k: int)
    requires 12 <= k < 15
    ensures k + 1 < |EXACT_POWERS_OF_TEN| && IsTenfold(EXACT_POWERS_OF_TEN[k], EXACT_POWERS_OF_TEN[k + 1])
  {
    hide IsTenfold;
    Tenfold(0x426d_1a94_a200_0000, -13, 0x1d_1a94_a200_0000, 0x42a2_309c_e540_0000, 4, 0x12_309c_e540_0000);
    Tenfold(0x42a2_309c_e540_0000, -9, 0x12_309c_e540_0000, 0x42d6_bcc4_1e90_0000, 3, 0x16_bcc4_1e90_0000);
    Tenfold(0x42d6_bcc4_1e90_0000, -6, 0x16_bcc4_1e90_0000, 0x430c_6bf5_2634_0000, 3, 0x1c_6bf5_2634_0000);
  }

  lemma SixthPowers(k: int)
    requires 15 <= k < 18
    ensures k + 1 < |EXACT_POWERS_OF_TEN| && IsTenfold(EXACT_POWERS_OF_TEN[k], EXACT_POWERS_OF_TEN[k + 1])
  {
    hide IsTenfold;
    Tenfold(0x430c_6bf5_2634_0000, -3, 0x1c_6bf5_2634_0000, 0x4341_c379_37e0_8000, 4, 0x11_c379_37e0_8000);
    Tenfold(0x4341_c379_37e0_8000, 1, 0x11_c379_37e0_8000, 0x4376_3457_85d8_a000, 3, 0x16_3457_85d8_a000);
    Tenfold(0x4376_3457_85d8_a000, 4, 0x16_3457_85d8_a000, 0x43ab_c16d_674e_c800, 3, 0x1b_c16d_674e_c800);
  }

  lemma LastPowers(k: int)
    requires 18 <= k < 22
    ensures k + 1 < |EXACT_POWERS_OF_TEN| && IsTenfold(EXACT_POWERS_OF_TEN[k], EXACT_POWERS_OF_TEN[k + 1])
  {
    hide IsTenfold;
    Tenfold(0x43ab_c16d_674e_c800, 7, 0x1b_c16d_674e_c800, 0x43e1_58e4_6091_3d00, 4, 0x11_58e4_6091_3d00);
    Tenfold(0x43e1_58e4_6091_3d00, 11, 0x11_58e4_6091_3d00, 0x4415_af1d_78b5_8c40, 3, 0x15_af1d_78b5_8c40);
    Tenfold(0x4415_af1d_78b5_8c40, 14, 0x15_af1d_78b5_8c40, 0x444b_1ae4_d6e2_ef50, 3, 0x1b_1ae4_d6e2_ef50);
    Tenfold(0x444b_1ae4_d6e2_ef50, 17, 0x1b_1ae4_d6e2_ef50, 0x4480_f0cf_064d_d592, 4, 0x10_f0cf_064d_d592);
  }

  lemma NextPower(k: int)
    requires 0 <= k < 22
    ensures k + 1 < |EXACT_POWERS_OF_TEN| && IsTenfold(EXACT_POWERS_OF_TEN[k], EXACT_POWERS_OF_TEN[k + 1])
  {
    hide IsTenfold, EXACT_POWERS_OF_TEN;
    if k < 3 { FirstPowers(k); } else if k < 6 { SecondPowers(k); } else if k < 9 { ThirdPowers(k); }
    else if k < 12 { FourthPowers(k); } else if k < 15 { FifthPowers(k); }
    else if k < 18 { SixthPowers(k); } else { LastPowers(k); }
  }

  lemma {:induction false} PowerIsExact(k: nat)
    requires k <= 22
    ensures |EXACT_POWERS_OF_TEN| == 23 && IsInteger(EXACT_POWERS_OF_TEN[k], Pow(10, k))
  {
    hide Pow, IsTenfold, EXACT_POWERS_OF_TEN;
    Pow1(10);
    PowerCount();
    if k == 0 {
      One();
    } else {
      PowerIsExact(k - 1);
      NextPower(k - 1);
      PowSucc(10, k - 1);
      var a, b := EXACT_POWERS_OF_TEN[k - 1], EXACT_POWERS_OF_TEN[k];
      TenfoldScaled(a, b, Pow(10, k - 1));
    }
  }

  lemma One()
    ensures |EXACT_POWERS_OF_TEN| == 23 && IsInteger(EXACT_POWERS_OF_TEN[0], 1)
  {
    hide Pow;
    var d := 0x3ff0_0000_0000_0000;
    assert EXACT_POWERS_OF_TEN[0] == d && Significand(d) == 0x10_0000_0000_0000 && Exponent(d) == -52;
    PowerEstimate.TwoTo52();
    PowAdd(2, 52, 1022);
  }

  lemma TenfoldScaled(a: nat, b: nat, n: nat)
    requires IsInteger(a, n) && IsTenfold(a, b)
    ensures IsInteger(b, 10 * n)
  {
    hide Pow, Significand, Exponent;
    SignificandBounds(a);
    SignificandBounds(b);
    var x, shift := Exponent(a) + 1074, Exponent(b) - Exponent(a);
    Pow1(2);
    PowSucc(2, 1);
    PowSucc(2, 2);
    PowSucc(2, 3);
    PowAdd(2, shift, x);
    TenfoldArith(Significand(a), Significand(b), Pow(2, x), Pow(2, shift), Scaled(a), n, Pow(2, 1074));
  }

  lemma TenfoldArith(f: int, g: int, x: int, s: int, scaled: int, n: int, unit: int)
    requires scaled == f * x && scaled == n * unit && s * g == 10 * f
    ensures g * (s * x) == (10 * n) * unit
  {
    assert g * (s * x) == (s * g) * x;
    assert (10 * f) * x == 10 * (f * x);
  }

  // ---- The operations

  /** The machine's operations on doubles, conversion of an integer, product and quotient, and whether they are
      known to be those of the standard, so that the code uses them. */
  datatype Machine = Machine(correctDoubleOperations: bool, convert: nat -> nat, multiply: (nat, nat) -> nat,
                             divide: (nat, nat) -> nat) {
    ghost predicate IsIeee() { correctDoubleOperations ==> Rounds() }

    /** Results are correctly rounded, as section 4.3 of IEEE 754-2008 demands. */
    ghost predicate Rounds() {
      && (forall n: nat :: IsDouble(convert(n)) && RoundsToDouble(n, 1, convert(n)))
      && (forall a, b :: IsFinite(a) && IsFinite(b) ==>
            IsDouble(multiply(a, b)) && RoundsToDouble(Scaled(a) * Scaled(b), Pow(2, 2148), multiply(a, b)))
      && (forall a, b :: IsFinite(a) && IsFinite(b) && 0 < b ==>
            IsDouble(divide(a, b)) && RoundsToDouble(Scaled(a), Scaled(b), divide(a, b)))
    }
  }

  lemma RoundsScaled(num: int, den: int, s: int, d: nat)
    requires 0 < s && IsDouble(d)
    ensures RoundsToDouble(num * s, den * s, d) <==> RoundsToDouble(num, den, d)
  {
    hide Pow, TwiceMid;
    var x := num * Pow(2, 1075);
    assert (num * s) * Pow(2, 1075) == x * s;
    if 0 < d { ScaledMid(den, s, TwiceMid(d - 1), x); }
    if IsFinite(d) { ScaledMid(den, s, TwiceMid(d), x); }
  }

  lemma ScaledMid(den: int, s: int, mid: int, x: int)
    requires 0 < s
    ensures (den * s) * mid <= x * s <==> den * mid <= x
    ensures (den * s) * mid < x * s <==> den * mid < x
    ensures x * s <= (den * s) * mid <==> x <= den * mid
    ensures x * s < (den * s) * mid <==> x < den * mid
  {
    assert (den * s) * mid == (den * mid) * s;
    MulCancel(den * mid, x, s);
    MulCancel(x, den * mid, s);
  }

  /** A double rounds to itself. */
  lemma RoundsToItself(d: nat, n: nat)
    requires IsInteger(d, n)
    ensures RoundsToDouble(n, 1, d)
  {
    hide Pow, Scaled;
    PowSucc(2, 1074);
    MulAssoc(n, 2, Pow(2, 1074));
    if 0 < d { ScaledMono(d - 1, d); }
    ScaledMono(d, d + 1);
  }

  lemma {:induction false} Doubling(n: nat, f: nat, k: nat)
    requires 0 < f == n * Pow(2, k) < 0x20_0000_0000_0000 && k <= 60
    ensures exists d :: IsInteger(d, n)
    decreases 0x20_0000_0000_0000 - f
  {
    hide Pow;
    if f < 0x10_0000_0000_0000 && k < 60 {
      PowSucc(2, k);
      MulAssoc(n, Pow(2, k), 2);
      Doubling(n, 2 * f, k + 1);
    } else {
      if f < 0x10_0000_0000_0000 {
        PowMono(2, 53, k);
        PowerEstimate.TwoTo52();
        if n > 0 { MulMono(1, n, Pow(2, k)); }
      }
      Normalized(n, f, k);
    }
  }

  lemma Normalized(n: nat, f: nat, k: nat)
    requires f == n * Pow(2, k) && 0x10_0000_0000_0000 <= f < 0x20_0000_0000_0000 && k <= 60
    ensures IsInteger((1075 - k) * 0x10_0000_0000_0000 + (f - 0x10_0000_0000_0000), n)
  {
    hide Pow;
    var d := (1075 - k) * 0x10_0000_0000_0000 + (f - 0x10_0000_0000_0000);
    DivModUnique(d, 0x10_0000_0000_0000, 1075 - k, f - 0x10_0000_0000_0000);
    assert Significand(d) == f && Exponent(d) == 0 - k;
    PowAdd(2, k, 1074 - k);
    MulAssoc(n, Pow(2, k), Pow(2, 1074 - k));
  }

  /** Integers of 53 bits are doubles, so whatever rounds to one is one. */
  lemma ExactInteger(n: nat, d: nat)
    requires n < 0x20_0000_0000_0000 && IsDouble(d) && RoundsToDouble(n, 1, d)
    ensures IsInteger(d, n)
  {
    hide Pow, Scaled, RoundsToDouble;
    Pow1(2);
    var c: nat;
    if n == 0 {
      c := 0;
      ZeroIsInteger();
    } else {
      Doubling(n, n, 0);
      c :| IsInteger(c, n);
    }
    RoundsToItself(c, n);
    if c < d { RoundedIsUnique(n, 1, c, d); } else if d < c { RoundedIsUnique(n, 1, d, c); }
  }

  lemma ZeroIsInteger()
    ensures IsInteger(0, 0)
  {
  }

  // ---- DoubleStrtod

  const MAX_EXACT_DOUBLE_INTEGER_DECIMAL_DIGITS := 15
  const EXACT_POWERS_OF_TEN_SIZE := 23

  lemma FifteenDigits(s: seq<char>, rest: nat)
    requires AllDigits(s) && |s| + rest <= 15
    ensures 0 <= DigitsVal(s) < 0x20_0000_0000_0000
    ensures 0 <= DigitsVal(s) * Pow(10, rest) < 0x20_0000_0000_0000
  {
    hide DigitsVal, Pow;
    DigitsBound(s);
    PowMono(10, |s|, 15);
    PowAdd(10, |s|, rest);
    PowMono(10, |s| + rest, 15);
    MulMono(DigitsVal(s), Pow(10, |s|), Pow(10, rest));
    MulMono(0, DigitsVal(s), Pow(10, rest));
    TenTo15();
  }

  lemma TenTo15()
    ensures Pow(10, 15) < 0x20_0000_0000_0000
  {
    hide Pow;
    PowerEstimate.SmallTens();
    PowAdd(10, 6, 6);
    PowAdd(10, 12, 3);
  }

  /** A quotient of integers by the machine's division. */
  lemma QuotientReads(machine: Machine, a: nat, n: nat, b: nat, k: nat)
    requires machine.Rounds() && IsInteger(a, n) && IsInteger(b, Pow(10, k)) && 0 < b && 0 < k
    ensures IsDouble(machine.divide(a, b)) && ReadsAs(n, 0 - k, machine.divide(a, b))
  {
    hide RoundsToDouble, Pow, Scaled;
    Pow1(10);
    RoundsScaled(n, Pow(10, k), Pow(2, 1074), machine.divide(a, b));
  }

  lemma ProductRounds(machine: Machine, a: nat, n: nat, b: nat, m: nat)
    requires machine.Rounds() && IsInteger(a, n) && IsInteger(b, m)
    ensures IsDouble(machine.multiply(a, b)) && RoundsToDouble(n * m, 1, machine.multiply(a, b))
  {
    hide RoundsToDouble, Pow, Scaled;
    PowAdd(2, 1074, 1074);
    var p := Pow(2, 1074);
    ProductArith(n, m, p);
    RoundsScaled(n * m, 1, Pow(2, 2148), machine.multiply(a, b));
  }

  lemma ProductArith(n: int, m: int, p: int)
    ensures (n * p) * (m * p) == (n * m) * (p * p)
  {
  }

  lemma ProductReads(machine: Machine, a: nat, n: nat, b: nat, k: nat)
    requires machine.Rounds() && IsInteger(a, n) && IsInteger(b, Pow(10, k))
    ensures IsDouble(machine.multiply(a, b)) && ReadsAs(n, k, machine.multiply(a, b))
  {
    hide RoundsToDouble, Pow, Scaled;
    Pow1(10);
    ProductRounds(machine, a, n, b, Pow(10, k));
  }

  /** At most 15 digits and a small power of ten: one operation on exact operands, or an exact one before it. */
  method DoubleStrtod(trimmed: seq<char>, exponent: int, machine: Machine)
    returns (ok: bool, result: nat)
    requires AllDigits(trimmed) && trimmed != [] && machine.IsIeee()
    ensures IsDouble(result) && (ok ==> ReadsAs(DigitsVal(trimmed), exponent, result))
  {
    hide DigitsVal, Pow, IsInteger, ReadsAs, RoundsToDouble, Machine.Rounds;
    ok, result := false, 0;
    if !machine.correctDoubleOperations { return; }
    if |trimmed| <= MAX_EXACT_DOUBLE_INTEGER_DECIMAL_DIGITS {
      FifteenDigits(trimmed, 0);
      var n := ReadAll(trimmed);
      PowerCount();
      if exponent < 0 && -exponent < EXACT_POWERS_OF_TEN_SIZE {
        ExactOperand(machine, n);
        PowerIsExact(-exponent);
        PowerPositive(-exponent);
        QuotientReads(machine, machine.convert(n), n, EXACT_POWERS_OF_TEN[-exponent], -exponent);
        return true, machine.divide(machine.convert(n), EXACT_POWERS_OF_TEN[-exponent]);
      }
      if 0 <= exponent < EXACT_POWERS_OF_TEN_SIZE {
        ExactOperand(machine, n);
        PowerIsExact(exponent);
        ProductReads(machine, machine.convert(n), n, EXACT_POWERS_OF_TEN[exponent], exponent);
        return true, machine.multiply(machine.convert(n), EXACT_POWERS_OF_TEN[exponent]);
      }
      var remainingDigits := MAX_EXACT_DOUBLE_INTEGER_DECIMAL_DIGITS - |trimmed|;
      if 0 <= exponent && exponent - remainingDigits < EXACT_POWERS_OF_TEN_SIZE {
        result := TwoProducts(trimmed, n, exponent, remainingDigits, machine);
        ok := true;
      }
    }
  }

  method TwoProducts(trimmed: seq<char>, n: nat, exponent: nat, rest: nat, machine: Machine) returns (result: nat)
    requires machine.Rounds() && AllDigits(trimmed) && n == DigitsVal(trimmed) && |trimmed| + rest <= 15
    requires rest <= exponent && exponent - rest <= 22
    ensures IsDouble(result) && ReadsAs(n, exponent, result)
  {
    hide DigitsVal, Pow, IsInteger, ReadsAs, RoundsToDouble, Machine.Rounds;
    PowerCount();
    FifteenDigits(trimmed, rest);
    FifteenDigits(trimmed, 0);
    ExactOperand(machine, n);
    PowerIsExact(rest);
    PowerIsExact(exponent - rest);
    ProductRounds(machine, machine.convert(n), n, EXACT_POWERS_OF_TEN[rest], Pow(10, rest));
    result := machine.multiply(machine.convert(n), EXACT_POWERS_OF_TEN[rest]);
    ExactInteger(n * Pow(10, rest), result);
    ProductReads(machine, result, n * Pow(10, rest), EXACT_POWERS_OF_TEN[exponent - rest], exponent - rest);
    result := machine.multiply(result, EXACT_POWERS_OF_TEN[exponent - rest]);
    SameNumber(n, exponent - rest, rest, result);
  }

  lemma ExactOperand(machine: Machine, n: nat)
    requires machine.Rounds() && n < 0x20_0000_0000_0000
    ensures IsInteger(machine.convert(n), n)
  {
    hide RoundsToDouble, IsInteger;
    ExactInteger(n, machine.convert(n));
  }

  lemma PowerPositive(k: nat)
    requires k <= 22 && |EXACT_POWERS_OF_TEN| == 23 && IsInteger(EXACT_POWERS_OF_TEN[k], Pow(10, k))
    ensures 0 < EXACT_POWERS_OF_TEN[k]
  {
    hide Pow;
    if EXACT_POWERS_OF_TEN[k] == 0 {
      ZeroIsInteger();
      MulStrict(0, Pow(10, k), Pow(2, 1074));
    }
  }

  /** All of at most 15 digits are read. */
  method ReadAll(s: seq<char>) returns (n: uint64)
    requires AllDigits(s) && 0 < |s| <= 15
    ensures n == DigitsVal(s)
  {
    hide DigitsVal, Pow;
    var readDigits;
    n, readDigits := FastStrtod.ReadUint64(s);
    FifteenDigits(s[..readDigits], 0);
    Pow1(10);
    assert s[..|s|] == s;
  }
}
