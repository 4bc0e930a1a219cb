/** The power of ten that the exact conversions start from: estimated from the binary exponent, right or one too low. */
module PowerEstimate {
  import opened Arith
  import opened StartValues
  import opened CachedPowers
  import ExactDtoa

  const ONE_LOG10 := 0.30102999566398114

  /** The exponent with all 53 bits of the significand used. */
  method NormalizedExponent(significand0: nat, exponent0: int) returns (exponent: int)
    requires 0 < significand0 < 0x20_0000_0000_0000
    ensures exponent <= exponent0
    ensures 0x10_0000_0000_0000 <= significand0 * Pow(2, exponent0 - exponent) < 0x20_0000_0000_0000
  {
    hide Pow;
    Pow1(2);
    var significand := significand0;
    exponent := exponent0;
    while significand / 0x10_0000_0000_0000 % 2 == 0
      invariant exponent <= exponent0 && 0 < significand < 0x20_0000_0000_0000
      invariant significand == significand0 * Pow(2, exponent0 - exponent)
      decreases 0x20_0000_0000_0000 - significand
    {
      HiddenBit(significand);
      PowSucc(2, exponent0 - exponent);
      MulAssoc(significand0, 2, Pow(2, exponent0 - exponent));
      significand := significand * 2;
      exponent := exponent - 1;
    }
    HiddenBit(significand);
  }

  lemma HiddenBit(f: int)
    requires 0 < f < 0x20_0000_0000_0000
    ensures f / 0x10_0000_0000_0000 % 2 == 0 <==> f < 0x10_0000_0000_0000
  {
    DivMod(f, 0x10_0000_0000_0000);
  }

  /** The floating-point product and difference are off by noise. */
  function EstimatePower(exponent: int, noise: real): int {
    Ceiling((exponent + 52) as real * ONE_LOG10 - 0.0000000001 + noise)
  }

  // ---- 643 / 2136 < lg 2 < 146 / 485

  lemma EntryBounds(c: CachedPower)
    requires IsPower(c) && 0 <= c.binaryExponent && 0 <= c.decimalExponent
    ensures var two, ten := Pow(2, c.binaryExponent), Pow(10, c.decimalExponent);
      (2 * c.significand - 1) * two <= 2 * ten <= (2 * c.significand + 1) * two
  {
    hide Pow;
    Pow1(2);
    Pow1(10);
    RatioParts(c.binaryExponent, c.decimalExponent);
    HalfUnit(c);
  }

  lemma SmallTens()
    ensures Pow(10, 3) == 1000 && Pow(10, 6) == 1_000_000
  {
    hide Pow;
    Pow1(10);
    PowAdd(10, 1, 1);
    PowAdd(10, 1, 2);
    PowAdd(10, 3, 3);
  }

  /** 10^643 = 10^340 * 10^300 * 10^3. */
  lemma LogarithmAbove()
    ensures Pow(10, 643) <= Pow(2, 2136)
  {
    hide Pow;
    var a, b := CachedPower(0xaf87_023b_9bf0_ee6b, 1066, 340), CachedPower(0xbf21_e440_03ac_dd2d, 933, 300);
    HighPowers();
    FromTable();
    EntryBounds(a);
    EntryBounds(b);
    SmallTens();
    PowAdd(10, 340, 300);
    PowAdd(10, 640, 3);
    PowAdd(2, 1066, 933);
    PowAdd(2, 1999, 137);
    PowAdd(2, 64, 64);
    PowAdd(2, 128, 9);
    Pow2Values();
    PowSucc(2, 8);
    ProductBelow(Pow(10, 340), Pow(10, 300), Pow(2, 1066), Pow(2, 933), Pow(2, 137), 2 * a.significand + 1,
                 2 * b.significand + 1);
  }

  lemma ProductBelow(x: int, y: int, s: int, t: int, u: int, a: int, b: int)
    requires 0 < x && 0 < y && 0 < s && 0 < t && 2 * x <= a * s && 2 * y <= b * t
    requires a * b * 250 <= u
    ensures x * y * 1000 <= s * t * u
  {
    MulMono(2 * x, a * s, 2 * y);
    MulMono(2 * y, b * t, a * s);
    assert (2 * x) * (2 * y) == 4 * (x * y) && (a * s) * (b * t) == (a * b) * (s * t);
    MulStrict(0, s, t);
    MulMono(a * b * 250, u, s * t);
    assert (a * b * 250) * (s * t) == 250 * ((a * b) * (s * t));
  }

  /** 10^146 = 10^140 * 10^6. */
  lemma LogarithmBelow()
    ensures Pow(2, 485) <= Pow(10, 146)
  {
    hide Pow;
    var a := CachedPower(0x865b_8692_5b9b_c5c2, 402, 140);
    Upward();
    FromTable();
    EntryBounds(a);
    SmallTens();
    PowAdd(10, 140, 6);
    PowAdd(2, 402, 83);
    PowAdd(2, 64, 16);
    PowAdd(2, 80, 3);
    Pow2Values();
    Pow1(2);
    PowSucc(2, 1);
    PowSucc(2, 2);
    ProductAbove(Pow(10, 140), Pow(2, 402), Pow(2, 83), 2 * a.significand - 1);
  }

  lemma ProductAbove(x: int, s: int, u: int, a: int)
    requires 0 < s && a * s <= 2 * x && 2 * u <= a * 1_000_000
    ensures s * u <= x * 1_000_000
  {
    MulMono(2 * u, a * 1_000_000, s);
    assert (2 * u) * s == 2 * (s * u) && (a * 1_000_000) * s == 1_000_000 * (a * s);
  }

  lemma FromTable()
    ensures |CACHED_POWERS| == 87
    ensures CACHED_POWERS[86] == CachedPower(0xaf87_023b_9bf0_ee6b, 1066, 340)
    ensures CACHED_POWERS[81] == CachedPower(0xbf21_e440_03ac_dd2d, 933, 300)
    ensures CACHED_POWERS[61] == CachedPower(0x865b_8692_5b9b_c5c2, 402, 140)
  {
  }

  lemma {:induction false} PowBaseStrict(a: nat, b: nat, n: nat)
    requires a < b && 0 < n
    ensures Pow(a, n) < Pow(b, n)
  {
    PowBaseMono(a, b, n - 1);
    MulMono(Pow(a, n - 1), Pow(b, n - 1), a);
    MulStrict(a, b, Pow(b, n - 1));
  }

  lemma TenAtMostTwo(a: nat, n: nat)
    requires a * 2136 <= n * 643
    ensures Pow(10, a) <= Pow(2, n)
  {
    hide Pow;
    LogarithmAbove();
    PowPow(10, a, 2136);
    PowMono(10, a * 2136, 643 * n);
    PowPow(10, 643, n);
    PowBaseMono(Pow(10, 643), Pow(2, 2136), n);
    PowPow(2, 2136, n);
    PowPow(2, n, 2136);
    assert 2136 * n == n * 2136;
    if Pow(2, n) < Pow(10, a) { PowBaseStrict(Pow(2, n), Pow(10, a), 2136); }
  }

  lemma TwoAtMostTen(n: nat, a: nat)
    requires n * 146 <= a * 485
    ensures Pow(2, n) <= Pow(10, a)
  {
    hide Pow;
    LogarithmBelow();
    PowPow(2, n, 485);
    PowPow(2, 485, n);
    PowBaseMono(Pow(2, 485), Pow(10, 146), n);
    PowPow(10, 146, n);
    PowMono(10, 146 * n, a * 485);
    PowPow(10, a, 485);
    assert 485 * n == n * 485;
    if Pow(10, a) < Pow(2, n) { PowBaseStrict(Pow(10, a), Pow(2, n), 485); }
  }

  // ---- The estimate against powers

  /** 10^a <= 2^n if a is below n * lg 2 as far as the constant tells: no fraction with a denominator up to 1100 lies
      between the constant and lg 2. */
  lemma PowerBelow(n: int, a: int)
    requires -1100 <= n <= 1100 && a as real < n as real * ONE_LOG10
    ensures Den(n, a) <= Num(1, n, a)
  {
    hide Pow;
    RatioParts(n, a);
    Pow1(2);
    Pow1(10);
    if n >= 0 && a >= 0 {
      NoFractionAbove(n, a);
      TenAtMostTwo(a, n);
    } else if n < 0 {
      NoFractionBelow(-n, -a);
      TwoAtMostTen(-n, -a);
    } else {
      MulMono(1, Pow(2, n), Pow(10, -a));
    }
  }

  lemma NoFractionAbove(n: nat, a: nat)
    requires n <= 1100 && a as real < n as real * ONE_LOG10
    ensures a * 2136 <= n * 643
  {
    assert 485 * a < 146 * n;
    assert n == 2136 * (146 * n - 485 * a) + 485 * (2136 * a - 643 * n);
  }

  lemma NoFractionBelow(n: nat, a: int)
    requires 0 < n <= 1100 && n as real * ONE_LOG10 < a as real
    ensures 0 <= a && n * 146 <= a * 485
  {
    assert 643 * n < 2136 * a;
    assert n == 2136 * (146 * n - 485 * a) + 485 * (2136 * a - 643 * n);
  }

  /** 2^n <= 10^a if a is clearly above n * lg 2. */
  lemma PowerAbove(n: int, a: int)
    requires -1100 <= n <= 1100 && n as real * ONE_LOG10 + 0.5 <= a as real
    ensures Num(1, n, a) <= Den(n, a)
  {
    hide Pow;
    RatioParts(n, a);
    Pow1(2);
    Pow1(10);
    if n >= 0 {
      TwoAtMostTen(n, a);
    } else if a < 0 {
      TenAtMostTwo(-a, -n);
    } else {
      MulMono(1, Pow(2, -n), Pow(10, a));
    }
  }

  /** The estimate is what the exact conversions rely on. */
  lemma EstimateIsOk(f: nat, e: int, e': int, noise: real)
    requires 0 < f && -1074 <= e <= 971 && e' <= e
    requires 0x10_0000_0000_0000 <= f * Pow(2, e - e') < 0x20_0000_0000_0000
    requires -0.0000000001 < noise < 0.0000000001
    ensures ExactDtoa.EstimateOk(f, e, EstimatePower(e', noise))
  {
    hide Pow, Num, Den;
    var n, k := e' + 52, EstimatePower(e', noise);
    var bits := BitLength(f, e - e');
    assert n == e + bits - 1;
    PowerBelow(n, k - 1);
    PowerAbove(n + 1, k + 1);
    LowerSide(f, e, bits, k);
    UpperSide(f, e, bits, k);
  }

  lemma BitLength(f: nat, shift: nat) returns (bits: nat)
    requires 0x10_0000_0000_0000 <= f * Pow(2, shift) < 0x20_0000_0000_0000
    ensures 1 <= bits == 53 - shift && Pow(2, bits - 1) <= f < Pow(2, bits)
  {
    hide Pow;
    TwoTo52();
    if shift > 52 {
      PowMono(2, 53, shift);
      MulMono(1, f, Pow(2, shift));
    }
    bits := 53 - shift;
    PowAdd(2, bits, shift);
    PowAdd(2, bits - 1, shift);
    MulCancel(f, Pow(2, bits), Pow(2, shift));
    MulCancel(Pow(2, bits - 1), f, Pow(2, shift));
  }

  lemma TwoTo52()
    ensures Pow(2, 52) == 0x10_0000_0000_0000 && Pow(2, 53) == 0x20_0000_0000_0000
  {
    hide Pow;
    Pow2Values();
    PowAdd(2, 32, 16);
    PowAdd(2, 48, 4);
    PowSucc(2, 52);
  }

  lemma LowerSide(f: nat, e: int, bits: nat, k: int)
    requires 0 < f && 1 <= bits && Pow(2, bits - 1) <= f && Den(e + bits - 1, k - 1) <= Num(1, e + bits - 1, k - 1)
    ensures Den(e, k) <= 10 * Num(f, e, k)
  {
    hide Pow, Num, Den;
    var n := e + bits - 1;
    RatioMoves(e, k - 1, bits - 1, 0);
    RatioMoves(e, k - 1, 0, 1);
    Pow1(2);
    Pow1(10);
    ExactDtoa.NumGrows(f, e, k);
    FirstBound(Num(1, e, k - 1), Den(e, k - 1), Num(1, n, k - 1), Den(n, k - 1), Pow(2, bits - 1), f);
    NextTen(Num(1, e, k - 1), Den(e, k - 1), Num(1, e, k), Den(e, k), f);
  }

  lemma FirstBound(u: int, d: int, n: int, m: int, s: int, f: int)
    requires 0 < n && 0 < u && 0 < s <= f && m <= n && m * u * s == d * n * 1
    ensures d <= f * u
  {
    MulStrict(0, u, s);
    MulMono(m, n, u * s);
    assert m * (u * s) == d * n && n * (u * s) == (u * s) * n;
    MulCancel(u * s, d, n);
    MulMono(s, f, u);
  }

  lemma NextTen(u: int, d: int, u': int, d': int, f: int)
    requires 0 < u && 0 < u' && d <= f * u && d' * u * 1 == d * u' * 10
    ensures d' <= 10 * (f * u')
  {
    MulMono(d, f * u, 10 * u');
    assert (f * u) * (10 * u') == (10 * (f * u')) * u;
    MulCancel(10 * (f * u'), d', u);
  }

  lemma UpperSide(f: nat, e: int, bits: nat, k: int)
    requires 0 < f < Pow(2, bits) && Num(1, e + bits, k + 1) <= Den(e + bits, k + 1)
    ensures 2 * Num(f, e, k) + Num(1, e, k) < 20 * Den(e, k)
  {
    hide Pow, Num, Den;
    RatioMoves(e, k, bits, 1);
    Pow1(10);
    ExactDtoa.NumGrows(f, e, k);
    LastBound(Num(1, e, k), Den(e, k), Num(1, e + bits, k + 1), Den(e + bits, k + 1), Pow(2, bits), f);
  }

  lemma LastBound(u: int, d: int, n: int, m: int, s: int, f: int)
    requires 0 < n && 0 < u && 0 < f < s && n <= m && m * u * s == d * n * 10
    ensures 2 * (f * u) + u < 20 * d
  {
    MulStrict(0, u, s);
    MulMono(n, m, u * s);
    assert m * (u * s) == (10 * d) * n && n * (u * s) == (u * s) * n;
    MulCancel(10 * d, u * s, n);
    MulMono(f + 1, s, u);
  }
}
