/** The exact double-to-decimal conversion as a whole: scaled start values, fix-up, and the digit generators. */
module ExactDtoa {
  import opened Arith
  import opened BigitSeq
  import opened Decimal
  import opened BignumModel
  import opened ShortestSpec
  import opened BignumDtoa
  import opened CountedDtoa
  import opened StartValues

  /** What is known of the estimated power k of v = f * 2^e: 10^(k-1) <= v, and the upper boundary of v is below
      10^(k+1). So k is the power wanted or one too low. */
  ghost predicate EstimateOk(f: nat, e: int, k: int) {
    && -324 <= k <= 308
    && Den(e, k) <= 10 * Num(f, e, k)
    && 2 * Num(f, e, k) + Num(1, e, k) < 20 * Den(e, k)
  }

  /** v / 10^t with the exact distances to the midpoints of its neighbours. */
  ghost function Exact(f: nat, e: int, closer: bool, t: int): Interval {
    Interval(4 * Num(f, e, t), 4 * Den(e, t), (if closer then 1 else 2) * Num(1, e, t), 2 * Num(1, e, t), f % 2 == 0)
  }

  /** v * 10^places, rounded half up to an integer. */
  ghost function RoundV(f: nat, e: int, places: int): int {
    RoundHalfUp(Num(f, e, -places), Den(e, -places))
  }

  // ---- Changing the power of ten

  /** The ratios v / 10^t and v / 10^(t + n) differ by 10^n. */
  lemma ChangePower(f: nat, e: int, t: int, n: nat)
    ensures Num(f, e, t) * Den(e, t + n) == Pow(10, n) * (Num(f, e, t + n) * Den(e, t))
  {
    hide Pow;
    TenPowers(t, n);
    ChangeArith(f * Pow(2, Max(e, 0)), Pow(2, Max(-e, 0)), Pow(10, Max(-t, 0)), Pow(10, Max(t + n, 0)),
                Pow(10, Max(-t - n, 0)), Pow(10, Max(t, 0)), Pow(10, n));
  }

  lemma TenPowers(t: int, n: nat)
    ensures Pow(10, Max(-t, 0)) * Pow(10, Max(t + n, 0)) ==
            Pow(10, n) * (Pow(10, Max(-t - n, 0)) * Pow(10, Max(t, 0)))
  {
    hide Pow;
    PowAdd(10, Max(-t, 0), Max(t + n, 0));
    PowAdd(10, Max(-t - n, 0), Max(t, 0));
    PowAdd(10, n, Max(-t - n, 0) + Max(t, 0));
  }

  lemma ChangeArith(x: int, y: int, a: int, b': int, a': int, b: int, s: int)
    requires a * b' == s * (a' * b)
    ensures (x * a) * (y * b') == s * ((x * a') * (y * b))
  {
  }

  /** One step in the power of ten: either the denominator loses a ten or the numerators gain one. */
  lemma PreviousPower(f: nat, e: int, k: int)
    ensures k > 0 ==> Num(f, e, k - 1) == Num(f, e, k) && Den(e, k) == 10 * Den(e, k - 1)
    ensures k <= 0 ==> Num(f, e, k - 1) == 10 * Num(f, e, k) && Den(e, k) == Den(e, k - 1)
  {
  }

  // ---- Intervals in different units

  ghost function Times(c: int, iv: Interval): Interval {
    Interval(c * iv.n, c * iv.d, c * iv.minus, c * iv.plus, iv.even)
  }

  lemma SameFits(iv: Interval, c: int, q: int, k: nat)
    requires 0 < c
    ensures Times(c, iv).Fits(q, k) == iv.Fits(q, k)
    ensures Times(c, iv).Distance(q, k) == c * iv.Distance(q, k)
  {
    var s := Pow(10, k);
    MulAssoc(c, iv.n, s);
    MulAssoc(c, iv.minus, s);
    MulAssoc(c, iv.plus, s);
    MulAssoc(q, c, iv.d);
    MulAssoc(c, q, iv.d);
    assert q * (c * iv.d) == c * (q * iv.d);
    SameRoom(c, iv.n * s, iv.minus * s, iv.plus * s, q * iv.d);
  }

  lemma SameRoom(c: int, v: int, m: int, p: int, x: int)
    requires 0 < c
    ensures c * v - c * m <= c * x <==> v - m <= x
    ensures c * v - c * m < c * x <==> v - m < x
    ensures c * x <= c * v + c * p <==> x <= v + p
    ensures c * x < c * v + c * p <==> x < v + p
    ensures Abs(c * x - c * v) == c * Abs(x - v)
  {
  }

  lemma SameShortest(iv: Interval, c: int, q: int, k: nat)
    requires 0 < c
    ensures IsShortest(Times(c, iv), q, k) <==> IsShortest(iv, q, k)
  {
    var w := Times(c, iv);
    hide Interval.Fits, Interval.Distance;
    SameFits(iv, c, q, k);
    forall q', k': nat ensures w.Fits(q', k') == iv.Fits(q', k') { SameFits(iv, c, q', k'); }
    forall q' ensures w.Distance(q, k) <= w.Distance(q', k) <==> iv.Distance(q, k) <= iv.Distance(q', k)
      ensures w.Distance(q, k) == w.Distance(q', k) <==> iv.Distance(q, k) == iv.Distance(q', k)
    {
      SameFits(iv, c, q', k);
      MulCancel(iv.Distance(q, k), iv.Distance(q', k), c);
    }
  }

  // ---- Shortest mode

  /** After the fix-up: the interval held by the bignums is, up to a common factor, the exact one at the decimal
      point that was chosen, and it meets the precondition of the digit loop. */
  lemma FixedUp(f: nat, e: int, closer: bool, k: int, point: int, n: int, d: int, m: int, p: int,
                n': int, m': int, p': int)
    requires 0 < f && EstimateOk(f, e, k)
    requires ScaledStartIs(f, e, closer, k, true, n, d, m, p)
    requires point == k + 1 <==> if f % 2 == 0 then d <= n + p else d < n + p
    requires point == k || point == k + 1
    requires var c := if point == k then 10 else 1; n' == c * n && m' == c * m && p' == c * p
    ensures var iv := Interval(n', d, m', p', f % 2 == 0);
      && iv.BelowTen() && iv.AtLeastOne()
      && Exact(f, e, closer, point - 1).BelowTen() && Exact(f, e, closer, point - 1).AtLeastOne()
      && forall q, j: nat :: IsShortest(iv, q, j) <==> IsShortest(Exact(f, e, closer, point - 1), q, j)
  {
    hide Num, Den, IsShortest;
    NumGrows(f, e, k);
    PreviousPower(f, e, k);
    PreviousPower(1, e, k);
    var t := point - 1;
    FixedUpCase(Num(f, e, k), Num(1, e, k), Den(e, k), Num(f, e, t), Num(1, e, t), Den(e, t), closer,
                f % 2 == 0, point == k, k > 0, n', d, m', p');
  }

  ghost function Exactly(v: int, u: int, d: int, closer: bool, even: bool): Interval {
    Interval(4 * v, 4 * d, (if closer then 1 else 2) * u, 2 * u, even)
  }

  /** The same for a numerator v, unit u and denominator d at the estimated power, and v', u', d' at the power
      of the decimal point chosen. */
  lemma FixedUpCase(v: int, u: int, d: int, v': int, u': int, d': int, closer: bool, even: bool,
                    low: bool, positive: bool, n: int, dd: int, m: int, p: int)
    requires 0 < u <= v && 0 < d <= 10 * v && 2 * v + u < 20 * d
    requires if !low then v' == v && u' == u && d' == d
             else if positive then v' == v && u' == u && d == 10 * d'
             else v' == 10 * v && u' == 10 * u && d' == d
    requires low <==> if even then 4 * v + 2 * u < 4 * d else 4 * v + 2 * u <= 4 * d
    requires var c, w := if low then 10 else 1, if closer then 2 else 1;
      n == c * (w * (2 * v)) && dd == w * (2 * d) && m == c * u && p == c * (w * u)
    ensures var iv, ex := Interval(n, dd, m, p, even), Exactly(v', u', d', closer, even);
      && iv.BelowTen() && iv.AtLeastOne() && ex.BelowTen() && ex.AtLeastOne()
      && forall q, j: nat :: IsShortest(iv, q, j) <==> IsShortest(ex, q, j)
  {
    hide IsShortest, Times;
    var base := if closer then Interval(4 * v', 4 * d', u', 2 * u', even) else Interval(2 * v', 2 * d', u', u', even);
    var c := if low && positive then 10 else 1;
    assert base.BelowTen() && base.AtLeastOne();
    if c == 10 { TimesIs(10, base, n, dd, m, p); } else { TimesIs(1, base, n, dd, m, p); }
    if closer {
      TimesIs(1, base, 4 * v', 4 * d', u', 2 * u');
    } else {
      TimesIs(2, base, 4 * v', 4 * d', 2 * u', 2 * u');
    }
    Proportional(base, c, if closer then 1 else 2);
  }

  lemma TimesIs(c: int, iv: Interval, n: int, d: int, m: int, p: int)
    requires c in {1, 2, 10} && n == c * iv.n && d == c * iv.d && m == c * iv.minus && p == c * iv.plus
    requires iv.BelowTen() && iv.AtLeastOne()
    ensures Times(c, iv) == Interval(n, d, m, p, iv.even)
    ensures Times(c, iv).BelowTen() && Times(c, iv).AtLeastOne()
  {
    if c == 1 {} else if c == 2 {} else {}
  }

  /** Multiples of one interval have the same shortest decimals. */
  lemma Proportional(base: Interval, a: int, b: int)
    requires 0 < a && 0 < b
    ensures forall q, j: nat :: IsShortest(Times(a, base), q, j) <==> IsShortest(Times(b, base), q, j)
  {
    hide IsShortest;
    forall q, j: nat ensures IsShortest(Times(a, base), q, j) <==> IsShortest(Times(b, base), q, j) {
      SameShortest(base, a, q, j);
      SameShortest(base, b, q, j);
    }
  }

  lemma NumGrows(f: nat, e: int, k: int)
    requires 0 < f
    ensures 0 < Num(1, e, k) <= Num(f, e, k) == f * Num(1, e, k) && 0 < Den(e, k)
  {
    var x, y := Pow(2, Max(e, 0)), Pow(10, Max(-k, 0));
    MulStrict(0, x, y);
    MulAssoc(f, x, y);
    assert Num(1, e, k) == x * y;
    MulMono(1, f, x * y);
  }

  /** e >= 0 forces a non-negative power. */
  lemma PositivePower(f: nat, e: int, k: int)
    requires 0 < f && e >= 0 && EstimateOk(f, e, k)
    ensures k >= 0
  {
  }

  /** Seventeen digits are always enough for a double. */
  lemma SeventeenDigits(f: nat, e: int, closer: bool, k: int, point: int, n: int, d: int, m: int, p: int, c: int)
    requires 0 < f < 0x20_0000_0000_0000 && (closer ==> f <= 0x10_0000_0000_0000)
    requires ScaledStartIs(f, e, closer, k, true, n, d, m, p)
    requires c > 0 && d <= c * n + c * p
    ensures d < (c * m + c * p) * Pow(10, 16)
  {
    hide Num, Den, Pow;
    NumGrows(f, e, k);
    TenTo16();
    var w := c * Num(1, e, k);
    MulStrict(0, Num(1, e, k), c);
    ScaledBy(c, f, Num(1, e, k));
    MulMono(f, if closer then 0x10_0000_0000_0000 else 0x1f_ffff_ffff_ffff, w);
    EnoughDigits(closer, f * w, w, d, if closer then c * n else 2 * (f * w), c * m, c * p);
  }

  lemma ScaledBy(c: int, f: int, u: int)
    ensures c * (f * u) == f * (c * u) && c * (2 * (f * u)) == 2 * (f * (c * u))
    ensures c * (4 * (f * u)) == 4 * (f * (c * u)) && c * (2 * u) == 2 * (c * u)
  {
  }

  lemma EnoughDigits(closer: bool, fw: int, w: int, d: int, n: int, m: int, p: int)
    requires 0 < w && fw <= (if closer then 0x10_0000_0000_0000 else 0x1f_ffff_ffff_ffff) * w
    requires if closer then n == 4 * fw && m == w && p == 2 * w else n == 2 * fw && m == w && p == w
    requires d <= n + p
    ensures d < (m + p) * 10_000_000_000_000_000
  {
  }

  lemma TenTo16()
    ensures Pow(10, 16) == 10_000_000_000_000_000
  {
    hide Pow;
    Pow1(10);
    PowAdd(10, 1, 1);
    PowAdd(10, 2, 2);
    PowAdd(10, 4, 4);
    PowAdd(10, 8, 8);
  }

  /** The shortest digits that read back as v: at most seventeen of them, without a leading zero. */
  method ShortestDtoa(f: nat, e: int, closer: bool, k: int, buffer: array<char>)
    returns (length: nat, decimalPoint: int)
    requires 0 < f && InRange(f, e, k) && EstimateOk(f, e, k) && (closer ==> f <= 0x10_0000_0000_0000)
    requires 18 <= buffer.Length
    modifies buffer
    ensures 0 < length <= 17 && AllDigits(buffer[..length]) && buffer[0] != '0' && buffer[length] == '\0'
    ensures Exact(f, e, closer, decimalPoint - 1).BelowTen() && Exact(f, e, closer, decimalPoint - 1).AtLeastOne()
    ensures IsShortest(Exact(f, e, closer, decimalPoint - 1), DigitsVal(buffer[..length]), length - 1)
  {
    hide P, Num, Den, Pow, IsShortest, Exact, ScaledStartIs, Bignum.Value, Bignum.Shape, Bignum.IsClamped;
    if e >= 0 { PositivePower(f, e, k); }
    var isEven := f % 2 == 0;
    var numerator, denominator, deltaMinus, deltaPlus := StartForDigits(f, e, closer, k, true);
    ghost var n, d, m, p := numerator.Value(), denominator.Value(), deltaMinus.Value(), deltaPlus.Value();
    decimalPoint := FixupMultiply10(k, isEven, numerator, denominator, deltaMinus, deltaPlus);
    ghost var c := if decimalPoint == k then 10 else 1;
    FixedUp(f, e, closer, k, decimalPoint, n, d, m, p, numerator.Value(), deltaMinus.Value(), deltaPlus.Value());
    SeventeenDigits(f, e, closer, k, decimalPoint, n, d, m, p, c);
    length := GenerateShortestDigits(numerator, denominator, deltaMinus, deltaPlus, isEven, buffer, 17);
    buffer[length] := '\0';
  }

  /** The four bignums of BignumDtoa with their start values. */
  method StartForDigits(f: nat, e: int, closer: bool, k: int, needDeltas: bool)
    returns (numerator: Bignum, denominator: Bignum, deltaMinus: Bignum, deltaPlus: Bignum)
    requires InRange(f, e, k) && (e >= 0 ==> k >= 0)
    ensures fresh(Parts(numerator, denominator, deltaMinus, deltaPlus))
    ensures Small(numerator) && Small(denominator) && Small(deltaMinus) && Small(deltaPlus)
    ensures Distinct(numerator, denominator) && Distinct(numerator, deltaMinus) && Distinct(numerator, deltaPlus)
    ensures Distinct(denominator, deltaMinus) && Distinct(denominator, deltaPlus) && Distinct(deltaMinus, deltaPlus)
    ensures ScaledStartIs(f, e, closer, k, needDeltas,
                          numerator.Value(), denominator.Value(), deltaMinus.Value(), deltaPlus.Value())
  {
    hide P, Num, Den, Bignum.Value, Bignum.Shape, Bignum.IsClamped;
    numerator := new Bignum();
    denominator := new Bignum();
    deltaMinus := new Bignum();
    deltaPlus := new Bignum();
    InitialScaledStartValues(f, e, closer, k, needDeltas, numerator, denominator, deltaMinus, deltaPlus);
    StartRoom(f, e, k);
    Capacity91(Num(f, e, k));
    Capacity91(Den(e, k));
    Capacity91(Num(1, e, k));
  }

  // ---- Fixed and precision modes

  /** An odd significand of full size is never a power of ten, so the strict comparison of the fix-up does not
      leave a quotient of ten behind. */
  lemma OddIsNoPowerOfTen(f: nat, e: int, k: int)
    requires f % 2 == 1 && -1074 <= e && (0x10_0000_0000_0000 <= f || e < 0) && f < 0x20_0000_0000_0000
    requires e >= 0 ==> k >= 0
    ensures Num(f, e, k) != Den(e, k)
  {
    hide Pow;
    StartCases(f, e, k);
    if Num(f, e, k) == Den(e, k) {
      if e >= 0 {
        PowProduct(2, 5, k);
        OddTimesPower(f, e, k);
      } else if k >= 0 {
        EvenProduct(-e, Pow(10, k));
      } else {
        PowSucc(10, -k - 1);
        FiveTimes(f, Pow(10, -k - 1));
        TwoNotFive(-e);
      }
    }
  }

  /** f * 2^e == 2^k * 5^k for an odd f only if f is a power of five. */
  lemma OddTimesPower(f: nat, e: nat, k: nat)
    requires f % 2 == 1 && Pow(2, e) * f == Pow(2, k) * Pow(5, k)
    ensures f < 0x10_0000_0000_0000 || 0x20_0000_0000_0000 < f
  {
    hide Pow;
    OddFive(k);
    if e < k {
      PowAdd(2, e, k - e);
      MulAssoc(Pow(2, e), Pow(2, k - e), Pow(5, k));
      CancelTwos(f, Pow(2, e), Pow(2, k - e) * Pow(5, k));
      EvenProduct(k - e, Pow(5, k));
    } else if e > k {
      PowAdd(2, k, e - k);
      MulAssoc(Pow(2, k), Pow(2, e - k), f);
      CancelTwos(Pow(5, k), Pow(2, k), Pow(2, e - k) * f);
      EvenProduct(e - k, f);
    } else {
      CancelTwos(f, Pow(2, e), Pow(5, k));
      FiveSizes(k);
    }
  }

  lemma CancelTwos(a: int, p: int, b: int)
    requires 0 < p && p * a == p * b
    ensures a == b
  {
  }

  lemma EvenProduct(n: nat, x: nat)
    requires n > 0
    ensures (Pow(2, n) * x) % 2 == 0
  {
    PowSucc(2, n - 1);
    MulAssoc(2, Pow(2, n - 1), x);
    DivModUnique(Pow(2, n) * x, 2, Pow(2, n - 1) * x, 0);
  }

  lemma {:induction false} OddFive(n: nat)
    ensures Pow(5, n) % 2 == 1
  {
    if n > 0 {
      OddFive(n - 1);
      PowSucc(5, n - 1);
    }
  }

  lemma FiveTimes(f: nat, x: nat)
    ensures (f * (10 * x)) % 5 == 0
  {
    assert f * (10 * x) == (2 * (f * x)) * 5;
    DivModUnique(f * (10 * x), 5, 2 * (f * x), 0);
  }

  lemma {:induction false} TwoNotFive(n: nat)
    ensures Pow(2, n) % 5 != 0
  {
    if n > 0 {
      TwoNotFive(n - 1);
      PowSucc(2, n - 1);
    }
  }

  /** No power of five lies between 2^52 and 2^53. */
  lemma FiveSizes(k: nat)
    ensures Pow(5, k) < 0x10_0000_0000_0000 || 0x20_0000_0000_0000 < Pow(5, k)
  {
    hide Pow;
    FivePowers();
    PowAdd(5, 11, 11);
    PowSucc(5, 22);
    assert FIVE1_TO_12[10] == Pow(5, 11);
    if k <= 22 { PowMono(5, k, 22); } else { PowMono(5, 23, k); }
  }

  /** Rounding only depends on the ratio. */
  lemma SameRatio(n: int, d: int, n': int, d': int)
    requires 0 < d && 0 < d' && n * d' == n' * d
    ensures RoundHalfUp(n, d) == RoundHalfUp(n', d')
  {
    hide RoundHalfUp;
    DivMod(n, d);
    DivMod(n', d');
    RoundHalfUpIs(n, d, n / d, n % d);
    RoundHalfUpIs(n', d', n' / d', n' % d');
    ScaledDivision(n, d, d');
    ScaledDivision(n', d', d);
    DivModUnique(n * d', d * d', n / d, (n % d) * d');
    DivModUnique(n' * d, d * d', n' / d', (n' % d') * d);
  }

  lemma ScaledDivision(n: int, d: int, s: int)
    requires 0 < d && 0 < s
    ensures 0 < d * s && d * s == s * d
    ensures n * s == (n / d) * (d * s) + (n % d) * s && 0 <= (n % d) * s < d * s
    ensures 2 * (n % d) >= d <==> 2 * ((n % d) * s) >= d * s
  {
    DivMod(n, d);
    MulStrict(0, d, s);
    ScaledParts(n / d, n % d, d, s);
  }

  lemma ScaledParts(q: int, r: int, d: int, s: int)
    requires 0 <= r < d && 0 < s
    ensures (q * d + r) * s == q * (d * s) + r * s && 0 <= r * s < d * s
    ensures 2 * r >= d <==> 2 * (r * s) >= d * s
  {
    MulAssoc(q, d, s);
    MulMono(0, r, s);
    MulStrict(r, d, s);
    MulAssoc(2, r, s);
    if 2 * r >= d { MulMono(d, 2 * r, s); } else { MulStrict(2 * r, d, s); }
  }

  /** Scaling n/d = v / 10^t by 10^j gives v * 10^(j - t). */
  lemma RoundScaledIsRoundV(f: nat, e: int, t: int, j: int, c: int)
    requires c > 0
    ensures 0 < c * Den(e, t) && RoundScaled(c * Num(f, e, t), c * Den(e, t), j) == RoundV(f, e, j - t)
  {
    hide RoundHalfUp, Num, Den, Pow;
    var n, d := Num(f, e, t), Den(e, t);
    MulStrict(0, d, c);
    var u := t - j;
    var n', d' := Num(f, e, u), Den(e, u);
    if j >= 0 {
      var s := Pow(10, j);
      ChangePower(f, e, u, j);
      assert n' * d == s * (n * d');
      RatioUp(n, d, n', d', s, c);
      SameRatio(c * n * s, c * d, n', d');
    } else {
      var s := Pow(10, -j);
      ChangePower(f, e, t, -j);
      assert n * d' == s * (n' * d);
      RatioDown(n, d, n', d', s, c);
      MulStrict(0, c * d, s);
      SameRatio(c * n, c * d * s, n', d');
    }
  }

  lemma RatioUp(n: int, d: int, n': int, d': int, s: int, c: int)
    requires n' * d == s * (n * d')
    ensures (c * n * s) * d' == n' * (c * d)
  {
  }

  lemma RatioDown(n: int, d: int, n': int, d': int, s: int, c: int)
    requires n * d' == s * (n' * d)
    ensures (c * n) * d' == n' * (c * d * s)
  {
  }

  /** Start values and fix-up for the modes without deltas: v / 10^(point - 1) lies between one and ten. */
  method FixedStart(f: nat, e: int, k: int)
    returns (numerator: Bignum, denominator: Bignum, decimalPoint: int, ghost c: int)
    requires 0 < f && InRange(f, e, k) && EstimateOk(f, e, k)
    requires 0x10_0000_0000_0000 <= f || e < 0
    ensures fresh({numerator, numerator.bigits, denominator, denominator.bigits})
    ensures numerator.Valid() && Small(denominator) && Distinct(numerator, denominator)
    ensures 0 < denominator.Value() <= numerator.Value() < 10 * denominator.Value()
    ensures decimalPoint == k || decimalPoint == k + 1
    ensures c > 0 && numerator.Value() * Den(e, k) * 10 == c * (Num(f, e, k) * denominator.Value())
    ensures c == if decimalPoint == k then 100 else 10
    ensures denominator.Value() == Den(e, k)
  {
    hide P, Num, Den, Pow, Bignum.Value, Bignum.Shape, Bignum.IsClamped;
    if e >= 0 { PositivePower(f, e, k); }
    var deltaMinus, deltaPlus;
    numerator, denominator, deltaMinus, deltaPlus := StartForDigits(f, e, false, k, false);
    NumGrows(f, e, k);
    NumGrows(1, e, k);
    if f % 2 == 1 { OddIsNoPowerOfTen(f, e, k); }
    decimalPoint := FixupMultiply10(k, f % 2 == 0, numerator, denominator, deltaMinus, deltaPlus);
    c := if decimalPoint == k then 100 else 10;
    ghost var n, d := Num(f, e, k), Den(e, k);
    MulAssoc(c, n, d);
    if decimalPoint == k { MulAssoc(10, n, d); }
  }

  /** The numerator and denominator after the fix-up, against v / 10^(point - 1). */
  lemma FixedRound(f: nat, e: int, k: int, point: int, n: int, d: int, j: int)
    requires point == k || point == k + 1
    requires d == Den(e, k) && n == (if point == k then 10 else 1) * Num(f, e, k)
    ensures RoundScaled(n, d, j) == RoundV(f, e, j - (point - 1))
  {
    hide RoundScaled, RoundV, Num, Den;
    PreviousPower(f, e, k);
    if point == k && k > 0 {
      RoundScaledIsRoundV(f, e, k - 1, j, 10);
    } else {
      RoundScaledIsRoundV(f, e, point - 1, j, 1);
    }
  }

  /** The leading digit of v is the one before 10^(point - 1): 10^(point - 1) <= v < 10^point. */
  ghost predicate LeadingAt(f: nat, e: int, point: int) {
    Den(e, point - 1) <= Num(f, e, point - 1) < 10 * Den(e, point - 1)
  }

  /** The digits of v from the leading one on, rounded half up; a carry through all nines moves the decimal point. */
  ghost predicate PrecisionAt(f: nat, e: int, digits: seq<char>, decimalPoint: int, point: int) {
    && LeadingAt(f, e, point) && 0 < |digits| && AllDigits(digits) && digits[0] != '0'
    && (decimalPoint == point || decimalPoint == point + 1)
    && DigitsVal(digits) * Pow(10, decimalPoint - point) == RoundV(f, e, |digits| - point)
  }

  /** The leading digit has one place only. */
  lemma LeadingUnique(f: nat, e: int, p: int, q: int)
    requires LeadingAt(f, e, p) && LeadingAt(f, e, q)
    ensures p == q
  {
    if p < q { NotHigher(f, e, p, q); } else if q < p { NotHigher(f, e, q, p); }
  }

  lemma NotHigher(f: nat, e: int, p: int, q: int)
    requires LeadingAt(f, e, p) && p < q
    ensures !LeadingAt(f, e, q)
  {
    hide Num, Den, Pow;
    ChangePower(f, e, p - 1, q - p);
    PowMono(10, 1, q - p);
    Pow1(10);
    HigherArith(Num(f, e, p - 1), Den(e, p - 1), Num(f, e, q - 1), Den(e, q - 1), Pow(10, q - p));
  }

  lemma HigherArith(n: int, d: int, n': int, d': int, power: int)
    requires 0 < d && 0 < d' && n < 10 * d && 10 <= power && n * d' == power * (n' * d)
    ensures n' < d'
  {
    assert (10 * d) * d' == 10 * (d' * d);
    if d' <= n' {
      MulMono(d', n', d);
      MulMono(10, power, n' * d);
      MulStrict(n, 10 * d, d');
      assert false;
    }
  }

  lemma LeadingIs(f: nat, e: int, k: int, point: int, n: int, d: int)
    requires point == k || point == k + 1
    requires d == Den(e, k) && n == (if point == k then 10 else 1) * Num(f, e, k) && d <= n < 10 * d
    ensures LeadingAt(f, e, point)
  {
    hide Num, Den;
    PreviousPower(f, e, k);
  }

  /** v to a given number of places after the decimal point, rounded half up. */
  method FixedDtoa(f: nat, e: int, k: int, requestedDigits: int, buffer: array<char>)
    returns (length: nat, decimalPoint: int)
    requires 0 < f && InRange(f, e, k) && EstimateOk(f, e, k) && (0x10_0000_0000_0000 <= f || e < 0)
    requires 0 <= requestedDigits && 1 < buffer.Length
    requires forall point :: LeadingAt(f, e, point) ==> point + requestedDigits < buffer.Length
    modifies buffer
    ensures 0 <= length < buffer.Length && AllDigits(buffer[..length]) && buffer[length] == '\0'
    ensures 0 <= decimalPoint - length + requestedDigits
    ensures DigitsVal(buffer[..length]) * Pow(10, decimalPoint - length + requestedDigits) ==
      RoundV(f, e, requestedDigits)
    ensures if length == 0 then decimalPoint == -requestedDigits else buffer[0] != '0'
  {
    hide P, Num, Den, Pow, RoundScaled, RoundV, LeadingAt, Bignum.Value, Bignum.Shape, Bignum.IsClamped;
    if -k - 1 > requestedDigits {
      TooSmallForPlaces(f, e, k, requestedDigits);
      buffer[0] := '\0';
      assert buffer[..0] == [];
      return 0, -requestedDigits;
    }
    var numerator, denominator;
    ghost var c;
    numerator, denominator, decimalPoint, c := FixedStart(f, e, k);
    ghost var point := decimalPoint;
    ghost var n, d := numerator.Value(), denominator.Value();
    NumeratorIs(n, d, Num(f, e, k), c);
    FixedRound(f, e, k, point, n, d, point - 1 + requestedDigits);
    LeadingIs(f, e, k, point, n, d);
    length, decimalPoint := BignumToFixed(requestedDigits, decimalPoint, numerator, denominator, buffer);
    buffer[length] := '\0';
  }

  lemma NumeratorIs(n: int, d: int, x: int, c: int)
    requires 0 < d && (c == 10 || c == 100) && n * d * 10 == c * (x * d)
    ensures n == (if c == 100 then 10 else 1) * x
  {
  }

  lemma TooSmallForPlaces(f: nat, e: int, k: int, places: int)
    requires 0 < f && EstimateOk(f, e, k) && -k - 1 > places
    ensures RoundV(f, e, places) == 0
  {
    hide RoundScaled, Num, Den;
    NumGrows(f, e, k);
    NumGrows(1, e, k);
    RoundScaledIsRoundV(f, e, k, k + places, 1);
    TooSmall(Num(f, e, k), Den(e, k), k + places);
  }

  /** The first count significant digits of v, rounded half up; a carry may turn 9...9 into 10...0 one place up. */
  method PrecisionDtoa(f: nat, e: int, k: int, count: nat, buffer: array<char>)
    returns (length: nat, decimalPoint: int, ghost point: int)
    requires 0 < f && InRange(f, e, k) && EstimateOk(f, e, k) && (0x10_0000_0000_0000 <= f || e < 0)
    requires 0 < count < buffer.Length
    modifies buffer
    ensures length == count && buffer[count] == '\0'
    ensures PrecisionAt(f, e, buffer[..count], decimalPoint, point)
  {
    hide P, Num, Den, Pow, RoundHalfUp, LeadingAt, RoundV, Bignum.Value, Bignum.Shape, Bignum.IsClamped;
    var numerator, denominator;
    ghost var c;
    numerator, denominator, decimalPoint, c := FixedStart(f, e, k);
    point := decimalPoint;
    ghost var n, d := numerator.Value(), denominator.Value();
    NumeratorIs(n, d, Num(f, e, k), c);
    FixedRound(f, e, k, point, n, d, count - 1);
    LeadingIs(f, e, k, point, n, d);
    length, decimalPoint := GenerateCountedDigits(count, decimalPoint, numerator, denominator, buffer);
    buffer[length] := '\0';
  }
}
