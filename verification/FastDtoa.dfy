/** Grisu3: digit generation on 64-bit integers that are each wrong by less than one unit. */
module FastDtoa {
  import opened Arith
  import opened Decimal

  // ---- DiyFp::Multiply

  /** The product of two 64-bit significands, scaled down by 2^64 and rounded half up, in four 32-bit products. */
  method Multiply(f: uint64, g: uint64) returns (product: uint64)
    ensures product == (f * g + 0x8000_0000_0000_0000) / 0x1_0000_0000_0000_0000
    ensures product < 0xffff_ffff_ffff_ffff
  {
    var a, b: uint64 := f / 0x1_0000_0000, f % 0x1_0000_0000;
    var c, d: uint64 := g / 0x1_0000_0000, g % 0x1_0000_0000;
    ProductFits(a, c);
    ProductFits(b, c);
    ProductFits(a, d);
    ProductFits(b, d);
    var ac: uint64, bc: uint64, ad: uint64, bd: uint64 := a * c, b * c, a * d, b * d;
    var tmp: uint64 := bd / 0x1_0000_0000 + ad % 0x1_0000_0000 + bc % 0x1_0000_0000;
    tmp := tmp + 0x8000_0000;
    MultiplyArith(ac, bc, ad, bd, f * g) by {
      FullProduct(f, g, a, b, c, d);
    }
    product := ac + ad / 0x1_0000_0000 + bc / 0x1_0000_0000 + tmp / 0x1_0000_0000;
  }

  lemma FullProduct(f: int, g: int, a: int, b: int, c: int, d: int)
    requires f == a * 0x1_0000_0000 + b && g == c * 0x1_0000_0000 + d
    ensures f * g == (a * c) * 0x1_0000_0000_0000_0000 + (b * c + a * d) * 0x1_0000_0000 + b * d
  {
  }

  lemma MultiplyArith(ac: int, bc: int, ad: int, bd: int, fg: int)
    requires fg == ac * 0x1_0000_0000_0000_0000 + (bc + ad) * 0x1_0000_0000 + bd
    requires 0 <= ac <= 0xffff_fffe_0000_0001 && 0 <= bc <= 0xffff_fffe_0000_0001
    requires 0 <= ad <= 0xffff_fffe_0000_0001 && 0 <= bd <= 0xffff_fffe_0000_0001
    ensures var tmp := bd / 0x1_0000_0000 + ad % 0x1_0000_0000 + bc % 0x1_0000_0000 + 0x8000_0000;
      var r := ac + ad / 0x1_0000_0000 + bc / 0x1_0000_0000 + tmp / 0x1_0000_0000;
      r == (fg + 0x8000_0000_0000_0000) / 0x1_0000_0000_0000_0000 && 0 <= r < 0xffff_ffff_ffff_ffff
  {
  }

  // ---- BiggestPowerTen

  const SMALL_POWERS_OF_TEN: seq<uint32> :=
    [0, 1, 10, 100, 1000, 10000, 100000, 1000000, 10000000, 100000000, 1000000000]

  lemma SmallPowers(k: nat)
    requires 1 <= k <= 10
    ensures SMALL_POWERS_OF_TEN[k] == Pow(10, k - 1) && Pow(10, k) == 10 * Pow(10, k - 1)
  {
    Pow1(10);
    if k > 1 {
      SmallPowers(k - 1);
    }
  }

  /** The guess from the number of bits is at most one too high. */
  lemma GuessBounds(bits: nat, guess: int)
    requires 4 <= bits <= 32 && guess == (bits + 1) * 1233 / 4096 + 1
    ensures 2 <= guess <= 10 && Pow(2, bits + 1) <= Pow(10, guess) && Pow(10, guess - 2) <= Pow(2, bits - 2)
  {
    hide Pow;
    var lo := if guess == 2 then 4 else if guess == 3 then 6 else if guess == 4 then 9 else if guess == 5 then 13
         else if guess == 6 then 16 else if guess == 7 then 19 else if guess == 8 then 23
         else if guess == 9 then 26 else 29;
    var hi := if guess == 2 then 5 else if guess == 3 then 8 else if guess == 4 then 12 else if guess == 5 then 15
         else if guess == 6 then 18 else if guess == 7 then 22 else if guess == 8 then 25
         else if guess == 9 then 28 else 32;
    PowMono(2, bits + 1, hi + 1);
    PowMono(2, lo - 2, bits - 2);
    TwoAndTen(guess);
  }

  /** Powers of two beside powers of ten. */
  lemma TwoAndTen(g: int)
    requires 2 <= g <= 10
    ensures g == 2 ==> Pow(2, 6) <= Pow(10, 2) && Pow(10, 0) <= Pow(2, 2)
    ensures g == 3 ==> Pow(2, 9) <= Pow(10, 3) && Pow(10, 1) <= Pow(2, 4)
    ensures g == 4 ==> Pow(2, 13) <= Pow(10, 4) && Pow(10, 2) <= Pow(2, 7)
    ensures g == 5 ==> Pow(2, 16) <= Pow(10, 5) && Pow(10, 3) <= Pow(2, 11)
    ensures g == 6 ==> Pow(2, 19) <= Pow(10, 6) && Pow(10, 4) <= Pow(2, 14)
    ensures g == 7 ==> Pow(2, 23) <= Pow(10, 7) && Pow(10, 5) <= Pow(2, 17)
    ensures g == 8 ==> Pow(2, 26) <= Pow(10, 8) && Pow(10, 6) <= Pow(2, 21)
    ensures g == 9 ==> Pow(2, 29) <= Pow(10, 9) && Pow(10, 7) <= Pow(2, 24)
    ensures g == 10 ==> Pow(2, 33) <= Pow(10, 10) && Pow(10, 8) <= Pow(2, 27)
  {
    hide Pow;
    Pow1(2);
    Pow1(10);
    PowAdd(2, 1, 1);
    PowAdd(2, 2, 2);
    PowAdd(2, 2, 4);
    PowAdd(2, 1, 6);
    PowAdd(2, 2, 7);
    PowAdd(2, 2, 9);
    PowAdd(2, 2, 11);
    PowAdd(2, 1, 13);
    PowAdd(2, 2, 14);
    PowAdd(2, 1, 16);
    PowAdd(2, 2, 17);
    PowAdd(2, 2, 19);
    PowAdd(2, 2, 21);
    PowAdd(2, 1, 23);
    PowAdd(2, 2, 24);
    PowAdd(2, 1, 26);
    PowAdd(2, 2, 27);
    PowAdd(2, 4, 29);
    PowAdd(10, 1, 1);
    PowAdd(10, 1, 2);
    PowAdd(10, 2, 2);
    PowAdd(10, 1, 4);
    PowAdd(10, 2, 4);
    PowAdd(10, 1, 6);
    PowAdd(10, 4, 4);
    PowAdd(10, 1, 8);
    PowAdd(10, 2, 8);
  }

  /** The largest power of ten that is at most number; number is known to be below 2^(bits + 1). It is found
      exactly if number is not much shorter than that; number < 10 * power always. */
  method BiggestPowerTen(number: uint32, bits: nat) returns (power: uint32, exponentPlusOne: nat)
    requires 4 <= bits <= 32 && number < Pow(2, bits + 1)
    ensures 1 <= exponentPlusOne <= 10 && power == Pow(10, exponentPlusOne - 1) && number < 10 * power
    ensures Pow(2, bits - 2) <= number ==> power <= number
  {
    hide Pow;
    var guess := (bits + 1) * 1233 / 4096;
    guess := guess + 1;
    GuessBounds(bits, guess);
    SmallPowers(guess);
    if number < SMALL_POWERS_OF_TEN[guess] {
      guess := guess - 1;
      SmallPowers(guess);
    }
    power := SMALL_POWERS_OF_TEN[guess];
    exponentPlusOne := guess;
  }

  // ---- What the digits should be

  /** 10^(-k) for a negative power, the factor by which values are scaled up to stay integers. */
  ghost function Unit(k: int): int { Pow(10, Max(-k, 0)) }

  /** 10^k in the same scale, in units of 2^-E. */
  ghost function Ten(k: int, E: nat): int { Pow(10, Max(k, 0)) * Pow(2, E) }

  /** An approximation that is wrong by less than one unit. */
  ghost predicate Near(x: real, f: int) { f as real - 1.0 < x < f as real + 1.0 }

  ghost predicate Inside(lo: real, hi: real, unit: int, x: int) {
    lo * unit as real < x as real < hi * unit as real
  }

  ghost predicate Within(lo: real, hi: real, unit: int, x: int) {
    lo * unit as real <= x as real <= hi * unit as real
  }

  ghost function Gap(x: real, unit: int, v: int): real {
    var d := v as real - x * unit as real;
    if d < 0.0 then -d else d
  }

  /** m * 10^p lies strictly between lo and hi. */
  ghost predicate Fits(lo: real, hi: real, E: nat, m: int, p: int) { Inside(lo, hi, Unit(p), m * Ten(p, E)) }

  /** The same with the bounds included. */
  ghost predicate Touches(lo: real, hi: real, E: nat, m: int, p: int) { Within(lo, hi, Unit(p), m * Ten(p, E)) }

  /** The distance of m * 10^p from x. */
  ghost function Off(x: real, E: nat, m: int, p: int): real { Gap(x, Unit(p), m * Ten(p, E)) }

  /** q * 10^k lies strictly between lo and hi, no multiple of a larger power of ten does, bounds included, and every
      other multiple of 10^k there is further from x. */
  ghost predicate Shortest(lo: real, x: real, hi: real, E: nat, q: int, k: int) {
    && Fits(lo, hi, E, q, k)
    && (forall m, p :: p > k ==> !Touches(lo, hi, E, m, p))
    && (forall m :: m != q && Touches(lo, hi, E, m, k) ==> Off(x, E, q, k) < Off(x, E, m, k))
  }

  // ---- RoundWeed

  /** No multiple of w lies within unsafe below top, top included. */
  ghost predicate Misses(top: int, unsafe: int, w: int, m: int) {
    !(top - unsafe < m * w <= top)
  }

  ghost predicate AllMiss(top: int, unsafe: int, w: int) { forall m :: Misses(top, unsafe, w, m) }

  /** Of the multiples m * tk in the unsafe interval, q * tk is closest to every point less than unit away from the
      one at the given distance from top: the midpoints of q and the others are further away. */
  ghost predicate Closest(top: int, unsafe: int, distance: int, unit: int, tk: int, q: int, m: int) {
    var r, r' := top - q * tk, top - m * tk;
    && (m > q && 0 <= r' ==> r + r' <= 2 * (distance - unit))
    && (m < q && r' < unsafe ==> r + r' >= 2 * (distance + unit))
  }

  ghost predicate AllClosest(top: int, unsafe: int, distance: int, unit: int, tk: int, q: int) {
    forall m :: Closest(top, unsafe, distance, unit, tk, q, m)
  }

  /** Whether the last digit one lower is still allowed and closer to the target, or as close if that is enough. The
      tests come in an order in which no 64-bit operation overflows. */
  predicate LowerIsCloser(rest: uint64, tenKappa: uint64, unsafe: uint64, target: uint64, orAsClose: bool)
    requires rest <= unsafe
  {
    rest < target &&
    var left: uint64 := unsafe - rest;
    left >= tenKappa &&
    var next: uint64 := rest + tenKappa;
    (next < target ||
     var before: uint64, after: uint64 := target - rest, next - target;
     before > after || (orAsClose && before == after))
  }

  /** Adjusts the last digit downwards until the number is as close as possible to w from above, and tells whether
      the result can be trusted. The last digit never drops below zero. */
  method RoundWeed(buffer: array<char>, length: nat, distance: uint64, unsafe: uint64, rest0: uint64,
                   tenKappa: uint64, unit: uint64, ghost top: int)
    returns (ok: bool)
    requires 0 < length <= buffer.Length && AllDigits(buffer[..length])
    requires top == DigitsVal(buffer[..length]) * tenKappa + rest0 && rest0 < unsafe && rest0 < tenKappa
    requires unit <= distance && distance + unit < 0x1_0000_0000_0000_0000 && 4 * unit <= unsafe
    requires AllMiss(top, unsafe, 10 * tenKappa)
    modifies buffer
    ensures AllDigits(buffer[..length]) &&
      forall i :: 0 <= i < buffer.Length && i != length - 1 ==> buffer[i] == old(buffer[i])
    ensures ok ==> var q := DigitsVal(buffer[..length]);
      && 2 * unit <= top - q * tenKappa <= unsafe - 4 * unit
      && AllClosest(top, unsafe, distance, unit, tenKappa, q)
  {
    hide DigitsVal, Misses;
    var smallDistance: uint64 := distance - unit;
    var bigDistance: uint64 := distance + unit;
    var rest: uint64 := rest0;
    while LowerIsCloser(rest, tenKappa, unsafe, smallDistance, true)
      invariant AllDigits(buffer[..length])
      invariant forall i :: 0 <= i < buffer.Length && i != length - 1 ==> buffer[i] == old(buffer[i])
      invariant top == DigitsVal(buffer[..length]) * tenKappa + rest && rest <= unsafe
      invariant rest < tenKappa || 2 * rest - tenKappa <= 2 * smallDistance
      decreases unsafe - rest
    {
      ghost var s := buffer[..length];
      var c := buffer[length - 1];
      LastDigit(s, c, top, unsafe, rest, tenKappa);
      buffer[length - 1] := CharOf(DigitOf(c) - 1);
      assert buffer[..length] == s[length - 1 := CharOf(DigitOf(c) - 1)];
      rest := rest + tenKappa;
    }
    if LowerIsCloser(rest, tenKappa, unsafe, bigDistance, false) {
      return false;
    }
    ghost var q := DigitsVal(buffer[..length]);
    forall m ensures Closest(top, unsafe, distance, unit, tenKappa, q, m) {
      IsClosest(top, unsafe, distance, unit, tenKappa, q, rest, m);
    }
    var twice: uint64, four: uint64 := 2 * unit, 4 * unit;
    var safe: uint64 := unsafe - four;
    ok := twice <= rest && rest <= safe;
  }

  /** In the unsafe interval the last digit is not zero, so it can be decremented. */
  lemma LastDigit(s: seq<char>, c: char, top: int, unsafe: int, rest: int, tk: int)
    requires s != [] && AllDigits(s) && c == s[|s| - 1]
    requires top == DigitsVal(s) * tk + rest && 0 <= rest && 0 < tk <= unsafe - rest
    requires AllMiss(top, unsafe, 10 * tk)
    ensures '1' <= c <= '9'
    ensures DigitsVal(s[|s| - 1 := CharOf(DigitOf(c) - 1)]) * tk + (rest + tk) == top
    ensures AllDigits(s[|s| - 1 := CharOf(DigitOf(c) - 1)])
  {
    var m := DigitsVal(s[..|s| - 1]);
    assert IsDigit(c);
    assert DigitsVal(s) == 10 * m + DigitOf(c);
    if c == '0' {
      assert Misses(top, unsafe, 10 * tk, m);
      TenTimes(m, tk);
      assert false;
    }
    DigitsUpdate(s, |s| - 1, CharOf(DigitOf(c) - 1));
    Pow1(10);
    OneLess(DigitsVal(s), tk);
  }

  lemma TenTimes(m: int, t: int)
    ensures m * (10 * t) == (10 * m) * t
  {
  }

  lemma OneLess(q: int, t: int)
    ensures (q - 1) * t + t == q * t
  {
  }

  lemma IsClosest(top: int, unsafe: int, distance: int, unit: int, tk: int, q: int, rest: int, m: int)
    requires 0 < tk && top == q * tk + rest && 0 <= rest
    requires rest < tk || 2 * rest - tk <= 2 * (distance - unit)
    requires var big := distance + unit;
      !(rest < big && unsafe - rest >= tk && (rest + tk < big || big - rest > rest + tk - big))
    ensures Closest(top, unsafe, distance, unit, tk, q, m)
  {
    if m > q {
      MulMono(q + 1, m, tk);
      OneLess(q + 1, tk);
    } else if m < q {
      MulMono(m, q - 1, tk);
      OneLess(q, tk);
    }
  }

  // ---- From integers to true values

  lemma NearScaled(x: real, f: int, unit: int)
    requires Near(x, f) && 0 < unit
    ensures ((f - 1) * unit) as real < x * unit as real < ((f + 1) * unit) as real
  {
    LessScaled(x, f + 1, unit);
    MoreScaled(x, f - 1, unit);
  }

  lemma LessScaled(x: real, p: int, unit: int)
    requires x < p as real && 0 < unit
    ensures x * unit as real < (p * unit) as real
  {
  }

  lemma MoreScaled(x: real, p: int, unit: int)
    requires p as real < x && 0 < unit
    ensures (p * unit) as real < x * unit as real
  {
  }

  /** What a successful weeding means for every lo, x and hi within one unit of the integers computed with. */
  lemma WeededIsShortest(lo: real, x: real, hi: real, low: int, w: int, high: int, E: nat, q: int, k: int)
    requires Near(lo, low) && Near(x, w) && Near(hi, high)
    requires var u, t := Unit(k), Ten(k, E); var top, unsafe := (high + 1) * u, (high - low + 2) * u;
      && 2 * u <= top - q * t <= unsafe - 4 * u
      && AllMiss(top, unsafe, 10 * t) && AllClosest(top, unsafe, (high + 1 - w) * u, u, t, q)
    ensures Shortest(lo, x, hi, E, q, k)
  {
    hide Fits, Touches, Off, Near, Unit, Ten, Misses, Closest;
    IsInside(lo, hi, low, high, E, q, k);
    forall m, p | p > k ensures !Touches(lo, hi, E, m, p) {
      NoLargerMultiple(lo, hi, low, high, E, k, m, p);
    }
    forall m | m != q ensures Touches(lo, hi, E, m, k) ==> Off(x, E, q, k) < Off(x, E, m, k) {
      NotCloser(lo, x, hi, low, w, high, E, q, k, m);
    }
  }

  lemma NotCloser(lo: real, x: real, hi: real, low: int, w: int, high: int, E: nat, q: int, k: int, m: int)
    requires Near(lo, low) && Near(x, w) && Near(hi, high) && m != q
    requires var u := Unit(k);
      AllClosest((high + 1) * u, (high - low + 2) * u, (high + 1 - w) * u, u, Ten(k, E), q)
    ensures Touches(lo, hi, E, m, k) ==> Off(x, E, q, k) < Off(x, E, m, k)
  {
    hide Unit, Ten, Within, Gap, Near, Closest;
    var u, t := Unit(k), Ten(k, E);
    UnitPositive(k);
    TenPositive(k, E);
    assert Closest((high + 1) * u, (high - low + 2) * u, (high + 1 - w) * u, u, t, q, m);
    if Within(lo, hi, u, m * t) {
      InUnsafe(lo, hi, low, high, u, m * t);
      CloserGap(x, w, high, low, u, t, q, m);
    }
  }

  lemma UnitPositive(k: int)
    ensures 0 < Unit(k)
  {
  }

  lemma TenPositive(k: int, E: nat)
    ensures 0 < Ten(k, E)
  {
  }

  lemma IsInside(lo: real, hi: real, low: int, high: int, E: nat, q: int, k: int)
    requires Near(lo, low) && Near(hi, high)
    requires var u := Unit(k); 2 * u <= (high + 1) * u - q * Ten(k, E) <= (high - low + 2) * u - 4 * u
    ensures Fits(lo, hi, E, q, k)
  {
    hide Unit, Ten, Near;
    UnitPositive(k);
    NearScaled(lo, low, Unit(k));
    NearScaled(hi, high, Unit(k));
    Spread(high, low, Unit(k));
  }

  lemma Spread(high: int, low: int, u: int)
    ensures (high - low + 2) * u == (high + 1) * u - (low - 1) * u
    ensures (high + 1) * u == (high - 1) * u + 2 * u && (low + 1) * u == (low - 1) * u + 2 * u
  {
  }

  /** A number between the true bounds lies in the unsafe interval. */
  lemma InUnsafe(lo: real, hi: real, low: int, high: int, u: int, v: int)
    requires 0 < u && Near(lo, low) && Near(hi, high) && Within(lo, hi, u, v)
    ensures (high + 1) * u - (high - low + 2) * u < v < (high + 1) * u
  {
    NearScaled(lo, low, u);
    NearScaled(hi, high, u);
    Spread(high, low, u);
  }

  lemma CloserGap(x: real, w: int, high: int, low: int, u: int, t: int, q: int, m: int)
    requires 0 < u && 0 < t && Near(x, w) && m != q
    requires var top := (high + 1) * u; top - (high - low + 2) * u < m * t < top
    requires Closest((high + 1) * u, (high - low + 2) * u, (high + 1 - w) * u, u, t, q, m)
    ensures Gap(x, u, q * t) < Gap(x, u, m * t)
  {
    NearScaled(x, w, u);
    assert (high + 1 - w) * u == (high + 1) * u - w * u;
    assert (w - 1) * u == w * u - u && (w + 1) * u == w * u + u;
    if m > q { MulStrict(q, m, t); } else if m < q { MulStrict(m, q, t); }
    MiddleGap(x * u as real, (high + 1) * u, w * u, u, q * t, m * t);
  }

  lemma MiddleGap(x: real, top: int, w: int, u: int, q: int, m: int)
    requires (w - u) as real < x < (w + u) as real
    requires m > q ==> (top - q) + (top - m) <= 2 * (top - w - u)
    requires m < q ==> (top - q) + (top - m) >= 2 * (top - w + u)
    requires m != q
    ensures var a, b := q as real - x, m as real - x;
      (if a < 0.0 then -a else a) < (if b < 0.0 then -b else b)
  {
  }

  /** If no multiple of the next power of ten is in the unsafe interval, none of any larger power is between the
      true bounds. */
  lemma NoLargerMultiple(lo: real, hi: real, low: int, high: int, E: nat, k: int, m: int, p: int)
    requires p > k && Near(lo, low) && Near(hi, high)
    requires var u, t := Unit(k), Ten(k, E); AllMiss((high + 1) * u, (high - low + 2) * u, 10 * t)
    ensures !Touches(lo, hi, E, m, p)
  {
    hide Within, Near, Misses;
    var m' := m * Pow(10, p - k - 1);
    var u, t := Unit(k), Ten(k, E);
    UnitPositive(k);
    UnitPositive(p);
    LargerPower(E, k, p - k - 1, m);
    if Within(lo, hi, Unit(p), m * Ten(p, E)) {
      ScaledWithin(lo, hi, Unit(p), m * Ten(p, E), u);
      ScaledWithin(lo, hi, u, m' * (10 * t), Unit(p));
      InUnsafe(lo, hi, low, high, u, m' * (10 * t));
      NotMissed((high + 1) * u, (high - low + 2) * u, 10 * t, m');
      assert false;
    }
  }

  lemma NotMissed(top: int, unsafe: int, w: int, m: int)
    requires top - unsafe < m * w < top
    ensures !Misses(top, unsafe, w, m)
  {
  }

  lemma ScaledWithin(lo: real, hi: real, u: int, v: int, c: int)
    requires 0 < c && 0 < u
    ensures Within(lo, hi, c * u, c * v) <==> Within(lo, hi, u, v)
  {
  }

  /** m * 10^p with p = k + 1 + j, in the scale of k. */
  lemma LargerPower(E: nat, k: int, j: nat, m: int)
    ensures Unit(k) * (m * Ten(k + 1 + j, E)) == Unit(k + 1 + j) * ((m * Pow(10, j)) * (10 * Ten(k, E)))
    ensures Unit(k) * Unit(k + 1 + j) == Unit(k + 1 + j) * Unit(k)
  {
    hide Pow;
    LargerTens(k, k + 1 + j, j);
    LargerArith(Pow(10, Max(-k, 0)), Pow(10, Max(k + 1 + j, 0)), Pow(10, Max(-(k + 1 + j), 0)), Pow(10, j),
                Pow(10, Max(k, 0)), Pow(2, E), m);
  }

  lemma LargerTens(k: int, p: int, j: nat)
    requires p == k + 1 + j
    ensures Pow(10, Max(-k, 0)) * Pow(10, Max(p, 0)) == (Pow(10, Max(-p, 0)) * Pow(10, j)) * (10 * Pow(10, Max(k, 0)))
  {
    hide Pow;
    PowAdd(10, Max(-k, 0), Max(p, 0));
    PowAdd(10, Max(-p, 0), j);
    PowSucc(10, Max(k, 0));
    PowAdd(10, Max(-p, 0) + j, 1 + Max(k, 0));
  }

  lemma LargerArith(a: int, b: int, c: int, d: int, e: int, s: int, m: int)
    requires a * b == (c * d) * (10 * e)
    ensures a * (m * (b * s)) == c * ((m * d) * (10 * (e * s)))
  {
  }

  // ---- DigitGen

  /** The scaled value and its boundaries: normalized, distinct, and no closer than the boundaries of a 53-bit
      significand are. The precise values are less than one unit away. */
  ghost predicate Boundaries(low: int, w: int, high: int, E: nat) {
    && 32 <= E <= 60 && 1 <= low < w < high < 0xffff_ffff_ffff_ffff && 0x4000_0000_0000_0000 <= high
    && high + 1 <= (high - low + 2) * Pow(10, 16)
  }

  /** After the digits q down to 10^k: the rest of too_high still reaches below too_low. */
  ghost predicate Generating(tooHigh: int, unsafe: int, E: nat, q: int, k: int, rest: int) {
    var u, t := Unit(k), Ten(k, E);
    tooHigh * u == q * t + rest && unsafe * u <= rest < t
  }

  lemma PowerStep(k: int, E: nat)
    ensures Unit(k - 1) == (if k > 0 then 1 else 10) * Unit(k)
    ensures 10 * Ten(k - 1, E) == (if k > 0 then 1 else 10) * Ten(k, E)
  {
  }

  /** The next digit, and why no multiple of the power of ten before it will do. */
  lemma NextDigit(tooHigh: int, unsafe: int, E: nat, q: int, k: int, rest: int, digit: int, rest': int)
    requires Generating(tooHigh, unsafe, E, q, k, rest) && 0 <= unsafe
    requires (if k > 0 then rest else 10 * rest) == digit * Ten(k - 1, E) + rest' && 0 <= rest' < Ten(k - 1, E)
    ensures 0 <= digit <= 9
    ensures tooHigh * Unit(k - 1) == (10 * q + digit) * Ten(k - 1, E) + rest'
    ensures AllMiss(tooHigh * Unit(k - 1), unsafe * Unit(k - 1), 10 * Ten(k - 1, E))
    ensures unsafe * Unit(k - 1) <= rest' ==> Generating(tooHigh, unsafe, E, 10 * q + digit, k - 1, rest')
  {
    hide Unit, Ten, AllMiss;
    PowerStep(k, E);
    UnitPositive(k);
    NextInts(if k > 0 then 1 else 10, tooHigh, unsafe, Unit(k), Unit(k - 1), q, Ten(k, E), Ten(k - 1, E),
      rest, digit, rest');
  }

  lemma NextInts(c: int, tooHigh: int, unsafe: int, u: int, u': int, q: int, t: int, t': int,
                 rest: int, digit: int, rest': int)
    requires (c == 1 || c == 10) && u' == c * u && 10 * t' == c * t && 0 < u && 0 <= unsafe
    requires tooHigh * u == q * t + rest && unsafe * u <= rest < t
    requires c * rest == digit * t' + rest' && 0 <= rest' < t'
    ensures 0 <= digit <= 9
    ensures tooHigh * u' == (10 * q + digit) * t' + rest'
    ensures AllMiss(tooHigh * u', unsafe * u', 10 * t')
  {
    hide AllMiss;
    MulMono(0, unsafe, u);
    DigitRange(c, rest, t, digit, t', rest');
    NextArith(c, tooHigh, u, q, t, rest, digit, t', rest');
    MissScaled(c, tooHigh * u, unsafe * u, t, q, rest);
    TimesCu(c, tooHigh, u);
    TimesCu(c, unsafe, u);
  }

  lemma TimesCu(c: int, x: int, u: int)
    ensures x * (c * u) == c * (x * u)
  {
  }

  lemma DigitRange(c: int, rest: int, t: int, digit: int, t': int, rest': int)
    requires (c == 1 || c == 10) && 10 * t' == c * t && 0 <= rest < t &&
      c * rest == digit * t' + rest' && 0 <= rest' < t'
    ensures 0 <= digit <= 9
  {
  }

  lemma NextArith(c: int, tooHigh: int, u: int, q: int, t: int, rest: int, digit: int, t': int, rest': int)
    requires (c == 1 || c == 10) && 10 * t' == c * t && tooHigh * u == q * t + rest && c * rest == digit * t' + rest'
    ensures tooHigh * (c * u) == (10 * q + digit) * t' + rest'
  {
  }

  lemma MissScaled(c: int, top: int, unsafe: int, t: int, q: int, rest: int)
    requires 0 < c && 0 <= unsafe <= rest < t && top == q * t + rest
    ensures AllMiss(c * top, c * unsafe, c * t)
  {
    forall m ensures Misses(c * top, c * unsafe, c * t, m) {
      assert m * (c * t) == c * (m * t) by { MulAssoc(m, c, t); MulAssoc(c, m, t); }
      if m <= q {
        MulMono(m, q, t);
        MulMono(m * t, top - unsafe, c);
        assert c * (top - unsafe) == c * top - c * unsafe;
      } else {
        MulMono(q + 1, m, t);
        OneLess(q + 1, t);
        MulStrict(top, m * t, c);
      }
    }
  }

  /** Boundaries that wide are separated by seventeen digits. */
  lemma AtMostSixteen(low: int, w: int, high: int, E: nat, q: int, k: int, rest: int, k0: int)
    requires Boundaries(low, w, high, E) && Generating(high + 1, high - low + 2, E, q, k, rest)
    requires k <= k0 && 1 <= k0 && Pow(10, k0 - 1) * Pow(2, E) <= high + 1
    ensures k0 - k <= 16
  {
    hide Pow;
    if k0 - k > 16 {
      var u, t, s := Unit(k), Ten(k, E), high - low + 2;
      var one, p, a := Pow(2, E), Pow(10, 16), Pow(10, Max(k, 0));
      UnitPositive(k);
      PowAdd(10, k0 - 1, Max(-k, 0));
      PowAdd(10, Max(k, 0), 16);
      PowMono(10, Max(k, 0) + 16, k0 - 1 + Max(-k, 0));
      TooManyDigits(Pow(10, k0 - 1), one, high + 1, s, p, u, a);
      assert false;
    }
  }

  lemma TooManyDigits(b: int, one: int, top: int, s: int, p: int, u: int, a: int)
    requires 0 < one && 0 < u && 0 < p && b * one <= top <= s * p && s * u < a * one
    ensures b * u < a * p
  {
  }

  /** The digits in the buffer are right for all true values of the boundaries. */
  ghost predicate AllShortest(low: int, w: int, high: int, E: nat, q: int, k: int) {
    forall lo, x, hi :: Near(lo, low) && Near(x, w) && Near(hi, high) ==> Shortest(lo, x, hi, E, q, k)
  }

  /** Weeds the digits generated down to 10^k. */
  method Weed(low: uint64, w: uint64, high: uint64, ghost E: nat, buffer: array<char>, length: nat, ghost k: int,
              rest: uint64, tenKappa: uint64, unit: uint64, unsafe: uint64, distance: uint64)
    returns (ok: bool)
    requires Boundaries(low, w, high, E) && 0 < length <= buffer.Length && AllDigits(buffer[..length])
    requires unit == Unit(k) && tenKappa == Ten(k, E)
    requires unsafe == (high - low + 2) * unit && distance == (high + 1 - w) * unit
    requires (high + 1) * unit == DigitsVal(buffer[..length]) * tenKappa + rest && rest < unsafe && rest < tenKappa
    requires AllMiss((high + 1) * unit, unsafe, 10 * tenKappa)
    modifies buffer
    ensures AllDigits(buffer[..length])
    ensures ok && (length > 1 ==> old(buffer[0]) != '0') ==> buffer[0] != '0'
    ensures ok ==> AllShortest(low, w, high, E, DigitsVal(buffer[..length]), k)
  {
    hide DigitsVal, Unit, Ten, Misses, Closest, Shortest;
    UnitPositive(k);
    DistanceFits(low, w, high, unit);
    ok := RoundWeed(buffer, length, distance, unsafe, rest, tenKappa, unit, (high + 1) * unit);
    if ok {
      ghost var q := DigitsVal(buffer[..length]);
      FirstDigit(low, w, high, buffer[..length], tenKappa, unit);
      forall lo, x, hi | Near(lo, low) && Near(x, w) && Near(hi, high) ensures Shortest(lo, x, hi, E, q, k) {
        WeededIsShortest(lo, x, hi, low, w, high, E, q, k);
      }
    }
  }

  lemma DistanceFits(low: int, w: int, high: int, u: int)
    requires low < w < high && 0 < u
    ensures u <= (high + 1 - w) * u && (high + 1 - w) * u + u <= (high - low + 2) * u && 4 * u <= (high - low + 2) * u
  {
    MulMono(1, high + 1 - w, u);
    MulMono(high + 2 - w, high - low + 2, u);
    MulMono(4, high - low + 2, u);
    assert (high + 2 - w) * u == (high + 1 - w) * u + u;
  }

  /** A number in the safe interval is not zero. */
  lemma FirstDigit(low: int, w: int, high: int, s: seq<char>, t: int, u: int)
    requires 1 <= low < w < high && 0 < u && 0 < t && |s| > 0
    requires (high + 1) * u - DigitsVal(s) * t <= (high - low + 2) * u - 4 * u
    ensures |s| == 1 ==> s[0] != '0'
  {
  }

  /** 2^E for the exponents that occur. */
  lemma OneBounds(E: nat)
    requires 32 <= E <= 60
    ensures 0x1_0000_0000 <= Pow(2, E) <= 0x1000_0000_0000_0000
    ensures Pow(2, E) * Pow(2, 64 - E) == 0x1_0000_0000_0000_0000
    ensures Pow(2, E) * Pow(2, 62 - E) == 0x4000_0000_0000_0000 || E > 62
  {
    hide Pow;
    Pow1(2);
    Pow2Values();
    PowMono(2, 32, E);
    PowMono(2, E, 60);
    PowAdd(2, 28, 32);
    PowAdd(2, E, 64 - E);
    PowAdd(2, E, 62 - E);
    PowAdd(2, 62, 1);
    PowAdd(2, 63, 1);
  }

  /** The integral part is a 32-bit number, and close enough to its number of bits. */
  lemma IntegralPart(tooHigh: int, E: nat, integrals: int)
    requires 32 <= E <= 60 && 0x4000_0000_0000_0000 <= tooHigh < 0x1_0000_0000_0000_0000
    requires integrals == tooHigh / Pow(2, E)
    ensures 0 <= integrals < Pow(2, 64 - E + 1) && integrals < 0x1_0000_0000 && Pow(2, 64 - E - 2) <= integrals
    ensures integrals * Pow(2, E) + tooHigh % Pow(2, E) == tooHigh && 0 <= tooHigh % Pow(2, E) < Pow(2, E)
  {
    hide Pow;
    OneBounds(E);
    DivMod(tooHigh, Pow(2, E));
    PowSucc(2, 64 - E);
    PowMono(2, 64 - E, 32);
    Pow2Values();
    QuotientBetween(tooHigh, Pow(2, E), integrals, tooHigh % Pow(2, E), Pow(2, 62 - E), Pow(2, 64 - E));
  }

  lemma QuotientBetween(x: int, one: int, q: int, r: int, low: int, high: int)
    requires x == q * one + r && 0 <= r < one && one * low <= x < one * high
    ensures low <= q < high
  {
    assert (q + 1) * one == q * one + one;
    MulCancel(low, q + 1, one);
    MulCancel(q, high, one);
  }

  lemma GenerationStarts(tooHigh: int, unsafe: int, E: nat, k0: int, integrals: int, fractionals: int)
    requires 0 < k0 && tooHigh == integrals * Pow(2, E) + fractionals && 0 <= fractionals < Pow(2, E)
    requires integrals < Pow(10, k0) && unsafe <= tooHigh
    ensures Generating(tooHigh, unsafe, E, 0, k0, tooHigh)
  {
    hide Pow, Unit, Ten;
    TenAndUnit(k0, E);
    BelowNext(integrals, Pow(10, k0), Pow(2, E), fractionals);
  }

  lemma BelowNext(x: int, y: int, one: int, f: int)
    requires x < y && 0 <= f < one
    ensures x * one + f < y * one
  {
    MulMono(x + 1, y, one);
    assert (x + 1) * one == x * one + one;
  }

  lemma TenthIsLess(d: int, one: int)
    requires 0 <= d && 0 <= one
    ensures (d / 10) * one <= d * one
  {
  }

  lemma AtLeastOnce(x: int, d: int)
    requires 0 < d <= x
    ensures x / d >= 1
  {
  }

  /** Splitting a digit off the integral part. */
  lemma IntegralStep(integrals: int, divisor: int, one: int, fractionals: int)
    requires 0 < divisor && 0 <= integrals && 0 <= fractionals < one
    ensures integrals * one + fractionals ==
            (integrals / divisor) * (divisor * one) + ((integrals % divisor) * one + fractionals)
    ensures 0 <= (integrals % divisor) * one + fractionals < divisor * one
    ensures (integrals % divisor) * one <= integrals * one
  {
    var d, r := integrals / divisor, integrals % divisor;
    DivMod(integrals, divisor);
    assert integrals * one == (d * divisor) * one + r * one;
    MulAssoc(d, divisor, one);
    MulMono(0, r, one);
    MulMono(r + 1, divisor, one);
    assert (r + 1) * one == r * one + one;
    MulMono(0, d, divisor);
    MulMono(r, integrals, one);
  }

  /** The next digit of the integral part. */
  method IntegralDigit(ghost tooHigh: int, ghost unsafe: int, ghost E: nat, ghost q: int, ghost k: int,
                       integrals: uint32, divisor: uint32, one: uint64, fractionals: uint64)
    returns (digit: int, left: uint32, rest: uint64)
    requires 0 < k && divisor == Pow(10, k - 1) && one == Pow(2, E) && fractionals < one && 0 <= unsafe
    requires Generating(tooHigh, unsafe, E, q, k, integrals * one + fractionals)
    requires integrals * one + fractionals <= tooHigh < 0x1_0000_0000_0000_0000
    ensures 0 <= digit <= 9 && (divisor <= integrals ==> digit != 0)
    ensures left < divisor && rest == left * one + fractionals < divisor * one && rest <= integrals * one + fractionals
    ensures divisor * one == Ten(k - 1, E) && Unit(k - 1) == 1
    ensures tooHigh == (10 * q + digit) * (divisor * one) + rest && AllMiss(tooHigh, unsafe, 10 * (divisor * one))
    ensures unsafe <= rest ==> Generating(tooHigh, unsafe, E, 10 * q + digit, k - 1, rest)
  {
    hide Pow, AllMiss, Unit, Ten, Generating;
    ghost var before := integrals * one + fractionals;
    IntegralStep(integrals, divisor, one, fractionals);
    TenAndUnit(k - 1, E);
    if divisor <= integrals { AtLeastOnce(integrals, divisor); }
    digit := integrals / divisor;
    left := integrals % divisor;
    rest := left * one + fractionals;
    NextDigit(tooHigh, unsafe, E, q, k, before, digit, rest);
  }

  /** Digits of the integral part, then of the fraction, until what is left out reaches into the unsafe interval. */
  method DigitGen(low: uint64, w: uint64, high: uint64, E: nat, buffer: array<char>)
    returns (ok: bool, length: nat, kappa: int)
    requires Boundaries(low, w, high, E) && 17 <= buffer.Length
    modifies buffer
    ensures ok ==> 0 < length <= 17 && AllDigits(buffer[..length]) && buffer[0] != '0'
    ensures ok ==> AllShortest(low, w, high, E, DigitsVal(buffer[..length]), kappa)
    ensures ok ==> 1 <= length + kappa
  {
    hide Pow, DigitsVal, AllMiss, AllShortest, Generating;
    var tooHigh: uint64 := high + 1;
    var unsafe: uint64 := tooHigh - (low - 1);
    OneBounds(E);
    var one: uint64 := Pow(2, E);
    IntegralPart(tooHigh, E, tooHigh / one);
    var integrals: uint32, fractionals: uint64 := tooHigh / one, tooHigh % one;
    var divisor: uint32, exponentPlusOne := BiggestPowerTen(integrals, 64 - E);
    kappa, length := exponentPlusOne, 0;
    PowSucc(10, kappa - 1);
    GenerationStarts(tooHigh, unsafe, E, kappa, integrals, fractionals);
    MulMono(divisor, integrals, one);
    ghost var k0, power := kappa, divisor;
    DigitsOfNothing(buffer);
    while kappa > 0
      invariant 0 <= kappa <= k0 && length == k0 - kappa && length <= 16
      invariant AllDigits(buffer[..length]) && (length > 0 ==> buffer[0] != '0')
      invariant kappa > 0 ==> divisor == Pow(10, kappa - 1) && 1 <= divisor && divisor * one <= tooHigh
      invariant integrals * one + fractionals <= tooHigh
      invariant length == 0 ==> divisor <= integrals
      invariant Generating(tooHigh, unsafe, E, DigitsVal(buffer[..length]), kappa, integrals * one + fractionals)
      invariant kappa == 0 ==> integrals == 0
    {
      ghost var q := DigitsVal(buffer[..length]);
      var digit, left, rest := IntegralDigit(tooHigh, unsafe, E, q, kappa, integrals, divisor, one, fractionals);
      integrals := left;
      PutDigit(buffer, length, digit);
      length := length + 1;
      kappa := kappa - 1;
      if rest < unsafe {
        ok := Weed(low, w, high, E, buffer, length, kappa, rest, divisor * one, 1, unsafe, tooHigh - w);
        return;
      }
      AtMostSixteen(low, w, high, E, DigitsVal(buffer[..length]), kappa, rest, k0);
      if kappa > 0 { PowSucc(10, kappa - 1); }
      TenthIsLess(divisor, one);
      divisor := divisor / 10;
    }
    ok, length, kappa := FractionDigits(low, w, high, E, buffer, length, k0, fractionals, unsafe, one);
  }

  lemma TenAndUnit(k: int, E: nat)
    requires 0 <= k
    ensures Ten(k, E) == Pow(10, k) * Pow(2, E) && Unit(k) == 1
  {
  }

  lemma DigitsOfNothing(buffer: array<char>)
    ensures DigitsVal(buffer[..0]) == 0
  {
  }

  /** The digits behind the decimal separator: everything is scaled up by ten for each of them. */
  method FractionDigits(low: uint64, w: uint64, high: uint64, E: nat, buffer: array<char>, length0: nat, ghost k0: int,
                        fractionals0: uint64, unsafe0: uint64, one: uint64)
    returns (ok: bool, length: nat, kappa: int)
    requires Boundaries(low, w, high, E) && 17 <= buffer.Length && one == Pow(2, E) && unsafe0 == high - low + 2
    requires 1 <= length0 <= 16 && length0 == k0 && AllDigits(buffer[..length0]) && buffer[0] != '0'
    requires Generating(high + 1, high - low + 2, E, DigitsVal(buffer[..length0]), 0, fractionals0)
    requires Pow(10, k0 - 1) * Pow(2, E) <= high + 1
    modifies buffer
    ensures ok ==> 0 < length <= 17 && AllDigits(buffer[..length]) && buffer[0] != '0'
    ensures ok ==> AllShortest(low, w, high, E, DigitsVal(buffer[..length]), kappa)
    ensures ok ==> 1 <= length + kappa
  {
    hide Pow, DigitsVal, AllMiss, AllShortest, Unit, Ten, Generating;
    OneBounds(E);
    TenAndOne(0, E);
    var fractionals: uint64, unsafe: uint64, unit: uint64 := fractionals0, unsafe0, 1;
    length, kappa := length0, 0;
    while true
      invariant kappa <= 0 && length == k0 - kappa && 1 <= length <= 16
      invariant AllDigits(buffer[..length]) && buffer[0] != '0'
      invariant unit == Unit(kappa) && unsafe == (high - low + 2) * unit && one == Ten(kappa, E)
      invariant Generating(high + 1, high - low + 2, E, DigitsVal(buffer[..length]), kappa, fractionals)
      decreases one - unsafe
    {
      ghost var q, before := DigitsVal(buffer[..length]), fractionals;
      GeneratingRoom(high + 1, high - low + 2, E, q, kappa, fractionals);
      UnitPositive(kappa);
      MulMono(4, high - low + 2, unit);
      PowerStep(kappa, E);
      TimesCu(10, high - low + 2, unit);
      fractionals := fractionals * 10;
      unit := unit * 10;
      unsafe := unsafe * 10;
      var digit := fractionals / one;
      fractionals := fractionals % one;
      DivMod(10 * before, one);
      NextDigit(high + 1, high - low + 2, E, q, kappa, before, digit, fractionals);
      PutDigit(buffer, length, digit);
      length := length + 1;
      kappa := kappa - 1;
      if fractionals < unsafe {
        DistanceFits(low, w, high, unit);
        ok := Weed(low, w, high, E, buffer, length, kappa, fractionals, one, unit, unsafe, (high + 1 - w) * unit);
        return;
      }
      AtMostSixteen(low, w, high, E, DigitsVal(buffer[..length]), kappa, fractionals, k0);
    }
  }

  lemma TenAndOne(k: int, E: nat)
    requires k == 0
    ensures Ten(k, E) == Pow(2, E) && Unit(k) == 1
  {
  }

  lemma GeneratingRoom(tooHigh: int, unsafe: int, E: nat, q: int, k: int, rest: int)
    requires Generating(tooHigh, unsafe, E, q, k, rest)
    ensures unsafe * Unit(k) <= rest < Ten(k, E)
  {
  }
}
