/** The 128-bit integer of the fixed-notation fast path, on two 64-bit words. */
module UInt128Model {
  import opened Arith

  class UInt128 {
    var highBits: uint64
    var lowBits: uint64

    constructor (high: uint64, low: uint64)
      ensures highBits == high && lowBits == low
    {
      highBits, lowBits := high, low;
    }

    ghost function Value(): (v: nat)
      reads this
      ensures v < 0x1_0000_0000_0000_0000_0000_0000_0000_0000
    {
      highBits * 0x1_0000_0000_0000_0000 + lowBits
    }

    /** Four 32-bit digits times a 32-bit number, with a 64-bit accumulator. */
    method Multiply(multiplicand: uint32)
      requires Value() * multiplicand < 0x1_0000_0000_0000_0000_0000_0000_0000_0000
      modifies this
      ensures Value() == old(Value()) * multiplicand
    {
      var l0, l1: uint64 := lowBits % 0x1_0000_0000, lowBits / 0x1_0000_0000;
      var h0, h1: uint64 := highBits % 0x1_0000_0000, highBits / 0x1_0000_0000;
      ProductFits(l0, multiplicand);
      ProductFits(l1, multiplicand);
      ProductFits(h0, multiplicand);
      ProductFits(h1, multiplicand);
      FourDigits(highBits, lowBits, l0, l1, h0, h1, multiplicand);
      ghost var a, b, c, d := l0 * multiplicand, l1 * multiplicand, h0 * multiplicand, h1 * multiplicand;
      var accumulator: uint64 := l0 * multiplicand;
      var part: uint64 := accumulator % 0x1_0000_0000;
      accumulator := accumulator / 0x1_0000_0000;
      accumulator := accumulator + l1 * multiplicand;
      lowBits := accumulator % 0x1_0000_0000 * 0x1_0000_0000 + part;
      accumulator := accumulator / 0x1_0000_0000;
      accumulator := accumulator + h0 * multiplicand;
      part := accumulator % 0x1_0000_0000;
      accumulator := accumulator / 0x1_0000_0000;
      accumulator := accumulator + h1 * multiplicand;
      highBits := accumulator % 0x1_0000_0000 * 0x1_0000_0000 + part;
      assert accumulator / 0x1_0000_0000 == 0;
    }

    /** A positive amount shifts right, a negative one left; bits that leave the 128 are lost. */
    method Shift(amount: int)
      requires -64 <= amount <= 64
      modifies this
      ensures amount >= 0 ==> Value() == old(Value()) / Pow(2, amount)
      ensures amount < 0 ==> Value() == old(Value()) * Pow(2, -amount) % 0x1_0000_0000_0000_0000_0000_0000_0000_0000
    {
      hide Pow;
      Pow1(2);
      Pow2Values();
      if amount == 0 {
        return;
      } else if amount == -64 {
        LeftByWord(highBits, lowBits);
        highBits := lowBits;
        lowBits := 0;
      } else if amount == 64 {
        lowBits := highBits;
        highBits := 0;
      } else if amount <= 0 {
        ShiftFactors(-amount);
        ShiftLeftArith(highBits, lowBits, Pow(2, -amount), Pow(2, 64 + amount));
        highBits := highBits * Pow(2, -amount) % 0x1_0000_0000_0000_0000 + lowBits / Pow(2, 64 + amount);
        lowBits := lowBits * Pow(2, -amount) % 0x1_0000_0000_0000_0000;
      } else {
        ShiftFactors(amount);
        ShiftRightArith(highBits, lowBits, Pow(2, amount), Pow(2, 64 - amount));
        lowBits := lowBits / Pow(2, amount) + highBits * Pow(2, 64 - amount) % 0x1_0000_0000_0000_0000;
        highBits := highBits / Pow(2, amount);
      }
    }

    /** Keeps the value modulo 2^power and returns the quotient, which must be a small number. */
    method DivModPowerOf2(power: int) returns (result: int)
      requires 0 < power < 128 && Value() / Pow(2, power) < 0x8000_0000
      modifies this
      ensures result == old(Value()) / Pow(2, power) && Value() == old(Value()) % Pow(2, power)
    {
      hide Pow;
      if power >= 64 {
        DivModHigh(highBits, lowBits, power);
        result := highBits / Pow(2, power - 64);
        highBits := highBits - result * Pow(2, power - 64);
      } else {
        ShiftFactors(power);
        DivModLow(highBits, lowBits, Pow(2, power), Pow(2, 64 - power));
        var partLow: uint64 := lowBits / Pow(2, power);
        var partHigh: uint64 := highBits * Pow(2, 64 - power);
        result := partLow + partHigh;
        highBits := 0;
        lowBits := lowBits - partLow * Pow(2, power);
      }
    }

    predicate IsZero()
      reads this
      ensures IsZero() <==> Value() == 0
    {
      highBits == 0 && lowBits == 0
    }

    /** One bit of the value. */
    method BitAt(position: nat) returns (bit: int)
      requires position < 128
      ensures bit == Value() / Pow(2, position) % 2
    {
      hide Pow;
      if position >= 64 {
        DivModHigh(highBits, lowBits, position);
        bit := highBits / Pow(2, position - 64) % 2;
      } else {
        BitLow(highBits, lowBits, position);
        bit := lowBits / Pow(2, position) % 2;
      }
    }
  }

  lemma FourDigits(high: int, low: int, l0: int, l1: int, h0: int, h1: int, m: int)
    requires low == l1 * 0x1_0000_0000 + l0 && high == h1 * 0x1_0000_0000 + h0
    ensures (high * 0x1_0000_0000_0000_0000 + low) * m == l0 * m + (l1 * m) * 0x1_0000_0000
      + (h0 * m) * 0x1_0000_0000_0000_0000 + (h1 * m) * 0x1_0000_0000_0000_0000_0000_0000
  {
  }

  lemma ShiftFactors(n: nat)
    requires 0 < n < 64
    ensures 2 <= Pow(2, n) && 2 <= Pow(2, 64 - n) && Pow(2, n) * Pow(2, 64 - n) == 0x1_0000_0000_0000_0000
  {
    hide Pow;
    Pow2Values();
    Pow1(2);
    PowAdd(2, n, 64 - n);
    PowMono(2, 1, n);
    PowMono(2, 1, 64 - n);
  }

  lemma LeftByWord(high: uint64, low: uint64)
    ensures (high * 0x1_0000_0000_0000_0000 + low) * 0x1_0000_0000_0000_0000
      % 0x1_0000_0000_0000_0000_0000_0000_0000_0000
         == low * 0x1_0000_0000_0000_0000
  {
  }

  lemma SplitWord(x: uint64, s: int, t: int)
    requires 2 <= s && 2 <= t && s * t == 0x1_0000_0000_0000_0000
    ensures 0 <= x / s < t && 0 <= x % s < s && x == (x / s) * s + x % s
    ensures x * t == (x / s) * 0x1_0000_0000_0000_0000 + (x % s) * t && (x % s) * t <= 0x1_0000_0000_0000_0000 - t
    ensures x * t % 0x1_0000_0000_0000_0000 == (x % s) * t
  {
    DivMod(x, s);
    var q, r := x / s, x % s;
    if q >= t { MulMono(t, q, s); }
    MulMono(r + 1, s, t);
    assert (r + 1) * t == r * t + t;
    MulMono(0, r, t);
    MulAssoc(q, s, t);
    assert (q * s + r) * t == (q * s) * t + r * t;
    DivModUnique(x * t, 0x1_0000_0000_0000_0000, q, r * t);
  }

  lemma ShiftedTimes(q: int, r: int, a: int, s: int, t: int)
    requires s * t == 0x1_0000_0000_0000_0000
    ensures (q * 0x1_0000_0000_0000_0000 + (a + r * t)) * s == (q * s + r) * 0x1_0000_0000_0000_0000 + a * s
  {
    MulAssoc(r, t, s);
    assert t * s == s * t;
    assert (q * 0x1_0000_0000_0000_0000 + (a + r * t)) * s == (q * 0x1_0000_0000_0000_0000) * s + (a * s + (r * t) * s);
  }

  lemma ShiftRightArith(high: uint64, low: uint64, s: int, t: int)
    requires 2 <= s && 2 <= t && s * t == 0x1_0000_0000_0000_0000
    ensures 0 <= low / s + high * t % 0x1_0000_0000_0000_0000 < 0x1_0000_0000_0000_0000 && 0 <= high / s <= high
    ensures (high * 0x1_0000_0000_0000_0000 + low) / s ==
            (high / s) * 0x1_0000_0000_0000_0000 + (low / s + high * t % 0x1_0000_0000_0000_0000)
  {
    SplitWord(high, s, t);
    SplitWord(low, s, t);
    var q, r, a, b := high / s, high % s, low / s, low % s;
    var w := q * 0x1_0000_0000_0000_0000 + (a + r * t);
    ShiftedTimes(q, r, a, s, t);
    DivModUnique(high * 0x1_0000_0000_0000_0000 + low, s, w, b);
    MulMono(0, q, s - 1);
  }

  lemma ShiftLeftArith(high: uint64, low: uint64, s: int, t: int)
    requires 2 <= s && 2 <= t && s * t == 0x1_0000_0000_0000_0000
    ensures var h, l := high * s % 0x1_0000_0000_0000_0000 + low / t, low * s % 0x1_0000_0000_0000_0000;
      0 <= h < 0x1_0000_0000_0000_0000 && (high * 0x1_0000_0000_0000_0000 + low) * s
        % 0x1_0000_0000_0000_0000_0000_0000_0000_0000 == h * 0x1_0000_0000_0000_0000 + l
  {
    SplitWord(high, t, s);
    SplitWord(low, t, s);
    var h, l := high * s % 0x1_0000_0000_0000_0000 + low / t, low * s % 0x1_0000_0000_0000_0000;
    var v := (high * 0x1_0000_0000_0000_0000 + low) * s;
    assert v == (high * s) * 0x1_0000_0000_0000_0000 + low * s;
    DivModUnique(v, 0x1_0000_0000_0000_0000_0000_0000_0000_0000, high / t, h * 0x1_0000_0000_0000_0000 + l);
  }

  lemma DivModHigh(high: uint64, low: uint64, power: nat)
    requires 64 <= power
    ensures var s, v := Pow(2, power - 64), high * 0x1_0000_0000_0000_0000 + low;
      && v / Pow(2, power) == high / s && 0 <= (high / s) * s <= high
      && v % Pow(2, power) == (high - (high / s) * s) * 0x1_0000_0000_0000_0000 + low
  {
    hide Pow;
    Pow2Values();
    PowAdd(2, power - 64, 64);
    var s := Pow(2, power - 64);
    DivMod(high, s);
    var q, r := high / s, high % s;
    MulMono(0, q, s);
    assert high * 0x1_0000_0000_0000_0000 == (q * s) * 0x1_0000_0000_0000_0000 + r * 0x1_0000_0000_0000_0000;
    MulAssoc(q, s, 0x1_0000_0000_0000_0000);
    DivModUnique(high * 0x1_0000_0000_0000_0000 + low, s * 0x1_0000_0000_0000_0000,
      q, r * 0x1_0000_0000_0000_0000 + low);
  }

  lemma LowQuotient(high: uint64, low: uint64, s: int, t: int)
    requires 2 <= s && 2 <= t && s * t == 0x1_0000_0000_0000_0000
    ensures var v := high * 0x1_0000_0000_0000_0000 + low;
      v / s == low / s + high * t && v % s == low % s && low == (low / s) * s + low % s && 0 <= low % s
  {
  }

  lemma DivModLow(high: uint64, low: uint64, s: int, t: int)
    requires 2 <= s && 2 <= t && s * t == 0x1_0000_0000_0000_0000
    requires (high * 0x1_0000_0000_0000_0000 + low) / s < 0x8000_0000
    ensures var v := high * 0x1_0000_0000_0000_0000 + low;
      && v / s == low / s + high * t && 0 <= high * t < 0x8000_0000 && v % s == low - (low / s) * s && 0 <= v % s
  {
    LowQuotient(high, low, s, t);
    MulMono(0, high, t);
    DivMono(0, low, s);
    DivModUnique(0, s, 0, 0);
  }

  lemma BitLow(high: uint64, low: uint64, position: nat)
    requires position < 64
    ensures (high * 0x1_0000_0000_0000_0000 + low) / Pow(2, position) % 2 == low / Pow(2, position) % 2
  {
    hide Pow;
    if position == 0 {
      Pow1(2);
      EvenPart(low, high * 0x8000_0000_0000_0000);
    } else {
      ShiftFactors(position);
      PowSucc(2, 63 - position);
      LowQuotient(high, low, Pow(2, position), Pow(2, 64 - position));
      EvenPart(low / Pow(2, position), high * Pow(2, 63 - position));
      TwiceIn(high, Pow(2, 63 - position));
    }
  }

  lemma TwiceIn(x: int, y: int)
    ensures x * (2 * y) == 2 * (x * y)
  {
  }

  lemma EvenPart(x: int, y: int)
    ensures (x + 2 * y) % 2 == x % 2
  {
  }
}
