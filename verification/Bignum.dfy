/** The fixed-capacity big natural number of double-conversion. Every operation is proved against the
    number it denotes; machine widths are those of the C++ chunks (32 bits) and double chunks (64 bits). */
module BignumModel {
  import opened Arith
  import opened BigitSeq
  import opened Comba
  import opened Decimal

  const CAPACITY: nat := 128

  /** One bigit of a product: the invariant of the multiplication loops moves up one weight. */
  lemma MulStep(done: int, orig: int, i: nat, digit: int, x: int, factor: int, carry: int, carry': int)
    requires done + Scale(carry, i) == Times(factor, orig)
    requires digit + carry' * 0x1000_0000 == factor * x + carry
    ensures done + Scale(digit, i) + Scale(carry', i + 1) == Times(factor, orig + Scale(x, i))
  {
  }

  /** One bigit of orig + factor * other * P(off), with a running carry of either sign. */
  lemma AddStep(done: int, orig: int, other: int, j: nat, off: nat,
                digit: int, x: int, y: int, factor: int, carry: int, carry': int)
    requires done + Scale(carry, j + off) == orig + Times(factor, Scale(other, off))
    requires digit + carry' * 0x1000_0000 == x + factor * y + carry
    ensures done + Scale(digit, j + off) + Scale(carry', j + off + 1)
         == orig + Scale(x, j + off) + Times(factor, Scale(other + Scale(y, j), off))
  {
    hide P, Scale, Times;
    var n := j + off;
    TimesIs(factor, y);
    ScaleAdd(y, j, off);
    ScaleCarry(x + Times(factor, y) + carry, carry', digit, n);
    ScaleSum(x + Times(factor, y), carry, n);
    ScaleSum(x, Times(factor, y), n);
    ScaleMul(factor, y, n);
    ScaleSum(other, Scale(y, j), off);
    TimesFacts(factor, Scale(other, off), Scale(y, n));
  }

  /** AddStep on the sequences themselves. */
  lemma AddColumn(s: seq<int>, orig: seq<int>, others: seq<int>, i: nat, off: nat,
                  digit: int, factor: int, carry: int, carry': int)
    requires i < |others| && i + off < |s| == |orig| && s[i + off] == orig[i + off]
    requires Val(s, i + off) + Scale(carry, i + off) == Val(orig, i + off) + Times(factor, Scale(Val(others, i), off))
    requires digit + carry' * 0x1000_0000 == orig[i + off] + factor * others[i] + carry
    ensures Val(s[i + off := digit], i + off + 1) + Scale(carry', i + off + 1)
         == Val(orig, i + off + 1) + Times(factor, Scale(Val(others, i + 1), off))
  {
    hide P, Val, Scale, Times;
    AddStep(Val(s, i + off), Val(orig, i + off), Val(others, i), i, off,
            digit, orig[i + off], others[i], factor, carry, carry');
    ValUpdate(s, i + off, digit);
    ValNext(orig, i + off);
    ValNext(others, i);
  }

  /** Lifts a statement about significands that start at the same exponent to the values. */
  lemma DifferenceValue(sig: int, other: int, off: nat, e: nat, factor: int)
    ensures Scale(sig - Times(factor, Scale(other, off)), e) == Scale(sig, e) - Times(factor, Scale(other, off + e))
    ensures Times(factor, Scale(other, off + e)) <= Scale(sig, e) ==> Times(factor, Scale(other, off)) <= sig
  {
    hide P, Scale, Times;
    var t := Times(factor, Scale(other, off));
    ScaleSum(sig, t, e);
    ScaleMul(factor, Scale(other, off), e);
    ScaleAdd(other, off, e);
    ScaleLe(t, sig, e);
  }

  /** One bigit of a subtraction: the sign bit of the wrapped chunk is the borrow. */
  lemma SubtractBigit(x: int, remove: int, difference: int)
    requires 0 <= x < 0x1000_0000 && 0 <= remove <= 0x1000_0000 && difference == (x - remove) % 0x1_0000_0000
    ensures 0 <= difference < 0x1_0000_0000
    ensures 0 <= difference / 0x8000_0000 <= 1
    ensures difference % 0x1000_0000 - difference / 0x8000_0000 * 0x1000_0000 == x - remove
  {
  }

  /** One bigit of a multiple subtraction: the borrow stays within one of the factor. */
  method SubtractMultiple(x: uint32, y: uint32, factor: int, borrow: uint32) returns (digit: uint32, borrow': uint32)
    requires x < 0x1000_0000 && y < 0x1000_0000 && 0 <= factor < 0x1_0000 && borrow <= factor + 1
    ensures digit < 0x1000_0000 && 0 <= borrow' <= factor + 1
    ensures digit + (0 - borrow') * 0x1000_0000 == x + (0 - factor) * y + (0 - borrow)
  {
    MulMono(0, y, factor);
    MulMono(y, 0x1000_0000 - 1, factor);
    var product: uint64 := factor * y;
    assert (0 - factor) * y == 0 - product;
    var remove: uint64 := borrow + product;
    var difference: uint32 := (x - remove % 0x1000_0000) % 0x1_0000_0000;
    SubtractBigit(x, remove % 0x1000_0000, difference);
    digit := difference % 0x1000_0000;
    borrow' := difference / 0x8000_0000 + remove / 0x1000_0000;
  }

  /** A carry running on into the bigits above the shorter operand. */
  lemma RippleStep(done: int, orig: int, total: int, i: nat, digit: int, x: int, carry: int, carry': int)
    requires done + Scale(carry, i) == orig + total
    requires digit + carry' * 0x1000_0000 == x + carry
    ensures done + Scale(digit, i) + Scale(carry', i + 1) == orig + Scale(x, i) + total
  {
  }

  /** The body of the 64-bit multiplication loop: no intermediate leaves 64 bits, and the carry never
      grows past the factor. */
  method MultiplyBigit(factor: uint64, low: uint64, high: uint64, bigit: uint32, carry: uint64)
    returns (digit: uint32, carry': uint64)
    requires low == factor % 0x1_0000_0000 && high == factor / 0x1_0000_0000
    requires bigit < 0x1000_0000 && carry <= factor
    ensures digit < 0x1000_0000 && 0 <= carry' <= factor
    ensures digit + carry' * 0x1000_0000 == factor * bigit + carry
    ensures bigit > 0 && carry' == 0 && factor > 0 ==> digit != 0
  {
    MulMono(bigit, 0x1000_0000 - 1, low);
    MulMono(bigit, 0x1000_0000 - 1, high);
    MulMono(bigit, 0x1000_0000 - 1, factor);
    var productLow: uint64 := low * bigit;
    var productHigh: uint64 := high * bigit;
    var tmp: uint64 := carry % 0x1000_0000 + productLow;
    digit := tmp % 0x1000_0000;
    assert factor == high * 0x1_0000_0000 + low;
    assert factor * bigit == productHigh * 0x1_0000_0000 + productLow;
    carry' := carry / 0x1000_0000 + tmp / 0x1000_0000 + productHigh * 0x10;
    if bigit > 0 && carry' == 0 && factor > 0 { MulMono(1, bigit, factor); }
  }

  /** The 32-bit multiplication loop stays within a double chunk, and its carry within the factor. */
  lemma ChunkProduct(factor: uint32, bigit: uint32, carry: int)
    requires bigit < 0x1000_0000 && 0 <= carry <= factor
    ensures 0 <= factor * bigit + carry < 0x1_0000_0000_0000_0000
    ensures 0 <= (factor * bigit + carry) / 0x1000_0000 <= factor
    ensures bigit > 0 && factor > 0 && (factor * bigit + carry) / 0x1000_0000 == 0 ==>
        (factor * bigit + carry) % 0x1000_0000 != 0
  {
    MulMono(bigit, 0x1000_0000 - 1, factor);
    MulMono(0, bigit, factor);
    if bigit > 0 && factor > 0 { MulMono(1, bigit, factor); }
  }

  /** One bigit of a left shift. The chunk shift may lose high bits, but only ones the carry keeps. */
  method ShiftBigit(x: uint32, shift: nat, carry: uint32) returns (digit: uint32, newCarry: uint32)
    requires x < 0x1000_0000 && shift < 28 && carry < Pow(2, shift)
    ensures digit < 0x1000_0000 && 0 <= newCarry < Pow(2, shift)
    ensures digit + newCarry * 0x1000_0000 == Pow(2, shift) * x + carry
    ensures x > 0 && newCarry == 0 ==> digit != 0
  {
    PowAdd(2, shift, 28 - shift);
    Pow2Values();
    ShiftParts(x, Pow(2, shift), Pow(2, 28 - shift), carry);
    newCarry := x / Pow(2, 28 - shift);
    digit := (x * Pow(2, shift) % 0x1_0000_0000 + carry) % 0x1_0000_0000 % 0x1000_0000;
  }

  lemma ShiftParts(x: int, s: int, r: int, carry: int)
    requires 0 <= x < 0x1000_0000 && 0 < s && 0 < r && s * r == 0x1000_0000 && 0 <= carry < s
    ensures 0 <= x / r < s <= 0x1000_0000
    ensures (x * s % 0x1_0000_0000 + carry) % 0x1_0000_0000 % 0x1000_0000 + (x / r) * 0x1000_0000 == s * x + carry
    ensures x > 0 ==> s * x + carry > 0
  {
    var q, m := x / r, x % r;
    DivMod(x, r);
    ShiftQuotient(q, m, s, r);
    ShiftLow(q, m, s, r, carry);
    MulMono(0, x, s);
    if x > 0 { MulMono(1, x, s); }
    ShiftWrap(x * s, carry, q, s * m + carry);
  }

  lemma ShiftWrap(xs: nat, carry: nat, q: int, low: int)
    requires xs + carry == q * 0x1000_0000 + low && 0 <= low < 0x1000_0000
    ensures (xs % 0x1_0000_0000 + carry) % 0x1_0000_0000 % 0x1000_0000 == low
  {
  }

  lemma ShiftQuotient(q: int, m: int, s: int, r: int)
    requires 0 < r && 0 < s && s * r == 0x1000_0000 && 0 <= m < r && 0 <= q * r + m < 0x1000_0000
    ensures 0 <= q < s <= 0x1000_0000
  {
  }

  lemma ShiftLow(q: int, m: int, s: int, r: int, carry: int)
    requires 0 < s && s * r == 0x1000_0000 && 0 <= m < r && 0 <= carry < s
    ensures s * (q * r + m) + carry == q * 0x1000_0000 + (s * m + carry)
    ensures 0 <= s * m + carry < 0x1000_0000
  {
    MulMono(m + 1, r, s);
    MulMono(0, m, s);
    MulAssoc(s, q, r);
    MulAssoc(q, s, r);
  }

  /** What the leading bigits say while this is one bigit longer than a divisor o more than a sixteenth of it:
      d and t are the leading bigits of this and of the divisor, w the weight of the divisor's. */
  lemma ExcessArith(v: int, o: int, w: int, d: int, t: int)
    requires 0 < w && 0 < d && 0 < t < 0x1000_0000
    requires d * (0x1000_0000 * w) <= v < 16 * o
    requires t * w <= o < (t + 1) * w
    ensures t >= 0x1000_0000 / 16 && d < 16
    ensures 0 < d * o < v && v - d * o < 16 * o
    ensures v - d * o < w ==> t == 0x1000_0000 - 1 && o != t * w
    ensures 0x1000_0000 * w - o <= v - d * o
  {
    assert d * 0x1000_0000 < 16 * (t + 1) by {
      MulAssoc(d, 0x1000_0000, w);
      MulAssoc(16, t + 1, w);
      MulCancel(d * 0x1000_0000, 16 * (t + 1), w);
    }
    MulMono(t + 1, 0x1000_0000, w);
    ExcessRest(v, o, 0x1000_0000 * w, d, w);
    MulStrict(0, d, o);
    if v - d * o < w {
      MulCancel(0x1000_0000 - 1, t + 1, w);
    }
  }

  lemma ExcessRest(v: int, o: int, next: int, d: int, w: int)
    requires 0 < d < 16 && 0 < o < next && d * next <= v < 16 * o
    ensures d * o < v && v - d * o < 16 * o
    ensures v - d * o < w ==> next - o < w
    ensures next - o <= v - d * o
  {
    assert d * next - d * o == d * (next - o);
    MulMono(1, d, next - o);
    MulStrict(0, d, o);
  }

  /** Taking away multiples of o until length bigits are left leaves less than length bigits: when the true
      remainder is that short, but not shorter than what o lacks to the next power. */
  ghost predicate EndsShorter(v: int, o: int, length: nat)
    requires 0 < length && 0 < o
  {
    P(length) <= v && P(length) - o <= v % o < P(length - 1)
  }

  /** The lengths need not be equal before the last step of the division: 2^56 over 2^56 - 1 is a case. */
  lemma LengthsDiffer()
    ensures var v, o := P(2), P(2) - 1; 0 < o && v < 16 * o && P(1) <= o && EndsShorter(v, o, 2)
  {
  }

  /** What is left after taking m times o away is the remainder exactly if that is not below next - o. */
  lemma ShorterIff(v: int, v1: int, o: int, m: int, next: int, w: int)
    requires 0 < w <= o < next && v == m * o + v1 && next - o <= v1 < next
    ensures v1 < w <==> next - o <= v % o < w
  {
    if v1 < o {
      DivModUnique(v, o, m, v1);
    } else if v1 < 2 * o {
      assert (m + 1) * o == m * o + o;
      DivModUnique(v, o, m + 1, v1 - o);
    } else {
      MoreMultiples(v, v1, o, m);
    }
  }

  lemma MoreMultiples(v: int, v1: int, o: int, m: int)
    requires 0 < o <= v1 && v == m * o + v1
    ensures v % o == v1 % o && v1 % o <= v1 - o
  {
    DivMod(v1, o);
    assert (m + v1 / o) * o == m * o + (v1 / o) * o;
    DivModUnique(v, o, m + v1 / o, v1 % o);
    MulMono(1, v1 / o, o);
  }

  /** The weights of two different lengths, for ExcessArith. */
  lemma ExcessLength(v: int, o: int, lengthV: nat, lengthO: nat, d: int, t: int)
    requires 0 < lengthO < lengthV && 0 < d && 0 < t < 0x1000_0000
    requires Scale(d, lengthV - 1) <= v < 16 * o && o < Scale(t + 1, lengthO - 1)
    ensures lengthV == lengthO + 1 && Scale(d, lengthV - 1) == d * (0x1000_0000 * P(lengthO - 1))
  {
    var w := P(lengthO - 1);
    MulMono(t + 1, 0x1000_0000, w);
    MulMono(1, d, P(lengthV - 1));
    if lengthV > lengthO + 1 {
      PStrict(lengthO, lengthV - 1);
    }
  }

  /** The quotient estimate from the leading bigits never overshoots. */
  lemma EstimateArith(v: int, o: int, w: int, top: int, t: int, estimate: int)
    requires 0 < w && 0 < t && 0 <= top && 0 < o
    requires top * w <= v < (top + 1) * w && t * w <= o < (t + 1) * w && v < 16 * o
    requires estimate == top / (t + 1)
    ensures 0 <= estimate < 16 && estimate * o <= v
    ensures t * (estimate + 1) > top ==> v - estimate * o < o
  {
    DivMod(top, t + 1);
    EstimateLow(v, o, w, top, t, estimate);
    if t * (estimate + 1) > top {
      EstimateHigh(v, o, w, top, t, estimate);
      assert (estimate + 1) * o == estimate * o + o;
    }
  }

  lemma EstimateLow(v: int, o: int, w: int, top: int, t: int, estimate: int)
    requires 0 < w && 0 <= estimate && 0 < o
    requires top * w <= v < 16 * o && o < (t + 1) * w && estimate * (t + 1) <= top
    ensures estimate < 16 && estimate * o <= v
  {
  }

  lemma EstimateHigh(v: int, o: int, w: int, top: int, t: int, estimate: int)
    requires 0 < w && 0 <= estimate
    requires v < (top + 1) * w && t * w <= o && top + 1 <= t * (estimate + 1)
    ensures v < (estimate + 1) * o
  {
    MulMono(top + 1, t * (estimate + 1), w);
    MulAssoc(estimate + 1, t, w);
    MulMono(t * w, o, estimate + 1);
  }

  /** Dividing by a single bigit only touches the leading bigit. */
  lemma SingleArith(v: int, o: int, w: int, top: int, t: int)
    requires 0 < w && 0 < t && 0 <= top && o == t * w && top * w <= v < (top + 1) * w && v < 16 * o
    ensures 0 <= top / t < 16 && t * (top / t) <= top
    ensures v - (top - t * (top / t)) * w == (top / t) * o + (v - top * w)
    ensures 0 <= v - (top / t) * o < o
  {
    var q, m := top / t, top % t;
    DivMod(top, t);
    assert t * q == q * t;
    MulAssoc(q, t, w);
    assert top * w == (q * t) * w + m * w;
    MulMono(m + 1, t, w);
    MulMono(0, m, w);
    MulCancel(q, 16, o);
  }

  /** The number of binary digits, as AssignPowerUInt16 counts them. */
  ghost function BitSize(n: nat): nat {
    if n == 0 then 0 else 1 + BitSize(n / 2)
  }

  ghost function OddPart(n: nat): nat {
    if n == 0 || n % 2 == 1 then n else OddPart(n / 2)
  }

  method RemoveTwos(base0: uint16) returns (base: uint16, shifts: nat)
    requires base0 != 0
    ensures base == OddPart(base0) && base > 0 && base0 == Pow(2, shifts) * base
  {
    base, shifts := base0, 0;
    while base % 2 == 0
      invariant 0 < base && OddPart(base) == OddPart(base0) && base0 == Pow(2, shifts) * base
      decreases base
    {
      MulAssoc(Pow(2, shifts), 2, base / 2);
      base := base / 2;
      shifts := shifts + 1;
    }
  }

  lemma {:induction false} BitSizeBounds(n: nat)
    ensures n < Pow(2, BitSize(n))
    ensures n > 0 ==> Pow(2, BitSize(n) - 1) <= n
  {
    if n > 0 { BitSizeBounds(n / 2); }
  }

  method CountBits(base: uint16) returns (bitSize: nat)
    requires base > 0
    ensures bitSize == BitSize(base) && 0 < bitSize <= 16 && base < Pow(2, bitSize)
  {
    bitSize := 0;
    var tmpBase := base;
    while tmpBase != 0
      invariant 0 <= tmpBase && bitSize + BitSize(tmpBase) == BitSize(base)
      decreases tmpBase
    {
      tmpBase := tmpBase / 2;
      bitSize := bitSize + 1;
    }
    BitSizeBounds(base);
    Pow2Values();
    if bitSize > 16 { PowMono(2, 16, bitSize - 1); }
  }

  /** A power of two, or zero once it has been shifted out. */
  ghost predicate IsMask(mask: nat) {
    mask <= 1 || (mask % 2 == 0 && IsMask(mask / 2))
  }

  /** The leading bits of power above the mask. */
  ghost function Prefix(power: nat, mask: nat): nat {
    if mask == 0 then power else Quotient(power, mask) / 2
  }

  predicate Bit(power: nat, mask: nat)
    requires 0 < mask
  {
    power / mask % 2 != 0
  }

  ghost function Quotient(x: nat, d: nat): (q: nat)
    requires 0 < d
    ensures q == x / d
  {
    DivNonneg(x, d);
    x / d
  }

  lemma DivNonneg(x: nat, d: nat)
    requires 0 < d
    ensures 0 <= x / d
  {
  }

  lemma DivHalf(x: nat, m: nat)
    requires 0 < m
    ensures x / m / 2 == x / (2 * m)
  {
    var h := x / m;
    var q, b, r := h / 2, h % 2, x % m;
    DivMod(x, m);
    assert h == 2 * q + b;
    MulAssoc(q, 2, m);
    assert x == q * (2 * m) + (b * m + r);
    assert 0 <= b * m + r < 2 * m by { assert b == 0 || b == 1; }
    DivModUnique(x, 2 * m, q, b * m + r);
  }

  lemma PrefixZero(power: nat)
    ensures Prefix(power, 0) == power
  {
  }

  lemma PrefixStep(power: nat, mask: nat)
    requires 0 < mask && IsMask(mask)
    ensures Prefix(power, mask / 2) == 2 * Prefix(power, mask) + Quotient(power, mask) % 2 <= power
    ensures IsMask(mask / 2)
  {
    if mask == 1 {
      DivModUnique(power, 1, power, 0);
    } else {
      DivHalf(power, mask / 2);
      assert 2 * (mask / 2) == mask;
      DivMod(power, mask);
      MulMono(1, mask, Quotient(power, mask));
    }
  }

  /** The mask just below the leading one bit of power. */
  method TopMask(power: nat) returns (mask: nat)
    requires power > 0
    ensures IsMask(mask) && Prefix(power, mask) == 1
  {
    mask := 1;
    while power >= mask
      invariant 0 < mask && IsMask(mask) && mask <= 2 * power && (mask > 1 ==> mask / 2 <= power)
      decreases 2 * power - mask
    {
      mask := 2 * mask;
      assert mask / 2 * 2 == mask;
    }
    TopMaskDone(power, mask);
    mask := mask / 4;
  }

  lemma TopMaskDone(power: nat, mask: nat)
    requires power > 0 && IsMask(mask) && 1 < mask && mask / 2 <= power < mask
    ensures IsMask(mask / 4) && Prefix(power, mask / 4) == 1
  {
    var half := mask / 2;
    assert mask == 2 * half && IsMask(half);
    assert mask / 4 == half / 2;
    if half > 1 {
      assert 2 * (half / 2) == half;
      DivModUnique(power, half, 1, power - half);
      DivHalf(power, half / 2);
    }
  }

  /** base^prefix stays below the size that was reserved for the whole power. */
  lemma PowerBelow(base: nat, bitSize: nat, p: nat, n: nat)
    requires base < Pow(2, bitSize)
    ensures bitSize * p >= 0 && bitSize * n >= 0
    ensures p > 0 ==> Pow(base, p) < Pow(2, bitSize * p)
    ensures 0 < p <= n ==> Pow(base, p) < Pow(2, bitSize * n)
  {
    PowPow(2, bitSize, p);
    MulMono(0, bitSize, n);
    if p > 0 {
      PowBaseStrict(base, Pow(2, bitSize), p);
      if p <= n {
        MulMono(p, n, bitSize);
        PowMono(2, bitSize * p, bitSize * n);
      }
    }
  }

  lemma {:induction false} PowBaseStrict(a: nat, b: nat, p: nat)
    requires a < b && p > 0
    ensures Pow(a, p) < Pow(b, p)
  {
    Pow1(a);
    Pow1(b);
    if p > 1 {
      PowBaseStrict(a, b, p - 1);
      MulMono(Pow(a, p - 1), Pow(b, p - 1), a);
      MulStrict(a, b, Pow(b, p - 1));
    }
  }

  /** The squarings that fit 64 bits. A multiplication that might not fit is put off; that happens at most
      once, because the value is then too large for another squaring. */
  method PowerInWord(base: uint16, power: nat, mask0: nat, bitSize: nat)
    returns (thisValue: uint64, delayed: bool, mask: nat)
    requires 0 < base < Pow(2, bitSize) && 0 < bitSize <= 16
    requires IsMask(mask0) && Prefix(power, mask0) == 1
    ensures IsMask(mask) && 0 < Prefix(power, mask)
    ensures 0 <= thisValue && (if delayed then base * thisValue else thisValue) == Pow(base, Prefix(power, mask))
  {
    hide Pow, IsMask, Prefix;
    mask, thisValue, delayed := mask0, base, false;
    Pow1(base);
    while mask != 0 && thisValue <= 0xffff_ffff
      invariant IsMask(mask) && 0 < Prefix(power, mask) && 0 <= thisValue < 0x1_0000_0000_0000_0000
      invariant delayed ==> thisValue > 0xffff_ffff
      invariant (if delayed then base * thisValue else thisValue) == Pow(base, Prefix(power, mask))
      decreases mask
    {
      ghost var p := Prefix(power, mask);
      PrefixStep(power, mask);
      PowAdd(base, p, p);
      PowSucc(base, 2 * p);
      MulMono(thisValue, 0xffff_ffff, thisValue);
      thisValue := thisValue * thisValue;
      if Bit(power, mask) {
        var highBitsZero := thisValue / Pow(2, 64 - bitSize) == 0;
        WordRoom(base, bitSize, thisValue);
        if highBitsZero {
          thisValue := thisValue * base;
        } else {
          delayed := true;
        }
      }
      mask := mask / 2;
    }
  }

  lemma WordRoom(base: nat, bitSize: nat, value: nat)
    requires base < Pow(2, bitSize) && 0 < bitSize <= 16
    ensures value / Pow(2, 64 - bitSize) == 0 ==> value * base < 0x1_0000_0000_0000_0000
    ensures value / Pow(2, 64 - bitSize) != 0 ==> value > 0xffff_ffff
    ensures value * base == base * value
  {
    var room := Pow(2, 64 - bitSize);
    PowAdd(2, bitSize, 64 - bitSize);
    PowMono(2, 48, 64 - bitSize);
    PowMono(2, 32, 48);
    Pow2Values();
    PowAdd(2, 32, 16);
    DivMod(value, room);
    if value / room == 0 {
      MulMono(value, room, base);
      MulStrict(base, Pow(2, bitSize), room);
    } else if value / room < 0 {
      MulMono(value / room, -1, room);
    } else {
      MulMono(1, value / room, room);
    }
  }

  class Bignum {
    const bigits: array<uint32>
    var usedDigits: int
    var exponent: int

    ghost predicate Shape()
      reads this, bigits
    {
      && bigits.Length == CAPACITY
      && 0 <= usedDigits <= CAPACITY
      && 0 <= exponent
      && (forall k :: 0 <= k < usedDigits ==> bigits[k] < 0x1000_0000)
      && (forall k :: usedDigits <= k < CAPACITY ==> bigits[k] == 0)
    }

    predicate IsClamped()
      reads this, bigits
      requires 0 <= usedDigits <= bigits.Length
    {
      usedDigits == 0 || bigits[usedDigits - 1] != 0
    }

    ghost predicate Valid()
      reads this, bigits
    {
      Shape() && IsClamped() && (usedDigits == 0 ==> exponent == 0)
    }

    /** The number in the explicit bigits, without the hidden ones. */
    ghost function Sig(): int
      reads this, bigits
      requires Shape()
    {
      Val(bigits[..], usedDigits)
    }

    ghost function Value(): int
      reads this, bigits
      requires Shape()
    {
      Scale(Sig(), exponent)
    }

    function BigitLength(): int
      reads this
    {
      usedDigits + exponent
    }

    constructor ()
      ensures Valid() && fresh(bigits)
      ensures Value() == 0 && Sig() == 0 && usedDigits == 0
    {
      bigits := new uint32[CAPACITY](_ => 0);
      usedDigits := 0;
      exponent := 0;
    }

    method Zero()
      requires Shape()
      modifies this, bigits
      ensures Valid() && usedDigits == 0 && exponent == 0 && Sig() == 0 && Value() == 0
    {
      ZeroBetween(0, usedDigits);
      usedDigits := 0;
      exponent := 0;
    }

    method Clamp()
      requires Shape()
      modifies this
      ensures Valid()
      ensures Sig() == old(Sig()) && Value() == old(Value())
      ensures usedDigits <= old(usedDigits)
      ensures exponent == if usedDigits == 0 then 0 else old(exponent)
    {
      while usedDigits > 0 && bigits[usedDigits - 1] == 0
        invariant Shape() && Sig() == old(Sig()) && exponent == old(exponent)
        invariant usedDigits <= old(usedDigits)
      {
        ScaleFacts(0, usedDigits - 1);
        usedDigits := usedDigits - 1;
      }
      if usedDigits == 0 {
        exponent := 0;
      }
    }

    method AssignUInt16(value: uint16)
      requires Shape()
      modifies this, bigits
      ensures Valid() && Value() == value && Sig() == value && exponent == 0
    {
      Zero();
      if value == 0 { return; }
      bigits[0] := value;
      usedDigits := 1;
      ScaleFacts(value, 0);
      ValNext(bigits[..], 0);
    }

    method AssignUInt64(value: uint64)
      requires Shape()
      modifies this, bigits
      ensures Valid() && Value() == value && Sig() == value && exponent == 0
    {
      Zero();
      if value == 0 { return; }
      var rest: uint64 := value;
      var i := 0;
      ScaleFacts(rest, 0);
      while i < 3
        modifies bigits
        invariant 0 <= i <= 3
        invariant forall k :: 0 <= k < i ==> bigits[k] < 0x1000_0000
        invariant forall k :: i <= k < CAPACITY ==> bigits[k] == 0
        invariant Val(bigits[..], i) + Scale(rest, i) == value
        invariant i == 1 ==> rest < 0x10_0000_0000
        invariant i == 2 ==> rest < 0x100
        invariant i == 3 ==> rest == 0
      {
        ghost var s: seq<int> := bigits[..];
        ScaleCarry(rest, rest / 0x1000_0000, rest % 0x1000_0000, i);
        ValUpdate(s, i, rest % 0x1000_0000);
        bigits[i] := rest % 0x1000_0000;
        assert bigits[..] == s[i := rest % 0x1000_0000];
        rest := rest / 0x1000_0000;
        i := i + 1;
      }
      usedDigits := 3;
      ScaleFacts(0, 3);
      Clamp();
      ScaleFacts(value, 0);
    }

    method AssignBignum(other: Bignum)
      requires Shape() && other.Valid() && other != this && other.bigits != bigits
      modifies this, bigits
      ensures Valid() && Value() == other.Value() && Sig() == other.Sig()
      ensures exponent == other.exponent && usedDigits == other.usedDigits
    {
      exponent := other.exponent;
      for i := 0 to other.usedDigits
        modifies bigits
        invariant forall k :: 0 <= k < i ==> bigits[k] == other.bigits[k]
        invariant forall k :: i <= k < CAPACITY ==> bigits[k] == old(bigits[k])
      {
        bigits[i] := other.bigits[i];
      }
      if other.usedDigits < usedDigits {
        ZeroBetween(other.usedDigits, usedDigits);
      }
      usedDigits := other.usedDigits;
      ValAgree(bigits[..], other.bigits[..], usedDigits);
    }

    method MultiplyByUInt32(factor: uint32)
      requires Valid()
      requires Times(factor, Sig()) < P(CAPACITY)
      modifies this, bigits
      ensures Valid()
      ensures Sig() == Times(factor, old(Sig())) && Value() == Times(factor, old(Value()))
      ensures exponent == if factor == 0 then 0 else old(exponent)
    {
      hide P, Scale, Times;
      ProductFacts(factor);
      if factor == 1 { return; }
      if factor == 0 {
        Zero();
        return;
      }
      if usedDigits == 0 { return; }
      ghost var orig: seq<int> := bigits[..];
      var carry: uint64 := 0;
      var i := 0;
      while i < usedDigits
        modifies bigits
        invariant 0 <= i <= usedDigits && 0 <= carry <= factor
        invariant forall k :: 0 <= k < i ==> bigits[k] < 0x1000_0000
        invariant forall k :: i <= k < CAPACITY ==> bigits[k] == orig[k]
        invariant Val(bigits[..], i) + Scale(carry, i) == Times(factor, Val(orig, i))
        invariant i == usedDigits && carry == 0 ==> bigits[i - 1] != 0
      {
        ghost var s: seq<int> := bigits[..];
        ChunkProduct(factor, bigits[i], carry);
        var product: uint64 := factor * bigits[i] + carry;
        MulStep(Val(s, i), Val(orig, i), i, product % 0x1000_0000, orig[i], factor, carry, product / 0x1000_0000);
        ValUpdate(s, i, product % 0x1000_0000);
        bigits[i] := product % 0x1000_0000;
        assert bigits[..] == s[i := product % 0x1000_0000];
        carry := product / 0x1000_0000;
        i := i + 1;
      }
      AppendCarry(carry, Times(factor, old(Sig())));
    }

    lemma ProductFacts(factor: nat)
      requires Valid()
      ensures Times(factor, Value()) == Scale(Times(factor, Sig()), exponent)
      ensures Times(factor, 0) == 0 && Scale(0, 0) == 0
      ensures usedDigits == 0 ==> Sig() == 0 && Value() == 0
      ensures factor == 0 ==> Times(factor, Sig()) == 0 && Times(factor, Value()) == 0
      ensures factor == 1 ==> Times(factor, Sig()) == Sig() && Times(factor, Value()) == Value()
    {
    }

    /** The `while (carry != 0)` tail of both multiplications. */
    method AppendCarry(carry0: uint64, ghost total: int)
      requires Shape() && usedDigits > 0
      requires carry0 == 0 ==> IsClamped()
      requires Val(bigits[..], usedDigits) + Scale(carry0, usedDigits) == total < P(CAPACITY)
      modifies this`usedDigits, bigits
      ensures Valid() && Sig() == total && usedDigits >= old(usedDigits)
    {
      hide P, Val, Scale;
      var carry := carry0;
      while carry != 0
        invariant Shape() && usedDigits >= old(usedDigits) && 0 <= carry < 0x1_0000_0000_0000_0000
        invariant carry == 0 ==> IsClamped()
        invariant Val(bigits[..], usedDigits) + Scale(carry, usedDigits) == total
        decreases carry
      {
        ghost var s: seq<int> := bigits[..];
        ValBound(s, usedDigits);
        ScaleFacts(carry, usedDigits);
        ScaleCarry(carry, carry / 0x1000_0000, carry % 0x1000_0000, usedDigits);
        ValUpdate(s, usedDigits, carry % 0x1000_0000);
        bigits[usedDigits] := carry % 0x1000_0000;
        assert bigits[..] == s[usedDigits := carry % 0x1000_0000];
        usedDigits := usedDigits + 1;
        carry := carry / 0x1000_0000;
      }
      ScaleFacts(0, usedDigits);
    }

    method MultiplyByUInt64(factor: uint64)
      requires Valid()
      requires Times(factor, Sig()) < P(CAPACITY)
      modifies this, bigits
      ensures Valid()
      ensures Sig() == Times(factor, old(Sig())) && Value() == Times(factor, old(Value()))
      ensures exponent == if factor == 0 then 0 else old(exponent)
    {
      hide P, Scale, Times;
      ProductFacts(factor);
      if factor == 1 { return; }
      if factor == 0 {
        Zero();
        return;
      }
      ghost var orig: seq<int> := bigits[..];
      var carry: uint64 := 0;
      var low: uint64 := factor % 0x1_0000_0000;
      var high: uint64 := factor / 0x1_0000_0000;
      var i := 0;
      while i < usedDigits
        modifies bigits
        invariant 0 <= i <= usedDigits && 0 <= carry <= factor
        invariant forall k :: 0 <= k < i ==> bigits[k] < 0x1000_0000
        invariant forall k :: i <= k < CAPACITY ==> bigits[k] == orig[k]
        invariant Val(bigits[..], i) + Scale(carry, i) == Times(factor, Val(orig, i))
        invariant i == usedDigits > 0 && carry == 0 ==> bigits[i - 1] != 0
      {
        ghost var s: seq<int> := bigits[..];
        var digit, carry' := MultiplyBigit(factor, low, high, bigits[i], carry);
        MulStep(Val(s, i), Val(orig, i), i, digit, orig[i], factor, carry, carry');
        ValUpdate(s, i, digit);
        bigits[i] := digit;
        assert bigits[..] == s[i := digit];
        carry := carry';
        i := i + 1;
      }
      if usedDigits > 0 {
        AppendCarry(carry, Times(factor, old(Sig())));
      }
    }

    /** Requires enough capacity, as the source does; the shift stays within one bigit. */
    method BigitsShiftLeft(shift: nat)
      requires Valid() && shift < 28 && 0 < usedDigits < CAPACITY
      modifies this`usedDigits, bigits
      ensures Valid() && old(usedDigits) <= usedDigits
      ensures Sig() == Times(Pow(2, shift), old(Sig()))
    {
      hide P, Scale, Times, Pow;
      ghost var orig: seq<int> := bigits[..];
      ghost var factor := Pow(2, shift);
      var carry: uint32 := 0;
      var i := 0;
      ScaleFacts(0, 0);
      TimesFacts(factor, 0, 0);
      while i < usedDigits
        modifies bigits
        invariant 0 <= i <= usedDigits && 0 <= carry < factor
        invariant forall k :: 0 <= k < i ==> bigits[k] < 0x1000_0000
        invariant forall k :: i <= k < CAPACITY ==> bigits[k] == orig[k]
        invariant Val(bigits[..], i) + Scale(carry, i) == Times(factor, Val(orig, i))
        invariant i == usedDigits && carry == 0 ==> bigits[i - 1] != 0
      {
        ghost var s: seq<int> := bigits[..];
        var digit, newCarry := ShiftBigit(bigits[i], shift, carry);
        MulStep(Val(s, i), Val(orig, i), i, digit, orig[i], factor, carry, newCarry);
        ValUpdate(s, i, digit);
        bigits[i] := digit;
        assert bigits[..] == s[i := digit];
        carry := newCarry;
        i := i + 1;
      }
      ScaleFacts(carry, usedDigits);
      if carry != 0 {
        ghost var s: seq<int> := bigits[..];
        ValUpdate(s, usedDigits, carry);
        ShiftCarryFits(shift);
        bigits[usedDigits] := carry;
        assert bigits[..] == s[usedDigits := carry];
        usedDigits := usedDigits + 1;
      }
    }

    static lemma ShiftCarryFits(shift: nat)
      requires shift < 28
      ensures Pow(2, shift) <= 0x1000_0000
    {
      PowMono(2, shift, 28);
      Pow2Values();
    }

    method ShiftLeft(shiftAmount: nat)
      requires Valid()
      requires usedDigits < CAPACITY
      modifies this, bigits
      ensures Valid()
      ensures Sig() == Times(Pow(2, shiftAmount % 28), old(Sig()))
      ensures Value() == Times(Pow(2, shiftAmount), old(Value()))
      ensures exponent == if old(usedDigits) == 0 then 0 else old(exponent) + shiftAmount / 28
    {
      hide P, Scale, Times, Pow;
      ShiftFacts(shiftAmount, Sig(), exponent);
      ScaleFacts(0, 0);
      TimesFacts(Pow(2, shiftAmount), 0, 0);
      TimesFacts(Pow(2, shiftAmount % 28), 0, 0);
      ValZero(bigits[..]);
      if usedDigits == 0 { return; }
      exponent := exponent + shiftAmount / 28;
      var localShift := shiftAmount % 28;
      BigitsShiftLeft(localShift);
    }

    static lemma ShiftProduct(a: int, x: int, m: int, p: int)
      ensures (a * m) * (p * x) == (x * a) * (m * p)
    {
    }

    static lemma ShiftFacts(shift: nat, m: int, e: nat)
      ensures Scale(Times(Pow(2, shift % 28), m), e + shift / 28)
           == Times(Pow(2, shift), Scale(m, e))
    {
      var q, r := shift / 28, shift % 28;
      PIsPow2(q);
      PowAdd(2, 28 * q, r);
      PAdd(e, q);
      ShiftProduct(Pow(2, r), P(q), m, P(e));
    }

    // ---- Comparison

    function BigitAt(index: int): uint32
      reads this, bigits
      requires 0 <= usedDigits <= bigits.Length
    {
      if index >= BigitLength() || index < exponent then 0 else bigits[index - exponent]
    }

    /** The number without its i lowest bigits. */
    ghost function Top(i: nat): int
      reads this, bigits
      requires Shape()
    {
      High(bigits[..], usedDigits, exponent, i)
    }

    lemma TopFacts(i: nat)
      requires Valid()
      ensures Top(i) == 0x1000_0000 * Top(i + 1) + BigitAt(i)
      ensures Scale(Top(i), i) <= Value() < Scale(Top(i) + 1, i)
      ensures i <= exponent ==> Scale(Top(i), i) == Value()
      ensures BigitLength() <= i ==> Top(i) == 0
      ensures 0 <= BigitAt(i) < 0x1000_0000
    {
      HighStep(bigits[..], usedDigits, exponent, i);
      HighBounds(bigits[..], usedDigits, exponent, i);
    }

    lemma LengthBounds()
      requires Valid()
      ensures 0 <= Value() < P(BigitLength())
      ensures 0 < BigitLength() <==> 0 < usedDigits
      ensures 0 < usedDigits <==> 0 < Value()
      ensures 0 < usedDigits <==> 0 < Sig()
      ensures 0 < usedDigits ==> P(BigitLength() - 1) <= Value()
    {
      hide P, Val, Scale;
      ValBound(bigits[..], usedDigits);
      ValZero(bigits[..]);
      ScaleFacts(0, exponent);
      ScaleLe(0, Sig(), exponent);
      ScaleLe(Sig(), P(usedDigits), exponent);
      ScaleFacts(1, usedDigits);
      ScaleAdd(1, usedDigits, exponent);
      ScaleFacts(1, BigitLength());
      if 0 < usedDigits {
        ValTop(bigits[..], usedDigits);
        ScaleFacts(bigits[usedDigits - 1], usedDigits - 1);
        ScaleLe(P(usedDigits - 1), Sig(), exponent);
        ScaleFacts(1, usedDigits - 1);
        ScaleAdd(1, usedDigits - 1, exponent);
        ScaleFacts(1, BigitLength() - 1);
      }
    }

    /** Longer in bigits means larger. */
    static lemma LongerIsLarger(a: Bignum, b: Bignum)
      requires a.Valid() && b.Valid()
      ensures a.BigitLength() < b.BigitLength() ==> a.Value() < b.Value()
      ensures a.BigitLength() + 1 < b.BigitLength() ==> 0x1000_0000 * a.Value() < b.Value()
    {
      hide P, Bignum.Value;
      a.LengthBounds();
      b.LengthBounds();
      if a.BigitLength() < b.BigitLength() {
        PMono(a.BigitLength(), b.BigitLength() - 1);
        if a.BigitLength() + 1 < b.BigitLength() { PStrict(a.BigitLength(), b.BigitLength() - 1); }
      }
    }

    static method Compare(a: Bignum, b: Bignum) returns (r: int)
      requires a.Valid() && b.Valid()
      ensures r == Sign(a.Value() - b.Value())
    {
      hide P, Val, Scale, High;
      LongerIsLarger(a, b);
      LongerIsLarger(b, a);
      if a.BigitLength() < b.BigitLength() { return -1; }
      if a.BigitLength() > b.BigitLength() { return 1; }
      var i := a.BigitLength() - 1;
      a.TopFacts(i + 1);
      b.TopFacts(i + 1);
      while i >= Min(a.exponent, b.exponent)
        invariant Min(a.exponent, b.exponent) - 1 <= i < a.BigitLength()
        invariant a.Top(i + 1) == b.Top(i + 1)
      {
        var bigitA := a.BigitAt(i);
        var bigitB := b.BigitAt(i);
        a.TopFacts(i);
        b.TopFacts(i);
        if bigitA < bigitB {
          ScaleLe(a.Top(i) + 1, b.Top(i), i);
          return -1;
        }
        if bigitA > bigitB {
          ScaleLe(b.Top(i) + 1, a.Top(i), i);
          return 1;
        }
        i := i - 1;
      }
      a.TopFacts(i + 1);
      b.TopFacts(i + 1);
      return 0;
    }

    /** c - (a + b), all three without their i lowest bigits. */
    static ghost function Gap(a: Bignum, b: Bignum, c: Bignum, i: nat): int
      reads a, b, c, a.bigits, b.bigits, c.bigits
      requires a.Shape() && b.Shape() && c.Shape()
    {
      c.Top(i) - a.Top(i) - b.Top(i)
    }

    static lemma GapFacts(a: Bignum, b: Bignum, c: Bignum, i: nat)
      requires a.Valid() && b.Valid() && c.Valid()
      ensures Gap(a, b, c, i) == 0x1000_0000 * Gap(a, b, c, i + 1) + c.BigitAt(i) - a.BigitAt(i) - b.BigitAt(i)
      ensures a.BigitAt(i) < 0x1000_0000 && b.BigitAt(i) < 0x1000_0000 && c.BigitAt(i) < 0x1000_0000
      ensures Gap(a, b, c, i) < 0 ==> a.Value() + b.Value() > c.Value()
      ensures Gap(a, b, c, i) > 1 ==> a.Value() + b.Value() < c.Value()
    {
      hide P, Val, Scale, High;
      a.TopFacts(i);
      b.TopFacts(i);
      c.TopFacts(i);
      SumAtWeight(a.Top(i), b.Top(i), c.Top(i), i);
    }

    static lemma GapDecides(a: Bignum, b: Bignum, c: Bignum, i: nat)
      requires a.Valid() && b.Valid() && c.Valid()
      ensures i <= Min(Min(a.exponent, b.exponent), c.exponent) ==>
        Sign(a.Value() + b.Value() - c.Value()) == -Sign(Gap(a, b, c, i))
      ensures Max(Max(a.BigitLength(), b.BigitLength()), c.BigitLength()) <= i ==> Gap(a, b, c, i) == 0
    {
      hide P, Val, Scale, High;
      a.TopFacts(i);
      b.TopFacts(i);
      c.TopFacts(i);
      SumAtWeight(a.Top(i), b.Top(i), c.Top(i), i);
    }

    static lemma SumAtWeight(a: int, b: int, c: int, i: nat)
      ensures a + b > c ==> Scale(a, i) + Scale(b, i) >= Scale(c + 1, i) > Scale(c, i)
      ensures a + b + 2 <= c ==> Scale(a + 1, i) + Scale(b + 1, i) <= Scale(c, i)
      ensures a + b == c ==> Scale(a, i) + Scale(b, i) == Scale(c, i)
      ensures a + b < c ==> Scale(a, i) + Scale(b, i) < Scale(c, i)
    {
      hide P, Scale;
      ScaleSum(a, b, i);
      ScaleSum(a + 1, b + 1, i);
      ScaleLe(c + 1, a + b, i);
      ScaleLe(c, c + 1, i);
      ScaleLe(a + b + 2, c, i);
      ScaleLe(a + b, c, i);
    }

    /** The exits of PlusCompare that look at bigit lengths only. */
    static lemma EarlyExits(a: Bignum, b: Bignum, c: Bignum)
      requires a.Valid() && b.Valid() && c.Valid()
      requires b.BigitLength() <= a.BigitLength()
      ensures a.BigitLength() + 1 < c.BigitLength() ==> a.Value() + b.Value() < c.Value()
      ensures a.BigitLength() > c.BigitLength() ==> a.Value() + b.Value() > c.Value()
    {
      hide P, Val, High, Scale;
      LongerIsLarger(a, c);
      LongerIsLarger(c, a);
      LongerIsLarger(b, c);
      a.LengthBounds();
      b.LengthBounds();
    }

    /** All bigits of b fit below the lowest explicit bigit of a, so a + b is no longer than a. */
    static lemma HiddenDigitsExit(a: Bignum, b: Bignum, c: Bignum)
      requires a.Valid() && b.Valid() && c.Valid()
      requires b.BigitLength() <= a.exponent && a.BigitLength() < c.BigitLength()
      ensures a.Value() + b.Value() < c.Value()
    {
      hide P, Val, High, Scale;
      b.LengthBounds();
      c.LengthBounds();
      PMono(b.BigitLength(), a.exponent);
      PMono(a.BigitLength(), c.BigitLength() - 1);
      ValBound(a.bigits[..], a.usedDigits);
      ScaleLe(a.Sig() + 1, P(a.usedDigits), a.exponent);
      ScaleSum(a.Sig(), 1, a.exponent);
      ScaleFacts(1, a.exponent);
      ScaleFacts(1, a.usedDigits);
      ScaleAdd(1, a.usedDigits, a.exponent);
      ScaleFacts(1, a.BigitLength());
    }

    /** Compares a + b with c without forming the sum. */
    static method PlusCompare(a: Bignum, b: Bignum, c: Bignum) returns (r: int)
      requires a.Valid() && b.Valid() && c.Valid()
      ensures r == Sign(a.Value() + b.Value() - c.Value())
      decreases a.BigitLength() < b.BigitLength()
    {
      hide Gap, Scale, Val;
      if a.BigitLength() < b.BigitLength() {
        r := PlusCompare(b, a, c);
        return;
      }
      EarlyExits(a, b, c);
      if a.BigitLength() + 1 < c.BigitLength() { return -1; }
      if a.BigitLength() > c.BigitLength() { return 1; }
      if a.exponent >= b.BigitLength() && a.BigitLength() < c.BigitLength() {
        HiddenDigitsExit(a, b, c);
        return -1;
      }
      var borrow: uint32 := 0;
      var minExponent := Min(Min(a.exponent, b.exponent), c.exponent);
      var i := c.BigitLength() - 1;
      GapDecides(a, b, c, i + 1);
      while i >= minExponent
        invariant minExponent - 1 <= i
        invariant borrow == 0 || borrow == 0x1000_0000
        invariant 0x1000_0000 * Gap(a, b, c, i + 1) == borrow
      {
        GapFacts(a, b, c, i);
        var chunkA := a.BigitAt(i);
        var chunkB := b.BigitAt(i);
        var chunkC := c.BigitAt(i);
        var sum: uint32 := chunkA + chunkB;
        if sum > chunkC + borrow { return 1; }
        borrow := chunkC + borrow - sum;
        if borrow > 1 { return -1; }
        borrow := borrow * 0x1000_0000;
        i := i - 1;
      }
      GapDecides(a, b, c, i + 1);
      if borrow == 0 { return 0; }
      return -1;
    }

    // ---- Addition and subtraction

    ghost predicate Apart(other: Bignum) {
      other != this && other.bigits != bigits
    }

    /** Turns hidden zero bigits into explicit ones, so that this starts no higher than other. */
    method Align(other: Bignum)
      requires Valid() && Apart(other) && 0 <= other.exponent
      requires BigitLength() - Min(exponent, other.exponent) <= CAPACITY
      modifies this, bigits
      ensures Valid() && Value() == old(Value()) && BigitLength() == old(BigitLength())
      ensures exponent == Min(old(exponent), other.exponent)
      ensures usedDigits == 0 <==> old(usedDigits) == 0
    {
      hide P, Val, Scale;
      if exponent > other.exponent {
        var zeroDigits := exponent - other.exponent;
        ghost var orig: seq<int> := bigits[..];
        MoveUp(zeroDigits);
        ghost var moved: seq<int> := bigits[..];
        ValShift(orig, moved, zeroDigits, usedDigits);
        ScaleAdd(Val(orig, usedDigits), zeroDigits, exponent - zeroDigits);
        usedDigits := usedDigits + zeroDigits;
        exponent := exponent - zeroDigits;
        assert Shape();
        assert Sig() == Val(moved, usedDigits);
      }
    }

    /** The two copying loops of Align. */
    method MoveUp(zeroDigits: nat)
      requires Shape() && usedDigits + zeroDigits <= CAPACITY
      modifies bigits
      ensures forall k :: 0 <= k < zeroDigits ==> bigits[k] == 0
      ensures forall k :: zeroDigits <= k < usedDigits + zeroDigits ==> bigits[k] == old(bigits[..])[k - zeroDigits]
      ensures forall k :: usedDigits + zeroDigits <= k < CAPACITY ==> bigits[k] == 0
      ensures forall k :: 0 <= k < usedDigits + zeroDigits ==> bigits[k] < 0x1000_0000
      ensures usedDigits > 0 ==> bigits[usedDigits + zeroDigits - 1] == old(bigits[usedDigits - 1])
    {
      ghost var orig, end := bigits[..], usedDigits + zeroDigits;
      CopyUp(zeroDigits);
      forall k | zeroDigits <= k < end ensures bigits[k] == orig[k - zeroDigits] {
        assert orig[k - zeroDigits] == bigits[(k - zeroDigits) + zeroDigits];
      }
      ZeroBetween(0, zeroDigits);
    }

    /** From the top down, so that nothing is overwritten before it is copied. */
    method CopyUp(zeroDigits: nat)
      requires bigits.Length == CAPACITY && 0 <= usedDigits && usedDigits + zeroDigits <= CAPACITY
      modifies bigits
      ensures forall k :: 0 <= k < usedDigits ==> bigits[k + zeroDigits] == old(bigits[..])[k]
      ensures forall k :: usedDigits + zeroDigits <= k < CAPACITY ==> bigits[k] == old(bigits[k])
    {
      hide *;
      ghost var orig := bigits[..];
      var i := usedDigits - 1;
      while i >= 0
        invariant -1 <= i < usedDigits
        invariant forall k :: 0 <= k <= i ==> bigits[k] == orig[k]
        invariant forall k :: i < k < usedDigits ==> bigits[k + zeroDigits] == orig[k]
        invariant forall k :: usedDigits + zeroDigits <= k < CAPACITY ==> bigits[k] == old(bigits[k])
      {
        bigits[i + zeroDigits] := bigits[i];
        i := i - 1;
      }
    }

    method ZeroBetween(from: nat, to: nat)
      requires bigits.Length == CAPACITY && from <= to <= CAPACITY
      modifies bigits
      ensures forall k :: from <= k < to ==> bigits[k] == 0
      ensures forall k :: 0 <= k < from || to <= k < CAPACITY ==> bigits[k] == old(bigits[k])
    {
      for j := from to to
        invariant forall k :: from <= k < j ==> bigits[k] == 0
        invariant forall k :: 0 <= k < from || j <= k < CAPACITY ==> bigits[k] == old(bigits[k])
      {
        bigits[j] := 0;
      }
    }

    method AddUInt64(operand: uint64)
      requires Valid() && Value() + operand < P(CAPACITY - 1)
      modifies this, bigits
      ensures Valid() && Value() == old(Value()) + operand
      ensures operand != 0 ==> exponent == 0
      ensures operand == 0 ==> exponent == old(exponent)
    {
      hide P, Val, Scale, Times;
      if operand == 0 { return; }
      var other := new Bignum();
      other.AssignUInt64(operand);
      LengthBounds();
      LengthBelow(CAPACITY - 1);
      other.LengthBelow(CAPACITY - 1);
      AddBignum(other);
    }

    lemma LengthBelow(n: nat)
      requires Valid() && Value() < P(n)
      ensures BigitLength() <= n && usedDigits <= n
    {
      LengthBounds();
      if n < BigitLength() { PMono(n, BigitLength() - 1); }
    }

    /** The first loop of AddBignum. */
    method AddBigits(other: Bignum) returns (carry: uint32, bigitPos: nat)
      requires Shape() && other.Valid() && Apart(other) && exponent <= other.exponent
      requires other.BigitLength() - exponent < CAPACITY
      modifies bigits
      ensures bigitPos == other.BigitLength() - exponent && 0 <= carry <= 1 && Bigits(bigits[..], CAPACITY)
      ensures forall k :: bigitPos <= k < CAPACITY ==> bigits[k] == old(bigits[k])
      ensures Val(bigits[..], bigitPos) + Scale(carry, bigitPos)
           == Val(old(bigits[..]), bigitPos) + Times(1, Scale(other.Sig(), other.exponent - exponent))
      ensures other.usedDigits > 0 && carry == 0 ==> bigits[bigitPos - 1] > 0
      ensures other.usedDigits == 0 ==> carry == 0
    {
      hide P, Val, Scale, Times;
      ghost var orig: seq<int> := bigits[..];
      ghost var others: seq<int> := other.bigits[..];
      ghost var off: nat := other.exponent - exponent;
      carry := 0;
      bigitPos := other.exponent - exponent;
      ValZero(others);
      ScaleFacts(0, off);
      TimesFacts(1, 0, 0);
      var i := 0;
      while i < other.usedDigits
        modifies bigits
        invariant 0 <= i <= other.usedDigits && bigitPos == i + off && 0 <= carry <= 1
        invariant i == 0 ==> carry == 0
        invariant Bigits(bigits[..], CAPACITY)
        invariant forall k :: bigitPos <= k < CAPACITY ==> bigits[k] == orig[k]
        invariant Val(bigits[..], bigitPos) + Scale(carry, i + off)
               == Val(orig, bigitPos) + Times(1, Scale(Val(others, i), off))
        invariant i > 0 && i == other.usedDigits && carry == 0 ==> bigits[bigitPos - 1] > 0
      {
        ghost var s: seq<int> := bigits[..];
        var sum: uint32 := bigits[bigitPos] + other.bigits[i] + carry;
        AddColumn(s, orig, others, i, off, sum % 0x1000_0000, 1, carry, sum / 0x1000_0000);
        bigits[bigitPos] := sum % 0x1000_0000;
        assert bigits[..] == s[bigitPos := sum % 0x1000_0000];
        carry := sum / 0x1000_0000;
        bigitPos := bigitPos + 1;
        i := i + 1;
      }
    }

    method AddBignum(other: Bignum)
      requires Valid() && other.Valid() && Apart(other)
      requires 1 + Max(BigitLength(), other.BigitLength()) - Min(exponent, other.exponent) <= CAPACITY
      modifies this, bigits
      ensures Valid() && Value() == old(Value()) + other.Value()
      ensures exponent == Min(old(exponent), other.exponent)
    {
      hide P, Val, Scale, Times;
      Align(other);
      ghost var orig: seq<int> := bigits[..];
      ghost var sig := Sig();
      ghost var off: nat := other.exponent - exponent;
      var carry, bigitPos := AddBigits(other);
      ghost var total := Scale(other.Sig(), off);
      ScaleAdd(other.Sig(), off, exponent);
      TimesFacts(1, total, 0);
      ScaleSum(sig, total, exponent);
      RippleCarry(carry, bigitPos, orig, total);
    }

    method CarryOn(carry0: uint32, bigitPos0: nat, ghost orig: seq<int>, ghost total: int) returns (bigitPos: nat)
      requires bigits.Length == CAPACITY == |orig| && 0 <= usedDigits <= CAPACITY && exponent >= 0
      requires Bigits(bigits[..], CAPACITY) && Bigits(orig, CAPACITY)
      requires 0 <= carry0 <= 1 && 1 + Max(usedDigits, bigitPos0) <= CAPACITY
      requires forall k :: bigitPos0 <= k < CAPACITY ==> bigits[k] == orig[k]
      requires forall k :: usedDigits <= k < CAPACITY ==> orig[k] == 0
      requires usedDigits > 0 ==> orig[usedDigits - 1] > 0
      requires bigitPos0 > 0 && carry0 == 0 && bigitPos0 >= usedDigits ==> bigits[bigitPos0 - 1] > 0
      requires carry0 == 1 ==> bigitPos0 > 0
      requires usedDigits == 0 && bigitPos0 == 0 ==> exponent == 0
      requires Val(bigits[..], bigitPos0) + Scale(carry0, bigitPos0) == Val(orig, bigitPos0) + total
      modifies bigits
      ensures bigitPos0 <= bigitPos <= CAPACITY && bigitPos <= Max(usedDigits, bigitPos0) + 1 &&
        Bigits(bigits[..], CAPACITY)
      ensures forall k :: bigitPos <= k < CAPACITY ==> bigits[k] == orig[k]
      ensures bigitPos > 0 && bigitPos >= usedDigits ==> bigits[bigitPos - 1] > 0
      ensures bigitPos == 0 ==> bigitPos0 == 0
      ensures Val(bigits[..], bigitPos) == Val(orig, bigitPos) + total
    {
      hide P, Val, Scale;
      var carry := carry0;
      bigitPos := bigitPos0;
      while carry != 0
        modifies bigits
        invariant 0 <= carry <= 1 && bigitPos0 <= bigitPos <= CAPACITY
        invariant bigitPos <= Max(usedDigits, bigitPos0) + (1 - carry)
        invariant Bigits(bigits[..], CAPACITY)
        invariant forall k :: bigitPos <= k < CAPACITY ==> bigits[k] == orig[k]
        invariant carry == 0 && bigitPos > 0 && bigitPos >= usedDigits ==> bigits[bigitPos - 1] > 0
        invariant carry == 1 ==> bigitPos > 0
        invariant bigitPos == 0 ==> bigitPos0 == 0
        invariant Val(bigits[..], bigitPos) + Scale(carry, bigitPos) == Val(orig, bigitPos) + total
        decreases carry, CAPACITY - bigitPos
      {
        ghost var s: seq<int> := bigits[..];
        var sum: uint32 := bigits[bigitPos] + carry;
        RippleStep(Val(s, bigitPos), Val(orig, bigitPos), total, bigitPos,
          sum % 0x1000_0000, s[bigitPos], carry, sum / 0x1000_0000);
        ValUpdate(s, bigitPos, sum % 0x1000_0000);
        ValNext(orig, bigitPos);
        bigits[bigitPos] := sum % 0x1000_0000;
        assert bigits[..] == s[bigitPos := sum % 0x1000_0000];
        carry := sum / 0x1000_0000;
        bigitPos := bigitPos + 1;
      }
      ScaleFacts(0, bigitPos);
    }

    /** The second half of AddBignum: the carry runs on, then the new length is the larger of the two. */
    method RippleCarry(carry0: uint32, bigitPos0: nat, ghost orig: seq<int>, ghost total: int)
      requires bigits.Length == CAPACITY == |orig| && 0 <= usedDigits <= CAPACITY && exponent >= 0
      requires Bigits(bigits[..], CAPACITY) && Bigits(orig, CAPACITY)
      requires 0 <= carry0 <= 1 && 1 + Max(usedDigits, bigitPos0) <= CAPACITY
      requires forall k :: bigitPos0 <= k < CAPACITY ==> bigits[k] == orig[k]
      requires forall k :: usedDigits <= k < CAPACITY ==> orig[k] == 0
      requires usedDigits > 0 ==> orig[usedDigits - 1] > 0
      requires bigitPos0 > 0 && carry0 == 0 && bigitPos0 >= usedDigits ==> bigits[bigitPos0 - 1] > 0
      requires carry0 == 1 ==> bigitPos0 > 0
      requires usedDigits == 0 && bigitPos0 == 0 ==> exponent == 0
      requires Val(bigits[..], bigitPos0) + Scale(carry0, bigitPos0) == Val(orig, bigitPos0) + total
      modifies this`usedDigits, bigits
      ensures Valid() && Sig() == Val(orig, old(usedDigits)) + total
    {
      hide P, Val, Scale;
      var bigitPos := CarryOn(carry0, bigitPos0, orig, total);
      if bigitPos <= usedDigits {
        ValTailAgree(bigits[..], orig, bigitPos, usedDigits);
      } else {
        ValZeros(orig, usedDigits, bigitPos);
      }
      usedDigits := Max(bigitPos, usedDigits);
    }

    lemma NotShorter(other: Bignum)
      requires Valid() && other.Valid() && other.Value() <= Value()
      ensures other.BigitLength() <= BigitLength()
      ensures other.usedDigits > 0 ==> usedDigits > 0
    {
      LongerIsLarger(this, other);
      LengthBounds();
      other.LengthBounds();
    }

    method SubtractBignum(other: Bignum)
      requires Valid() && other.Valid() && Apart(other)
      requires other.Value() <= Value()
      requires BigitLength() - Min(exponent, other.exponent) <= CAPACITY
      modifies this, bigits
      ensures Valid() && Value() == old(Value()) - other.Value()
      ensures exponent == if usedDigits == 0 then 0 else Min(old(exponent), other.exponent)
    {
      hide P, Val, Scale, Times;
      NotShorter(other);
      Align(other);
      ghost var orig: seq<int> := bigits[..];
      ghost var off: nat := other.exponent - exponent;
      ghost var total := Times(-1, Scale(other.Sig(), off));
      DifferenceValue(Sig(), other.Sig(), off, exponent, 1);
      TimesFacts(1, Scale(other.Sig(), off), 0);
      TimesFacts(1, other.Value(), 0);
      TimesFacts(-1, Scale(other.Sig(), off), 0);
      var borrow := SubtractBigits(other);
      BorrowOn(borrow, other.usedDigits + other.exponent - exponent, orig, total);
      Clamp();
    }

    /** Subtracts the bigits of other at their place; a borrow may be left. */
    method SubtractBigits(other: Bignum) returns (borrow: uint32)
      requires Shape() && other.Valid() && Apart(other) && exponent <= other.exponent
      requires other.BigitLength() - exponent <= CAPACITY
      modifies bigits
      ensures 0 <= borrow <= 1 && Bigits(bigits[..], CAPACITY)
      ensures var end := other.BigitLength() - exponent;
        && (forall k :: end <= k < CAPACITY ==> bigits[k] == old(bigits[..])[k])
        && Val(bigits[..], end) + Scale(0 - borrow, end)
           == Val(old(bigits[..]), end) + Times(-1, Scale(other.Sig(), other.exponent - exponent))
    {
      hide P, Val, Scale, Times;
      ghost var orig: seq<int> := bigits[..];
      ghost var others: seq<int> := other.bigits[..];
      var offset := other.exponent - exponent;
      ghost var off: nat := offset;
      ValZero(others);
      ScaleFacts(0, off);
      TimesFacts(-1, 0, 0);
      borrow := 0;
      var i := 0;
      while i < other.usedDigits
        modifies bigits
        invariant 0 <= i <= other.usedDigits && 0 <= borrow <= 1
        invariant Bigits(bigits[..], CAPACITY)
        invariant forall k :: i + offset <= k < CAPACITY ==> bigits[k] == orig[k]
        invariant Val(bigits[..], i + off) + Scale(0 - borrow, i + off)
               == Val(orig, i + off) + Times(-1, Scale(Val(others, i), off))
      {
        ghost var s: seq<int> := bigits[..];
        var difference: uint32 := (bigits[i + offset] - other.bigits[i] - borrow) % 0x1_0000_0000;
        SubtractBigit(bigits[i + offset], other.bigits[i] + borrow, difference);
        AddColumn(s, orig, others, i, off, difference % 0x1000_0000, -1, 0 - borrow, 0 - difference / 0x8000_0000);
        bigits[i + offset] := difference % 0x1000_0000;
        assert bigits[..] == s[i + offset := difference % 0x1000_0000];
        borrow := difference / 0x8000_0000;
        i := i + 1;
      }
    }

    /** The `while (borrow != 0)` tail of SubtractBignum. */
    method BorrowOn(borrow0: uint32, i0: nat, ghost orig: seq<int>, ghost total: int)
      requires bigits.Length == CAPACITY == |orig| && 0 <= i0 <= usedDigits <= CAPACITY && exponent >= 0
      requires Bigits(bigits[..], CAPACITY) && Bigits(orig, CAPACITY)
      requires 0 <= borrow0 <= 1
      requires forall k :: i0 <= k < CAPACITY ==> bigits[k] == orig[k]
      requires forall k :: usedDigits <= k < CAPACITY ==> orig[k] == 0
      requires Val(bigits[..], i0) + Scale(0 - borrow0, i0) == Val(orig, i0) + total
      requires 0 <= Val(orig, usedDigits) + total
      modifies bigits
      ensures Shape() && Sig() == Val(orig, usedDigits) + total
    {
      hide P, Val, Scale;
      var borrow := borrow0;
      var i := i0;
      while borrow != 0
        modifies bigits
        invariant 0 <= borrow <= 1 && i0 <= i <= usedDigits
        invariant Bigits(bigits[..], CAPACITY)
        invariant forall k :: i <= k < CAPACITY ==> bigits[k] == orig[k]
        invariant Val(bigits[..], i) + Scale(0 - borrow, i) == Val(orig, i) + total
        decreases borrow, usedDigits - i
      {
        ghost var s: seq<int> := bigits[..];
        NoFinalBorrow(s, i, borrow);
        var difference: uint32 := (bigits[i] - borrow) % 0x1_0000_0000;
        SubtractBigit(bigits[i], borrow, difference);
        RippleStep(Val(s, i), Val(orig, i), total, i,
          difference % 0x1000_0000, s[i], 0 - borrow, 0 - difference / 0x8000_0000);
        ValUpdate(s, i, difference % 0x1000_0000);
        ValNext(orig, i);
        bigits[i] := difference % 0x1000_0000;
        assert bigits[..] == s[i := difference % 0x1000_0000];
        borrow := difference / 0x8000_0000;
        i := i + 1;
      }
      ScaleFacts(0, i);
      ValTailAgree(bigits[..], orig, i, usedDigits);
    }

    /** A borrow out of bigit i means that the number below it would be negative. */
    static lemma NoFinalBorrow(s: seq<int>, i: nat, borrow: int)
      requires i <= |s| && Bigits(s, i) && 0 < borrow
      ensures Val(s, i) + Scale(0 - borrow, i) < 0
    {
      hide P, Val, Scale;
      ValBound(s, i);
      ScaleFacts(borrow, i);
      ScaleSum(0, borrow, i);
      ScaleFacts(0, i);
    }

    method SubtractTimes(other: Bignum, factor: int)
      requires Valid() && other.Valid() && Apart(other)
      requires exponent <= other.exponent && 0 <= factor < 0x1_0000
      requires Times(factor, other.Value()) <= Value()
      modifies this, bigits
      ensures Valid() && Value() == old(Value()) - Times(factor, other.Value())
      ensures exponent == if usedDigits == 0 then 0 else old(exponent)
    {
      hide P, Val, Scale, Times;
      other.LengthBounds();
      if factor < 3 {
        var i := 0;
        TimesFacts(0, other.Value(), 0);
        while i < factor
          invariant 0 <= i <= factor
          invariant Valid() && Value() == old(Value()) - Times(i, other.Value())
          invariant exponent == if usedDigits == 0 then 0 else old(exponent)
        {
          TimesMono(i + 1, factor, other.Value());
          LengthBounds();
          SubtractBignum(other);
          LengthBounds();
          i := i + 1;
        }
        return;
      }
      SubtractManyTimes(other, factor);
    }

    static lemma TimesMono(i: int, n: int, v: int)
      requires i <= n && 0 <= v
      ensures Times(i, v) <= Times(n, v)
      ensures Times(i, v) == Times(i - 1, v) + v
    {
    }

    static lemma TimesNegated(factor: int, v: int)
      ensures Times(0 - factor, v) == 0 - Times(factor, v)
    {
    }

    static lemma AtLeastOnce(factor: int, v: int)
      requires 0 < factor && 0 <= v
      ensures v <= Times(factor, v)
    {
      MulMono(1, factor, v);
    }

    lemma OtherFits(other: Bignum, factor: int)
      requires Valid() && other.Valid() && exponent <= other.exponent && 0 < factor
      requires Times(factor, other.Value()) <= Value()
      ensures other.usedDigits > 0 ==> other.usedDigits + other.exponent - exponent <= usedDigits
      ensures 0 <= Sig() + Times(0 - factor, Scale(other.Sig(), other.exponent - exponent))
      ensures Scale(Sig() + Times(0 - factor, Scale(other.Sig(), other.exponent - exponent)), exponent)
           == Value() - Times(factor, other.Value())
    {
      hide P, Val, Scale, Times;
      other.LengthBounds();
      AtLeastOnce(factor, other.Value());
      NotShorter(other);
      TimesNegated(factor, Scale(other.Sig(), other.exponent - exponent));
      DifferenceValue(Sig(), other.Sig(), other.exponent - exponent, exponent, factor);
    }

    /** The bigit-wise loop for factors of at least three. */
    method SubtractManyTimes(other: Bignum, factor: int)
      requires Valid() && other.Valid() && Apart(other)
      requires exponent <= other.exponent && 3 <= factor < 0x1_0000
      requires Times(factor, other.Value()) <= Value()
      modifies this, bigits
      ensures Valid() && Value() == old(Value()) - Times(factor, other.Value())
      ensures exponent == if usedDigits == 0 then 0 else old(exponent)
    {
      hide P, Val, Scale, Times;
      if other.usedDigits == 0 {
        ZeroMultiple(other, factor);
        Clamp();
        return;
      }
      OtherFits(other, factor);
      ghost var orig: seq<int> := bigits[..];
      ghost var others: seq<int> := other.bigits[..];
      var exponentDiff := other.exponent - exponent;
      ghost var off: nat := exponentDiff;
      ghost var minus := 0 - factor;
      ghost var total := Times(minus, Scale(other.Sig(), off));
      ValZero(others);
      ScaleFacts(0, off);
      TimesFacts(minus, 0, 0);
      var borrow: uint32 := 0;
      var i := 0;
      while i < other.usedDigits
        modifies bigits
        invariant 0 <= i <= other.usedDigits && 0 <= borrow <= factor + 1
        invariant Bigits(bigits[..], CAPACITY)
        invariant forall k :: i + exponentDiff <= k < CAPACITY ==> bigits[k] == orig[k]
        invariant Val(bigits[..], i + off) + Scale(0 - borrow, i + off)
               == Val(orig, i + off) + Times(minus, Scale(Val(others, i), off))
      {
        borrow := RemoveMultiple(other, factor, i, exponentDiff, borrow, orig);
        i := i + 1;
      }
      var settled := BorrowUp(borrow, i + exponentDiff, orig, total);
      if settled { return; }
      Clamp();
    }

    lemma ZeroMultiple(other: Bignum, factor: int)
      requires other.Valid() && other.usedDigits == 0
      ensures Times(factor, other.Value()) == 0
    {
    }

    method RemoveMultiple(other: Bignum, factor: int, i: nat, exponentDiff: nat, borrow: uint32, ghost orig: seq<int>)
      returns (borrow': uint32)
      requires bigits.Length == CAPACITY == |orig| && other.Valid() && Apart(other)
      requires i < other.usedDigits && i + exponentDiff < CAPACITY && 3 <= factor < 0x1_0000 && borrow <= factor + 1
      requires Bigits(bigits[..], CAPACITY)
      requires forall k :: i + exponentDiff <= k < CAPACITY ==> bigits[k] == orig[k]
      requires Val(bigits[..], i + exponentDiff) + Scale(0 - borrow, i + exponentDiff)
            == Val(orig, i + exponentDiff) + Times(0 - factor, Scale(Val(other.bigits[..], i), exponentDiff))
      modifies bigits
      ensures Bigits(bigits[..], CAPACITY) && 0 <= borrow' <= factor + 1
      ensures forall k :: i + exponentDiff < k < CAPACITY ==> bigits[k] == orig[k]
      ensures Val(bigits[..], i + exponentDiff + 1) + Scale(0 - borrow', i + exponentDiff + 1)
           == Val(orig, i + exponentDiff + 1) + Times(0 - factor, Scale(Val(other.bigits[..], i + 1), exponentDiff))
    {
      hide P, Val, Scale, Times;
      ghost var s: seq<int> := bigits[..];
      ghost var others: seq<int> := other.bigits[..];
      var digit;
      digit, borrow' := SubtractMultiple(bigits[i + exponentDiff], other.bigits[i], factor, borrow);
      AddColumn(s, orig, others, i, exponentDiff, digit, 0 - factor, 0 - borrow, 0 - borrow');
      bigits[i + exponentDiff] := digit;
      assert bigits[..] == s[i + exponentDiff := digit];
    }

    /** The second loop of SubtractTimes; settled tells that it returned before the leading bigit. */
    method BorrowUp(borrow0: uint32, i0: nat, ghost orig: seq<int>, ghost total: int) returns (settled: bool)
      requires bigits.Length == CAPACITY == |orig| && 0 <= i0 <= usedDigits <= CAPACITY && exponent >= 0
      requires Bigits(bigits[..], CAPACITY) && Bigits(orig, CAPACITY)
      requires 0 <= borrow0 <= 0x1_0000
      requires forall k :: i0 <= k < CAPACITY ==> bigits[k] == orig[k]
      requires forall k :: usedDigits <= k < CAPACITY ==> orig[k] == 0
      requires Val(bigits[..], i0) + Scale(0 - borrow0, i0) == Val(orig, i0) + total
      requires 0 <= Val(orig, usedDigits) + total
      requires usedDigits > 0 && orig[usedDigits - 1] != 0
      modifies bigits
      ensures Shape() && Sig() == Val(orig, usedDigits) + total
      ensures settled ==> IsClamped()
    {
      hide P, Val, Scale;
      var borrow := borrow0;
      var i := i0;
      while i < usedDigits
        modifies bigits
        invariant 0 <= borrow <= 0x1_0000 && i0 <= i <= usedDigits
        invariant Bigits(bigits[..], CAPACITY)
        invariant forall k :: i <= k < CAPACITY ==> bigits[k] == orig[k]
        invariant Val(bigits[..], i) + Scale(0 - borrow, i) == Val(orig, i) + total
      {
        if borrow == 0 {
          ScaleFacts(0, i);
          ValTailAgree(bigits[..], orig, i, usedDigits);
          return true;
        }
        ghost var s: seq<int> := bigits[..];
        var difference: uint32 := (bigits[i] - borrow) % 0x1_0000_0000;
        SubtractBigit(bigits[i], borrow, difference);
        RippleStep(Val(s, i), Val(orig, i), total, i,
          difference % 0x1000_0000, s[i], 0 - borrow, 0 - difference / 0x8000_0000);
        ValUpdate(s, i, difference % 0x1000_0000);
        ValNext(orig, i);
        bigits[i] := difference % 0x1000_0000;
        assert bigits[..] == s[i := difference % 0x1000_0000];
        borrow := difference / 0x8000_0000;
        i := i + 1;
      }
      if borrow > 0 { NoFinalBorrow(bigits[..], i, borrow); }
      ScaleFacts(0, i);
      return false;
    }

    // ---- Division

    /** The leading bigit brackets the value; the bigits below it are less than one of its units. */
    lemma TopBounds()
      requires Valid() && usedDigits > 0
      ensures var w := P(BigitLength() - 1);
        && bigits[usedDigits - 1] * w <= Value() < (bigits[usedDigits - 1] + 1) * w
        && Value() == bigits[usedDigits - 1] * w + Scale(Val(bigits[..], usedDigits - 1), exponent)
        && (usedDigits == 1 ==> Value() == bigits[0] * w)
    {
      hide P, Val;
      var top := bigits[usedDigits - 1];
      var rest := Val(bigits[..], usedDigits - 1);
      ValNext(bigits[..], usedDigits - 1);
      ValBound(bigits[..], usedDigits - 1);
      ValZero(bigits[..]);
      ScaleSum(rest, Scale(top, usedDigits - 1), exponent);
      ScaleAdd(top, usedDigits - 1, exponent);
      ScaleLe(rest, P(usedDigits - 1), exponent);
      ScaleLe(0, rest, exponent);
      ScaleFacts(1, usedDigits - 1);
      ScaleAdd(1, usedDigits - 1, exponent);
    }

    /** this / other as a small integer; this becomes the remainder. */
    method DivideModuloIntBignum(other: Bignum) returns (result: uint16)
      requires Valid() && other.Valid() && Apart(other) && other.usedDigits > 0
      requires Value() < 16 * other.Value()
      requires BigitLength() - Min(exponent, other.exponent) <= CAPACITY
      modifies this, bigits
      ensures Valid() && 0 < other.Value()
      ensures result == old(Value()) / other.Value() && Value() == old(Value()) % other.Value()
      ensures exponent <= old(exponent)
    {
      hide P, Val, Scale, Times;
      ghost var v0 := Value();
      ghost var o := other.Value();
      LengthBounds();
      other.LengthBounds();
      if BigitLength() < other.BigitLength() {
        LongerIsLarger(this, other);
        DivModUnique(v0, o, 0, v0);
        return 0;
      }
      Align(other);
      result := RemoveExcess(other);
      ghost var v1, r1 := Value(), result;
      var quotient;
      if other.usedDigits == 1 {
        quotient := DivideTopBigit(other);
      } else {
        quotient := DivideByEstimate(other);
      }
      QuotientSplit(v0, v1, o, r1, quotient, Value());
      result := result + quotient;
    }

    /** The tail for a divisor of several bigits: estimate from the leading bigits, then correct upwards. */
    method DivideByEstimate(other: Bignum) returns (result: int)
      requires Valid() && other.Valid() && Apart(other) && usedDigits > 0 && other.usedDigits > 1
      requires exponent <= other.exponent
      requires BigitLength() <= other.BigitLength() && 0 < Value() < 16 * other.Value()
      requires BigitLength() < other.BigitLength() ==> other.bigits[other.usedDigits - 1] == 0x1000_0000 - 1
      modifies this, bigits
      ensures Valid() && 0 <= result < 16 && exponent <= old(exponent)
      ensures old(Value()) == result * other.Value() + Value() && 0 <= Value() < other.Value()
    {
      hide P, Val, Scale, Times;
      ghost var v, o := Value(), other.Value();
      var thisBigit := bigits[usedDigits - 1];
      var otherBigit := other.bigits[other.usedDigits - 1];
      var divisionEstimate := thisBigit / (otherBigit + 1);
      Estimate(other, otherBigit, thisBigit, divisionEstimate);
      SubtractTimes(other, divisionEstimate);
      result := divisionEstimate;
      var bound: uint32 := otherBigit * (divisionEstimate + 1);
      if bound > thisBigit { return; }
      result := CorrectUpwards(other, result, v);
    }

    /** The last loop of the division: the estimate may still be too small. */
    method CorrectUpwards(other: Bignum, result0: int, ghost v: int) returns (result: int)
      requires Valid() && other.Valid() && Apart(other) && other.usedDigits > 0
      requires exponent <= other.exponent && 0 <= result0 < 16 && v < 16 * other.Value()
      requires v == result0 * other.Value() + Value()
      modifies this, bigits
      ensures Valid() && 0 <= result < 16 && exponent <= old(exponent)
      ensures v == result * other.Value() + Value() && 0 <= Value() < other.Value()
    {
      hide P, Val, Scale, Times;
      ghost var o := other.Value();
      LengthBounds();
      other.LengthBounds();
      result := result0;
      var more := LessEqual(other, this);
      while more
        invariant Valid() && exponent <= old(exponent) && 0 <= Value()
        invariant v == result * o + Value() && 0 <= result < 16
        invariant more == (o <= Value())
        decreases Value()
      {
        QuotientSplit(v, Value(), o, result, 1, Value() - o);
        SubtractBignum(other);
        LengthBounds();
        result := result + 1;
        more := LessEqual(other, this);
      }
    }

    static method LessEqual(a: Bignum, b: Bignum) returns (r: bool)
      requires a.Valid() && b.Valid()
      ensures r == (a.Value() <= b.Value())
    {
      var c := Compare(a, b);
      return c <= 0;
    }

    static method Less(a: Bignum, b: Bignum) returns (r: bool)
      requires a.Valid() && b.Valid()
      ensures r == (a.Value() < b.Value())
    {
      var c := Compare(a, b);
      return c < 0;
    }

    static method Equal(a: Bignum, b: Bignum) returns (r: bool)
      requires a.Valid() && b.Valid()
      ensures r == (a.Value() == b.Value())
    {
      var c := Compare(a, b);
      return c == 0;
    }

    /** Bookkeeping of the partial quotients. */
    static lemma QuotientSplit(v0: int, v1: int, o: int, r: int, q: int, v2: int)
      requires 0 < o && 0 <= r && 0 <= q && 0 <= v2 && v0 < 16 * o
      requires v0 == r * o + v1 && v1 == q * o + v2
      ensures v0 == (r + q) * o + v2 && 0 <= r + q < 16
      ensures v2 < o ==> r + q == v0 / o && v2 == v0 % o
    {
      MulCancel(r + q, 16, o);
      if v2 < o { DivModUnique(v0, o, r + q, v2); }
    }

    /** Removes multiples of other until this is no longer than other. The remainder may even get shorter,
        but only if the divisor's leading bigit is the largest one, and exactly under the condition EndsShorter. */
    method RemoveExcess(other: Bignum) returns (result: uint16)
      requires Valid() && other.Valid() && Apart(other) && other.usedDigits > 0
      requires other.BigitLength() <= BigitLength() && exponent <= other.exponent
      requires 0 < Value() < 16 * other.Value()
      modifies this, bigits
      ensures Valid() && 0 < usedDigits && exponent <= old(exponent)
      ensures 0 < Value() < 16 * other.Value()
      ensures 0 <= result < 16 && old(Value()) == result * other.Value() + Value()
      ensures BigitLength() <= other.BigitLength()
      ensures BigitLength() < other.BigitLength() ==>
        other.bigits[other.usedDigits - 1] == 0x1000_0000 - 1 && other.usedDigits > 1
      ensures BigitLength() < other.BigitLength() <==> EndsShorter(old(Value()), other.Value(), other.BigitLength())
    {
      hide P, Val, Scale, Times, EndsShorter;
      ghost var v0, o, length := Value(), other.Value(), other.BigitLength();
      result := 0;
      LengthBounds();
      other.LengthBounds();
      ghost var longer := BigitLength() > length;
      if longer { PMono(length, BigitLength() - 1); } else { PMono(BigitLength(), length); }
      while BigitLength() > other.BigitLength()
        invariant Valid() && exponent <= old(exponent) && 0 < usedDigits && 0 < Value() < 16 * o
        invariant 0 <= result < 16 && v0 == result * o + Value()
        invariant BigitLength() < length ==>
            other.bigits[other.usedDigits - 1] == 0x1000_0000 - 1 && other.usedDigits > 1
        invariant BigitLength() < length ==> longer
        invariant longer ==> BigitLength() > length || P(length) - o <= Value()
        invariant !longer ==> BigitLength() == length
        decreases Value()
      {
        Excess(other);
        ghost var v, d := Value(), bigits[usedDigits - 1];
        assert other.bigits[other.usedDigits - 1] >= 0x1000_0000 / 16;
        assert bigits[usedDigits - 1] < 0x10000;
        QuotientSplit(v0, v, o, result, d, v - d * o);
        result := result + bigits[usedDigits - 1];
        SubtractTimes(other, bigits[usedDigits - 1]);
        LengthBounds();
        Shortened(other);
      }
      EndsShorterIff(other, v0, result, longer);
    }

    lemma EndsShorterIff(other: Bignum, v0: int, m: int, longer: bool)
      requires Valid() && other.Valid() && other.usedDigits > 0 && BigitLength() <= other.BigitLength()
      requires v0 == m * other.Value() + Value() && 0 < other.Value()
      requires longer <==> P(other.BigitLength()) <= v0
      requires if longer then P(other.BigitLength()) - other.Value() <= Value()
        else BigitLength() == other.BigitLength()
      ensures BigitLength() < other.BigitLength() <==> EndsShorter(v0, other.Value(), other.BigitLength())
    {
      hide P, Val, Bignum.Value;
      Shortened(other);
      LengthBounds();
      other.LengthBounds();
      PMono(BigitLength(), other.BigitLength());
      if longer { ShorterIff(v0, Value(), other.Value(), m, P(other.BigitLength()), P(other.BigitLength() - 1)); }
    }

    /** A shorter remainder is below the weight of the divisor's leading bigit. */
    lemma Shortened(other: Bignum)
      requires Valid() && other.Valid() && other.usedDigits > 0
      ensures BigitLength() < other.BigitLength() <==> Value() < P(other.BigitLength() - 1)
    {
      LengthBounds();
      if BigitLength() < other.BigitLength() {
        PMono(BigitLength(), other.BigitLength() - 1);
      } else {
        PMono(other.BigitLength() - 1, BigitLength() - 1);
      }
    }

    lemma Excess(other: Bignum)
      requires Valid() && other.Valid() && other.usedDigits > 0 && usedDigits > 0
      requires BigitLength() > other.BigitLength() && Value() < 16 * other.Value()
      ensures var d, t, o := bigits[usedDigits - 1], other.bigits[other.usedDigits - 1], other.Value();
        && t >= 0x1000_0000 / 16 && 0 < d < 16
        && Times(d, o) == d * o && 0 < d * o < Value() && Value() - d * o < 16 * o
        && (Value() - d * o < P(other.BigitLength() - 1) ==> t == 0x1000_0000 - 1 && other.usedDigits > 1)
        && P(other.BigitLength()) - o <= Value() - d * o
    {
      hide P, Val;
      PSucc(other.BigitLength() - 1);
      var d, t := bigits[usedDigits - 1], other.bigits[other.usedDigits - 1];
      TopBounds();
      other.TopBounds();
      ExcessLength(Value(), other.Value(), BigitLength(), other.BigitLength(), d, t);
      ExcessArith(Value(), other.Value(), P(other.BigitLength() - 1), d, t);
    }

    lemma Estimate(other: Bignum, t: nat, top: nat, estimate: int)
      requires Valid() && other.Valid() && usedDigits > 0 && other.usedDigits > 1
      requires BigitLength() <= other.BigitLength() && Value() < 16 * other.Value()
      requires t == other.bigits[other.usedDigits - 1] && top == bigits[usedDigits - 1]
      requires BigitLength() < other.BigitLength() ==> t == 0x1000_0000 - 1
      requires estimate == top / (t + 1)
      ensures 0 <= estimate < 16 && Times(estimate, other.Value()) == estimate * other.Value() <= Value()
      ensures t * (estimate + 1) > top ==> Value() - estimate * other.Value() < other.Value()
      ensures 0 <= t * (estimate + 1) < 0x1_0000_0000
    {
      hide P, Val;
      LengthBounds();
      if BigitLength() < other.BigitLength() {
        LongerIsLarger(this, other);
        DivModUnique(top, 0x1000_0000, 0, top);
      } else {
        TopBounds();
        other.TopBounds();
        other.LengthBounds();
        EstimateArith(Value(), other.Value(), P(BigitLength() - 1), top, t, estimate);
      }
      MulMono(t, 0x1000_0000 - 1, estimate + 1);
      MulMono(0, t, estimate + 1);
    }

    /** The shortcut for a divisor of one bigit. */
    method DivideTopBigit(other: Bignum) returns (quotient: int)
      requires Valid() && other.Valid() && Apart(other) && usedDigits > 0 && other.usedDigits == 1
      requires BigitLength() == other.BigitLength() && Value() < 16 * other.Value()
      modifies this, bigits
      ensures Valid() && 0 <= quotient < 16 && exponent <= old(exponent)
      ensures old(Value()) == quotient * other.Value() + Value() && 0 <= Value() < other.Value()
    {
      hide P, Val, Scale;
      var thisBigit := bigits[usedDigits - 1];
      var otherBigit := other.bigits[0];
      ghost var w := P(BigitLength() - 1);
      TopBounds();
      other.TopBounds();
      SingleArith(Value(), other.Value(), w, thisBigit, otherBigit);
      quotient := thisBigit / otherBigit;
      ghost var s: seq<int> := bigits[..];
      ghost var d := thisBigit - otherBigit * quotient;
      MulMono(0, quotient, otherBigit);
      ValUpdate(s, usedDigits - 1, d);
      bigits[usedDigits - 1] := thisBigit - otherBigit * quotient;
      assert bigits[..] == s[usedDigits - 1 := d];
      ReplacedTop(Val(s, usedDigits - 1), d, usedDigits - 1, exponent);
      Clamp();
    }

    static lemma ReplacedTop(rest: int, d: int, n: nat, e: nat)
      ensures Scale(rest + Scale(d, n), e) == Scale(rest, e) + d * P(n + e)
    {
      ScaleSum(rest, Scale(d, n), e);
      ScaleAdd(d, n, e);
    }

    // ---- Squares and powers

    method Square()
      requires Valid() && 2 * usedDigits <= CAPACITY
      modifies this, bigits
      ensures Valid() && Sig() == old(Sig()) * old(Sig())
      ensures exponent == if usedDigits == 0 then 0 else 2 * old(exponent)
    {
      hide P, Val, Scale, Times, Conv, ColumnSum;
      var productLength := 2 * usedDigits;
      var copyOffset := usedDigits;
      ghost var a: seq<int> := bigits[..];
      for i := 0 to usedDigits
        modifies bigits
        invariant forall k :: 0 <= k < copyOffset ==> bigits[k] == a[k]
        invariant forall k :: copyOffset <= k < copyOffset + i ==> bigits[k] == a[k - copyOffset]
        invariant forall k :: copyOffset + i <= k < CAPACITY ==> bigits[k] == 0
      {
        bigits[copyOffset + i] := bigits[i];
      }
      var accumulator: uint64 := LowColumns(a);
      accumulator := HighColumns(a, accumulator);
      SquareFits(a, bigits[..], usedDigits, accumulator);
      assert accumulator == 0;
      ScaleFacts(0, productLength);
      usedDigits := productLength;
      exponent := exponent * 2;
      Clamp();
    }

    static lemma SquareFits(a: seq<int>, b: seq<int>, n: nat, accumulator: int)
      requires n <= |a| && 2 * n <= |b| && Bigits(a, n) && Bigits(b, 2 * n) && 0 <= accumulator
      requires Val(b, 2 * n) + Scale(accumulator, 2 * n) == ColumnSum(a, n, n, 2 * n)
      ensures accumulator == 0 && Val(b, 2 * n) + Scale(0, 2 * n) == Val(a, n) * Val(a, n)
    {
      ColumnSumIsProduct(a, n, n, 2 * n);
      ValBound(a, n);
      ValBound(b, 2 * n);
      MulMono(Val(a, n), P(n), Val(a, n));
      MulMono(Val(a, n), P(n), P(n));
      PAdd(n, n);
      ScaleFacts(accumulator, 2 * n);
      if 0 < n { MulStrict(Val(a, n), P(n), P(n)); }
    }

    /** Columns 0 .. used - 1, written over the operand once it has been copied up. */
    method LowColumns(ghost a: seq<int>) returns (accumulator: uint64)
      requires bigits.Length == CAPACITY == |a| && 0 <= 2 * usedDigits <= CAPACITY && Bigits(a, usedDigits)
      requires forall k :: 0 <= k < usedDigits ==> bigits[k] == a[k]
      requires forall k :: usedDigits <= k < 2 * usedDigits ==> bigits[k] == a[k - usedDigits]
      requires forall k :: 2 * usedDigits <= k < CAPACITY ==> bigits[k] == 0
      modifies bigits
      ensures Bigits(bigits[..], usedDigits) && accumulator <= usedDigits * 0x1000_0000
      ensures forall k :: usedDigits <= k < 2 * usedDigits ==> bigits[k] == a[k - usedDigits]
      ensures forall k :: 2 * usedDigits <= k < CAPACITY ==> bigits[k] == 0
      ensures Val(bigits[..], usedDigits) + Scale(accumulator, usedDigits) ==
        ColumnSum(a, usedDigits, usedDigits, usedDigits)
    {
      hide P, Val, Scale, Times, Conv, ColumnSum;
      accumulator := 0;
      EmptySum(a, usedDigits, usedDigits);
      var i := 0;
      ScaleFacts(0, 0);
      ValZero(bigits[..]);
      while i < usedDigits
        modifies bigits
        invariant 0 <= i <= usedDigits && Bigits(bigits[..], i) && 0 <= accumulator <= usedDigits * 0x1000_0000
        invariant forall k :: usedDigits <= k < 2 * usedDigits ==> bigits[k] == a[k - usedDigits]
        invariant forall k :: 2 * usedDigits <= k < CAPACITY ==> bigits[k] == 0
        invariant Val(bigits[..], i) + Scale(accumulator, i) == ColumnSum(a, usedDigits, usedDigits, i)
      {
        accumulator := LowColumn(a, i, accumulator);
        i := i + 1;
      }
    }

    /** One column below used: a bigit stays, and the rest is carried. */
    method LowColumn(ghost a: seq<int>, i: int, accumulator0: uint64) returns (accumulator: uint64)
      requires bigits.Length == CAPACITY == |a| && 0 <= 2 * usedDigits <= CAPACITY && Bigits(a, usedDigits)
      requires 0 <= i < usedDigits && Bigits(bigits[..], i) && accumulator0 <= usedDigits * 0x1000_0000
      requires forall k :: usedDigits <= k < 2 * usedDigits ==> bigits[k] == a[k - usedDigits]
      requires Val(bigits[..], i) + Scale(accumulator0, i) == ColumnSum(a, usedDigits, usedDigits, i)
      modifies bigits
      ensures Bigits(bigits[..], i + 1) && accumulator <= usedDigits * 0x1000_0000
      ensures forall k :: 0 <= k < CAPACITY && k != i ==> bigits[k] == old(bigits[k])
      ensures Val(bigits[..], i + 1) + Scale(accumulator, i + 1) == ColumnSum(a, usedDigits, usedDigits, i + 1)
    {
      hide P, Val, Scale, Times, Conv, ColumnSum;
      ghost var s: seq<int> := bigits[..];
      accumulator := AddLowColumn(a, i, accumulator0);
      ghost var total := accumulator;
      ColumnStep(s, a, usedDigits, i, accumulator0, total);
      bigits[i] := accumulator % 0x1000_0000;
      assert bigits[..] == s[i := total % 0x1000_0000];
      accumulator := accumulator / 0x1000_0000;
    }

    /** Columns used .. 2 * used - 1, written over copied bigits that no later column reads. */
    method HighColumns(ghost a: seq<int>, accumulator0: uint64) returns (accumulator: uint64)
      requires bigits.Length == CAPACITY == |a| && 0 <= 2 * usedDigits <= CAPACITY && Bigits(a, usedDigits)
      requires Bigits(bigits[..], usedDigits) && accumulator0 <= usedDigits * 0x1000_0000
      requires forall k :: usedDigits <= k < 2 * usedDigits ==> bigits[k] == a[k - usedDigits]
      requires forall k :: 2 * usedDigits <= k < CAPACITY ==> bigits[k] == 0
      requires Val(bigits[..], usedDigits) + Scale(accumulator0, usedDigits) ==
        ColumnSum(a, usedDigits, usedDigits, usedDigits)
      modifies bigits
      ensures Bigits(bigits[..], 2 * usedDigits) && 0 <= accumulator
      ensures forall k :: 2 * usedDigits <= k < CAPACITY ==> bigits[k] == 0
      ensures Val(bigits[..], 2 * usedDigits) + Scale(accumulator, 2 * usedDigits)
           == ColumnSum(a, usedDigits, usedDigits, 2 * usedDigits)
    {
      hide P, Val, Scale, Times, Conv, ColumnSum;
      accumulator := accumulator0;
      var i := usedDigits;
      while i < 2 * usedDigits
        modifies bigits
        invariant usedDigits <= i <= 2 * usedDigits && Bigits(bigits[..], i)
        invariant 0 <= accumulator <= usedDigits * 0x1000_0000
        invariant forall k :: i <= k < 2 * usedDigits ==> bigits[k] == a[k - usedDigits]
        invariant forall k :: 2 * usedDigits <= k < CAPACITY ==> bigits[k] == 0
        invariant Val(bigits[..], i) + Scale(accumulator, i) == ColumnSum(a, usedDigits, usedDigits, i)
      {
        ghost var s: seq<int> := bigits[..];
        ghost var acc0 := accumulator;
        accumulator := AddHighColumn(a, i, accumulator);
        ghost var total := accumulator;
        ColumnStep(s, a, usedDigits, i, acc0, total);
        bigits[i] := accumulator % 0x1000_0000;
        assert bigits[..] == s[i := total % 0x1000_0000];
        accumulator := accumulator / 0x1000_0000;
        i := i + 1;
      }
    }

    /** Storing one finished column. */
    static lemma ColumnStep(s: seq<int>, a: seq<int>, n: nat, i: nat, acc: int, total: int)
      requires n <= |a| && i < |s| && Bigits(a, n) && 0 <= acc <= n * 0x1000_0000
      requires Val(s, i) + Scale(acc, i) == ColumnSum(a, n, n, i)
      requires total == acc + Conv(a, n, i, n)
      ensures Val(s[i := total % 0x1000_0000], i + 1) + Scale(total / 0x1000_0000, i + 1) == ColumnSum(a, n, n, i + 1)
      ensures 0 <= total / 0x1000_0000 <= n * 0x1000_0000
    {
      hide P, Val, Scale;
      ConvBound(a, n, i, n);
      ValUpdate(s, i, total % 0x1000_0000);
      ScaleCarry(total, total / 0x1000_0000, total % 0x1000_0000, i);
      ScaleSum(acc, Conv(a, n, i, n), i);
    }

    static lemma EmptyColumn(a: seq<int>, n: nat, i: nat)
      requires n <= |a|
      ensures Conv(a, n, i, 0) == 0
    {
    }

    /** The accumulator of a column stays within a double chunk. */
    static lemma NextProduct(a: seq<int>, n: nat, i: nat, j: nat, accumulator: nat)
      requires n <= |a| && n <= CAPACITY && Bigits(a, n) && j < n && j <= i < j + n
      requires accumulator <= n * 0x1000_0000
      ensures Conv(a, n, i, j + 1) == Conv(a, n, i, j) + a[i - j] * a[j]
      ensures 0 <= a[i - j] * a[j] < 0x1_0000_0000_0000_0000
      ensures 0 <= accumulator + Conv(a, n, i, j + 1) < 0x1_0000_0000_0000_0000
    {
      ConvBound(a, n, i, j + 1);
      ConvBound(a, n, i, j);
      MulMono(0, a[i - j], a[j]);
    }

    /** Sums column i < used: the indices run over all pairs with sum i. */
    method AddLowColumn(ghost a: seq<int>, i: int, accumulator0: uint64) returns (accumulator: uint64)
      requires bigits.Length == CAPACITY == |a| && 0 <= i < usedDigits && 2 * usedDigits <= CAPACITY &&
        Bigits(a, usedDigits)
      requires forall k :: usedDigits <= k < 2 * usedDigits ==> bigits[k] == a[k - usedDigits]
      requires accumulator0 <= usedDigits * 0x1000_0000
      ensures accumulator == accumulator0 + Conv(a, usedDigits, i, usedDigits)
    {
      hide Conv;
      EmptyColumn(a, usedDigits, i);
      accumulator := accumulator0;
      var bigitIndex1, bigitIndex2 := i, 0;
      while bigitIndex1 >= 0
        invariant -1 <= bigitIndex1 && bigitIndex1 + bigitIndex2 == i
        invariant accumulator == accumulator0 + Conv(a, usedDigits, i, bigitIndex2)
      {
        var chunk1: uint64 := bigits[usedDigits + bigitIndex1];
        var chunk2: uint64 := bigits[usedDigits + bigitIndex2];
        NextProduct(a, usedDigits, i, bigitIndex2, accumulator0);
        accumulator := accumulator + chunk1 * chunk2;
        bigitIndex1 := bigitIndex1 - 1;
        bigitIndex2 := bigitIndex2 + 1;
      }
      ConvBelow(a, usedDigits, i, usedDigits);
    }

    /** Sums column i >= used; on the last one the loop runs zero times. */
    method AddHighColumn(ghost a: seq<int>, i: int, accumulator0: uint64) returns (accumulator: uint64)
      requires 0 < usedDigits <= i < 2 * usedDigits <= CAPACITY
      requires bigits.Length == CAPACITY == |a| && Bigits(a, usedDigits)
      requires forall k :: i <= k < 2 * usedDigits ==> bigits[k] == a[k - usedDigits]
      requires accumulator0 <= usedDigits * 0x1000_0000
      ensures accumulator == accumulator0 + Conv(a, usedDigits, i, usedDigits)
    {
      hide Conv;
      EmptyColumn(a, usedDigits, i);
      accumulator := accumulator0;
      var bigitIndex1 := usedDigits - 1;
      var bigitIndex2 := i - bigitIndex1;
      ConvAbove(a, usedDigits, i, bigitIndex2);
      while bigitIndex2 < usedDigits
        invariant i - usedDigits < bigitIndex2 <= usedDigits && bigitIndex1 + bigitIndex2 == i
        invariant accumulator == accumulator0 + Conv(a, usedDigits, i, bigitIndex2)
      {
        var chunk1: uint64 := bigits[usedDigits + bigitIndex1];
        var chunk2: uint64 := bigits[usedDigits + bigitIndex2];
        NextProduct(a, usedDigits, i, bigitIndex2, accumulator0);
        accumulator := accumulator + chunk1 * chunk2;
        bigitIndex1 := bigitIndex1 - 1;
        bigitIndex2 := bigitIndex2 + 1;
      }
    }

    /** A bound on the size in bits is a bound on the number of bigits. */
    lemma UsedFromBits(m: nat)
      requires Valid() && Sig() < Pow(2, m)
      ensures usedDigits <= m / 28 + 1
    {
      PIsPow2(m / 28 + 1);
      PowMono(2, m, 28 * (m / 28 + 1));
      LengthFromValue(bigits[..], usedDigits, m / 28 + 1);
    }

    lemma SigIsValue()
      requires Valid() && exponent == 0
      ensures Value() == Sig()
    {
    }

    /** base^powerExponent by left-to-right binary powering: in 64 bits as long as the square fits, then as
        a bignum. The two's of the base are shifted in at the end. */
    method AssignPowerUInt16(base0: uint16, powerExponent: nat)
      requires Shape() && base0 != 0
      requires BitSize(OddPart(base0)) * powerExponent / 28 + 2 <= CAPACITY
      modifies this, bigits
      ensures Valid() && Value() == Pow(base0, powerExponent)
    {
      hide P, Val, Scale, Times;
      if powerExponent == 0 {
        AssignUInt16(1);
        Pow1(base0);
        return;
      }
      Zero();
      var base, shifts := RemoveTwos(base0);
      var bitSize := CountBits(base);
      var finalSize := bitSize * powerExponent;
      AssignOddPower(base, powerExponent, bitSize);
      SigIsValue();
      PowerBelow(base, bitSize, powerExponent, powerExponent);
      UsedFromBits(finalSize);
      MulMono(0, shifts, powerExponent);
      ShiftLeft(shifts * powerExponent);
      CombineTwos(base0, base, shifts, powerExponent);
    }

    /** AssignPowerUInt16 without the two's of the base. */
    method AssignOddPower(base: uint16, powerExponent: nat, bitSize: nat)
      requires Shape() && 0 < base < Pow(2, bitSize) && 0 < bitSize <= 16 && 0 < powerExponent
      requires bitSize * powerExponent / 28 + 2 <= CAPACITY
      modifies this, bigits
      ensures Valid() && exponent == 0 && Sig() == Pow(base, powerExponent)
    {
      hide P, Val, Scale, Times, Pow, Prefix;
      var mask := TopMask(powerExponent);
      var thisValue, delayed, mask' := PowerInWord(base, powerExponent, mask, bitSize);
      AssignUInt64(thisValue);
      if delayed {
        TimesIs(base, thisValue);
        SmallProduct(base, thisValue);
        MultiplyByUInt32(base);
      }
      PowerAsBignum(base, powerExponent, mask', bitSize);
    }

    static lemma SmallProduct(base: uint16, value: uint64)
      ensures base * value < P(CAPACITY)
    {
      MulMono(base, 0xffff, value);
      PMono(3, CAPACITY);
      assert P(3) == 0x1000_0000 * P(2) && P(2) == 0x1000_0000 * P(1) && P(1) == 0x1000_0000 * P(0);
    }

    static lemma CombineTwos(base0: nat, base: nat, shifts: nat, n: nat)
      requires base0 == Pow(2, shifts) * base
      ensures shifts * n >= 0 && Times(Pow(2, shifts * n), Pow(base, n)) == Pow(base0, n)
    {
      PowProduct(Pow(2, shifts), base, n);
      PowPow(2, shifts, n);
    }

    /** The remaining squarings of AssignPowerUInt16. */
    method PowerAsBignum(base: uint16, powerExponent: nat, mask0: nat, ghost bitSize: nat)
      requires Valid() && exponent == 0 && base < Pow(2, bitSize) && 0 < base
      requires bitSize * powerExponent / 28 + 2 <= CAPACITY
      requires IsMask(mask0) && 0 < Prefix(powerExponent, mask0)
      requires Sig() == Pow(base, Prefix(powerExponent, mask0))
      modifies this, bigits
      ensures Valid() && exponent == 0 && Sig() == Pow(base, powerExponent)
    {
      hide P, Val, Scale, Times, Pow, Prefix, IsMask;
      PrefixZero(powerExponent);
      var mask := mask0;
      while mask != 0
        invariant Valid() && exponent == 0 && IsMask(mask) && 0 < Prefix(powerExponent, mask)
        invariant Sig() == Pow(base, Prefix(powerExponent, mask))
        decreases mask
      {
        ghost var p := Prefix(powerExponent, mask);
        PrefixStep(powerExponent, mask);
        PowerBelow(base, bitSize, p, powerExponent);
        SquareRoom(bitSize, p, powerExponent);
        UsedFromBits(bitSize * p);
        Square();
        PowAdd(base, p, p);
        PowSucc(base, 2 * p);
        PowerBelow(base, bitSize, Prefix(powerExponent, mask / 2), powerExponent);
        if Bit(powerExponent, mask) {
          TimesIs(base, Sig());
          RoomForPower(bitSize, powerExponent);
          MultiplyByUInt32(base);
        }
        mask := mask / 2;
      }
    }

    static lemma SquareRoom(bitSize: nat, p: nat, n: nat)
      requires 2 * p <= n && bitSize * n / 28 + 2 <= CAPACITY
      ensures bitSize * p >= 0 && 2 * (bitSize * p / 28 + 1) <= CAPACITY
    {
      MulMono(2 * p, n, bitSize);
      MulAssoc(bitSize, 2, p);
    }

    static lemma RoomForPower(bitSize: nat, n: nat)
      requires bitSize * n / 28 + 2 <= CAPACITY
      ensures bitSize * n >= 0 && Pow(2, bitSize * n) <= P(CAPACITY - 1) <= P(CAPACITY)
    {
      var m := bitSize * n;
      PIsPow2(m / 28 + 1);
      PowMono(2, m, 28 * (m / 28 + 1));
      PMono(m / 28 + 1, CAPACITY - 1);
      PMono(CAPACITY - 1, CAPACITY);
    }

    method Times10()
      requires Valid() && Value() < P(CAPACITY) / 10
      modifies this, bigits
      ensures Valid() && Value() == 10 * old(Value())
    {
      hide P, Val, Scale, Times;
      SigBelowValue();
      TimesIs(10, Sig());
      TimesIs(10, Value());
      MultiplyByUInt32(10);
    }

    lemma SigBelowValue()
      requires Valid()
      ensures 0 <= Sig() <= Value()
    {
      ValBound(bigits[..], usedDigits);
      MulMono(1, P(exponent), Sig());
    }

    /** Multiplies by 5^exponent in steps that fit a machine word, and by 2^exponent as a shift. */
    method MultiplyByPowerOfTen(n: nat)
      requires Valid()
      requires n == 0 || Times(Pow(5, n), Sig()) < P(CAPACITY - 1)
      modifies this, bigits
      ensures Valid() && Value() == Times(Pow(10, n), old(Value()))
      ensures Sig() == Times(Pow(2, n % 28), Times(Pow(5, n), old(Sig())))
      ensures exponent == if old(usedDigits) == 0 then 0 else old(exponent) + n / 28
    {
      hide P, Val, Scale, Times, Pow;
      Pow1(5);
      Pow1(2);
      Pow1(10);
      TimesFacts(1, Sig(), 0);
      TimesFacts(1, Value(), 0);
      if n == 0 { return; }
      ghost var sig, value := Sig(), Value();
      if usedDigits == 0 {
        LengthBounds();
        ValZero(bigits[..]);
        TimesFacts(Pow(5, n), 0, 0);
        TimesFacts(Pow(2, n % 28), 0, 0);
        TimesFacts(Pow(10, n), 0, 0);
        return;
      }
      MultiplyByPowerOfFive(n);
      BelowCapacity();
      ScaleMul(Pow(5, n), sig, exponent);
      ShiftLeft(n);
      PowProduct(2, 5, n);
      TimesTimes(Pow(2, n), Pow(5, n), value);
    }

    static lemma TimesTimes(a: int, b: int, x: int)
      ensures Times(a, Times(b, x)) == Times(a * b, x)
    {
    }

    lemma BelowCapacity()
      requires Valid() && Sig() < P(CAPACITY - 1)
      ensures usedDigits < CAPACITY
    {
      LengthFromValue(bigits[..], usedDigits, CAPACITY - 1);
    }

    method MultiplyByPowerOfFive(n: nat)
      requires Valid() && usedDigits > 0
      requires Times(Pow(5, n), Sig()) < P(CAPACITY - 1)
      modifies this, bigits
      ensures Valid() && usedDigits > 0 && exponent == old(exponent)
      ensures Sig() == Times(Pow(5, n), old(Sig()))
    {
      hide P, Val, Scale, Times, Pow;
      ghost var sig := Sig();
      FivePowers();
      Pow1(5);
      TimesFacts(1, sig, 0);
      LengthBounds();
      var remainingExponent := n;
      while remainingExponent >= 27
        invariant 0 <= remainingExponent <= n && Valid() && usedDigits > 0 && exponent == old(exponent)
        invariant Sig() == Times(Pow(5, n - remainingExponent), sig)
      {
        FiveStep(n, n - remainingExponent, 27, sig, 0x6765_c793_fa10_079d);
        MultiplyByUInt64(0x6765_c793_fa10_079d);
        LengthBounds();
        remainingExponent := remainingExponent - 27;
      }
      while remainingExponent >= 13
        invariant 0 <= remainingExponent <= n && Valid() && usedDigits > 0 && exponent == old(exponent)
        invariant Sig() == Times(Pow(5, n - remainingExponent), sig)
      {
        FiveStep(n, n - remainingExponent, 13, sig, 1220703125);
        MultiplyByUInt32(1220703125);
        LengthBounds();
        remainingExponent := remainingExponent - 13;
      }
      if remainingExponent > 0 {
        var factor := FIVE1_TO_12[remainingExponent - 1];
        FiveStep(n, n - remainingExponent, remainingExponent, sig, factor);
        MultiplyByUInt32(factor);
        LengthBounds();
      }
    }

    /** Positive before and after a multiplication by a power of five, and never past the final product. */
    lemma FiveStep(n: nat, done: nat, step: nat, sig: int, factor: int)
      requires Valid() && usedDigits > 0
      requires done + step <= n && factor == Pow(5, step) && Sig() == Times(Pow(5, done), sig)
      requires Times(Pow(5, n), sig) < P(CAPACITY - 1)
      ensures Times(factor, Sig()) == Times(Pow(5, done + step), sig) < P(CAPACITY)
      ensures 0 < factor && 0 < Sig() && 0 < Times(factor, Sig())
    {
      hide P, Val;
      LengthBounds();
      PowAdd(5, step, done);
      TimesTimes(factor, Pow(5, done), sig);
      FiveBound(n, done, step, sig);
      PMono(CAPACITY - 1, CAPACITY);
      MulStrict(0, factor, Sig());
    }

    static lemma FiveBound(n: nat, done: nat, step: nat, sig: int)
      requires done + step <= n && 0 < Times(Pow(5, done), sig)
      ensures Times(Pow(5, done + step), sig) <= Times(Pow(5, n), sig)
    {
      if sig <= 0 { MulMono(sig, 0, Pow(5, done)); }
      PowMono(5, done + step, n);
      MulMono(Pow(5, done + step), Pow(5, n), sig);
    }

    // ---- Decimal input

    /** The number denoted by a string of decimal digits, read nineteen digits at a time. */
    method AssignDecimalString(value: seq<char>)
      requires Shape() && AllDigits(value) && DigitsVal(value) < P(CAPACITY - 1)
      modifies this, bigits
      ensures Valid() && Value() == DigitsVal(value) && Sig() == DigitsVal(value) && exponent == 0
    {
      hide P, Val, Scale, Times, Pow;
      Zero();
      var length := |value|;
      var pos := 0;
      assert value[..0] == [];
      while length >= 19
        invariant 0 <= length && pos + length == |value|
        invariant Valid() && exponent == 0 && Value() == DigitsVal(value[..pos])
        decreases length
      {
        AppendDigits(value, pos, 19);
        pos := pos + 19;
        length := length - 19;
      }
      AppendDigits(value, pos, length);
      assert value[..pos + length] == value;
      Clamp();
      SigIsValue();
    }

    /** One round: multiply by 10^count and add the next count digits. */
    method AppendDigits(value: seq<char>, pos: nat, count: nat)
      requires Valid() && exponent == 0 && AllDigits(value) && pos + count <= |value| && count <= 19
      requires DigitsVal(value) < P(CAPACITY - 1) && Value() == DigitsVal(value[..pos])
      modifies this, bigits
      ensures Valid() && exponent == 0 && Value() == DigitsVal(value[..pos + count])
    {
      hide P, Val, Scale, Times, Pow;
      SigIsValue();
      DigitsRoom(value, pos, count);
      var digits := ReadUInt64(value, pos, count);
      MultiplyByPowerOfTen(count);
      TimesIs(Pow(10, count), DigitsVal(value[..pos]));
      AddUInt64(digits);
    }
  }

  /** The products of five a single chunk multiplication can take. */
  const FIVE1_TO_12: seq<uint32> :=
    [5, 25, 125, 625, 3125, 15625, 78125, 390625, 1953125, 9765625, 48828125, 244140625]

  lemma FivePowers()
    ensures Pow(5, 27) == 0x6765_c793_fa10_079d && Pow(5, 13) == 1220703125
    ensures forall k :: 0 < k <= 12 ==> FIVE1_TO_12[k - 1] == Pow(5, k)
  {
    Pow1(5);
    PowSucc(5, 1);
    PowSucc(5, 2);
    PowSucc(5, 3);
    PowSucc(5, 4);
    PowSucc(5, 5);
    PowSucc(5, 6);
    PowSucc(5, 7);
    PowSucc(5, 8);
    PowSucc(5, 9);
    PowSucc(5, 10);
    PowSucc(5, 11);
    PowSucc(5, 12);
    PowAdd(5, 13, 13);
    PowSucc(5, 26);
  }

  method ReadUInt64(buffer: seq<char>, from: nat, digitsToRead: nat) returns (result: uint64)
    requires from + digitsToRead <= |buffer| && digitsToRead <= 19 && AllDigits(buffer)
    ensures result == DigitsVal(buffer[from..from + digitsToRead])
  {
    hide Pow, DigitsVal;
    result := 0;
    TenPow19();
    NoDigits();
    assert buffer[from..from] == [];
    for i := from to from + digitsToRead
      invariant result == DigitsVal(buffer[from..i])
    {
      assert buffer[from..i + 1] == buffer[from..i] + [buffer[i]];
      DigitsAppend(buffer[from..i], buffer[i]);
      DigitsBound(buffer[from..i + 1]);
      PowMono(10, i + 1 - from, 19);
      var digit := DigitOf(buffer[i]);
      result := result * 10 + digit;
    }
  }

  lemma TenPow19()
    ensures Pow(10, 19) == 10_000_000_000_000_000_000
  {
    PowProduct(2, 5, 19);
    FivePowers();
    PowAdd(5, 13, 6);
    assert FIVE1_TO_12[5] == Pow(5, 6);
    Pow2Values();
    PowAdd(2, 16, 3);
    Pow1(2);
    PowAdd(2, 1, 1);
    PowAdd(2, 2, 1);
  }

  lemma DigitsRoom(value: seq<char>, pos: nat, count: nat)
    requires AllDigits(value) && pos + count <= |value| && DigitsVal(value) < P(CAPACITY - 1)
    ensures var v, d := DigitsVal(value[..pos]), DigitsVal(value[pos..pos + count]);
      && 0 <= v && 0 <= d
      && Times(Pow(5, count), v) < P(CAPACITY - 1)
      && Pow(10, count) * v + d == DigitsVal(value[..pos + count]) < P(CAPACITY - 1)
  {
    hide P, Pow, DigitsVal;
    var v, d := DigitsVal(value[..pos]), DigitsVal(value[pos..pos + count]);
    assert value[..pos + count] == value[..pos] + value[pos..pos + count];
    DigitsConcat(value[..pos], value[pos..pos + count]);
    DigitsBound(value[..pos]);
    DigitsBound(value[pos..pos + count]);
    DigitsBound(value[..pos + count]);
    PrefixNotLarger(value, pos + count);
    PowBaseMono(5, 10, count);
    MulMono(Pow(5, count), Pow(10, count), v);
  }

  lemma PrefixNotLarger(value: seq<char>, n: nat)
    requires AllDigits(value) && n <= |value|
    ensures DigitsVal(value[..n]) <= DigitsVal(value)
  {
    hide Pow, DigitsVal;
    assert value == value[..n] + value[n..];
    DigitsConcat(value[..n], value[n..]);
    DigitsBound(value[..n]);
    DigitsBound(value[n..]);
    MulMono(1, Pow(10, |value| - n), DigitsVal(value[..n]));
  }
}
