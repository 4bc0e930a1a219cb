/** The fast path for fixed notation: digits of integers and fractions in 64 or 128 bits. */
module FastFixed {
  import opened Arith
  import opened Decimal
  import opened CountedDtoa
  import opened StartValues
  import opened UInt128Model
  import ExactDtoa
  import Ieee

  // ---- Digits of integers

  lemma DigitsPrepend(c: char, s: seq<char>)
    ensures DigitsVal([c] + s) == DigitOf(c) * Pow(10, |s|) + DigitsVal(s)
  {
    hide DigitsVal, Pow;
    DigitsConcat([c], s);
    OneDigit(c);
  }

  /** Exactly requested digits of number, with leading zeros, behind those in the buffer. */
  method FillDigits32FixedLength(number0: uint32, requested: nat, buffer: array<char>, length0: nat)
    returns (length: nat)
    requires length0 + requested <= buffer.Length && AllDigits(buffer[..length0]) && number0 < Pow(10, requested)
    modifies buffer
    ensures length == length0 + requested && AllDigits(buffer[..length])
    ensures DigitsVal(buffer[..length]) == old(DigitsVal(buffer[..length0])) * Pow(10, requested) + number0
  {
    hide DigitsVal, Pow;
    var number := number0;
    ghost var before := buffer[..length0];
    var i := requested;
    ghost var s: seq<char> := [];
    NoDigits();
    Pow1(10);
    while i > 0
      invariant 0 <= i <= requested && |s| == requested - i && 0 <= number < Pow(10, i)
      invariant buffer[..length0] == before && AllDigits(s)
      invariant buffer[length0 + i..length0 + requested] == s
      invariant number * Pow(10, |s|) + DigitsVal(s) == number0
    {
      i := i - 1;
      var c := CharOf(number % 10);
      buffer[length0 + i] := c;
      DigitsPrepend(c, s);
      SplitDigit(number, Pow(10, |s|));
      PowSucc(10, |s|);
      PowSucc(10, i);
      s := [c] + s;
      number := number / 10;
      assert buffer[length0 + i..length0 + requested] == s;
    }
    length := length0 + requested;
    DigitsConcat(before, s);
    assert buffer[..length] == before + s;
  }

  lemma SplitDigit(n: int, p: int)
    ensures n * p == (n / 10) * (10 * p) + (n % 10) * p
  {
  }

  /** The value of digits written from the least significant one. */
  ghost function Backwards(s: seq<char>): int {
    if s == [] then 0 else DigitOf(s[0]) + 10 * Backwards(s[1..])
  }

  lemma {:induction false} BackwardsAppend(s: seq<char>, c: char)
    ensures Backwards(s + [c]) == Backwards(s) + DigitOf(c) * Pow(10, |s|)
  {
    if s == [] {
      assert [c][1..] == [];
      Pow1(10);
    } else {
      assert (s + [c])[1..] == s[1..] + [c];
      BackwardsAppend(s[1..], c);
      MulAssoc(10, DigitOf(c), Pow(10, |s| - 1));
      MulAssoc(DigitOf(c), 10, Pow(10, |s| - 1));
    }
  }

  lemma {:induction false} ReversedValue(s: seq<char>, t: seq<char>)
    requires |s| == |t| && forall i :: 0 <= i < |t| ==> t[i] == s[|s| - 1 - i]
    ensures DigitsVal(t) == Backwards(s)
  {
    if s != [] {
      var t' := t[..|t| - 1];
      assert forall i :: 0 <= i < |t'| ==> t'[i] == s[1..][|s| - 2 - i];
      ReversedValue(s[1..], t');
      assert t[|t| - 1] == s[0];
    }
  }

  /** Swaps the ends of buffer[from..to] until they meet. */
  method Exchange(buffer: array<char>, from: nat, to: nat)
    requires from <= to <= buffer.Length
    modifies buffer
    ensures forall k :: from <= k < to ==> buffer[k] == old(buffer[from + to - 1 - k])
    ensures forall k :: 0 <= k < from || to <= k < buffer.Length ==> buffer[k] == old(buffer[k])
  {
    var i, j := from, to - 1;
    while i < j
      invariant from <= i <= j + 2 && i + j == from + to - 1
      invariant forall k :: from <= k < i || j < k < to ==> buffer[k] == old(buffer[from + to - 1 - k])
      invariant forall k :: i <= k <= j || 0 <= k < from || to <= k < buffer.Length ==> buffer[k] == old(buffer[k])
    {
      var tmp := buffer[i];
      buffer[i] := buffer[j];
      buffer[j] := tmp;
      i := i + 1;
      j := j - 1;
    }
  }

  /** The digits taken off so far, last one first, and what is left of the number. */
  ghost predicate Reversing(number0: int, number: int, s: seq<char>) {
    && number0 == number * Pow(10, |s|) + Backwards(s) && number * Pow(10, |s|) <= number0
    && (|s| > 0 ==> Pow(10, |s| - 1) <= number0)
  }

  lemma ReversingStarts(number0: nat)
    ensures Reversing(number0, number0, [])
  {
    NothingBackwards();
    Pow1(10);
  }

  lemma ReversingEnds(number0: nat, s: seq<char>)
    requires Reversing(number0, 0, s)
    ensures number0 == Backwards(s) && (|s| > 0 ==> Pow(10, |s| - 1) <= number0)
  {
  }

  lemma NextReversedDigit(number0: uint32, number: nat, s: seq<char>)
    requires Reversing(number0, number, s) && 0 < number && |s| <= 10
    ensures |s| < 10 && Reversing(number0, number / 10, s + [CharOf(number % 10)])
  {
    hide Pow, Backwards;
    MulMono(1, number, Pow(10, |s|));
    if |s| == 10 { TenTo10(); }
    SplitDigit(number, Pow(10, |s|));
    PowSucc(10, |s|);
    MulMono(0, number % 10, Pow(10, |s|));
    BackwardsAppend(s, CharOf(number % 10));
  }

  /** The digits of number without leading zeros; none for zero. They are written backwards and exchanged. */
  method FillDigits32(number0: uint32, buffer: array<char>, length0: nat) returns (length: nat)
    requires length0 + 10 <= buffer.Length && AllDigits(buffer[..length0])
    modifies buffer
    ensures length0 <= length <= length0 + 10 && AllDigits(buffer[..length])
    ensures DigitsVal(buffer[..length]) == old(DigitsVal(buffer[..length0])) * Pow(10, length - length0) + number0
    ensures length > length0 ==> Pow(10, length - length0 - 1) <= number0
  {
    hide DigitsVal, Pow, Backwards, Reversing;
    ghost var before := buffer[..length0];
    var number := number0;
    var numberLength := 0;
    ghost var s: seq<char> := [];
    ReversingStarts(number0);
    while number != 0
      invariant numberLength == |s| && numberLength <= 10 && number >= 0 && AllDigits(s)
      invariant buffer[..length0] == before && buffer[length0..length0 + numberLength] == s
      invariant Reversing(number0, number, s)
      decreases number
    {
      var digit := number % 10;
      NextReversedDigit(number0, number, s);
      number := number / 10;
      buffer[length0 + numberLength] := CharOf(digit);
      numberLength := numberLength + 1;
      s := s + [CharOf(digit)];
      assert buffer[length0..length0 + numberLength] == s;
    }
    length := length0 + numberLength;
    ReversingEnds(number0, s);
    FillReversed(buffer, length0, length, before, s);
  }

  method FillReversed(buffer: array<char>, from: nat, to: nat, ghost before: seq<char>, ghost s: seq<char>)
    requires from <= to <= buffer.Length && buffer[..from] == before && buffer[from..to] == s
    requires AllDigits(before) && AllDigits(s)
    modifies buffer
    ensures AllDigits(buffer[..to]) && DigitsVal(buffer[..to]) == DigitsVal(before) * Pow(10, to - from) + Backwards(s)
  {
    hide DigitsVal, Pow, Backwards;
    Exchange(buffer, from, to);
    ghost var t := buffer[from..to];
    forall i | 0 <= i < |t| ensures t[i] == s[|s| - 1 - i] {
      assert t[i] == buffer[from + i];
      assert old(buffer[from..to])[to - 1 - from - i] == old(buffer[to - 1 - i]);
    }
    ReversedValue(s, t);
    DigitsConcat(before, t);
    assert buffer[..to] == before + t;
    assert forall i :: 0 <= i < |t| ==> IsDigit(t[i]);
  }

  lemma NothingBackwards()
    ensures Backwards([]) == 0 && DigitsVal([]) == 0
  {
  }

  lemma TenTo10()
    ensures Pow(10, 10) == 10_000_000_000 && Pow(10, 7) == 10_000_000 && Pow(10, 3) == 1000 &&
      Pow(10, 14) == 100_000_000_000_000
  {
  }

  /** Seventeen digits in groups of three, seven and seven. */
  method FillDigits64FixedLength(number0: uint64, buffer: array<char>, length0: nat) returns (length: nat)
    requires length0 + 17 <= buffer.Length && AllDigits(buffer[..length0]) && number0 < 100_000_000_000_000_000
    modifies buffer
    ensures length == length0 + 17 && AllDigits(buffer[..length])
    ensures DigitsVal(buffer[..length]) == old(DigitsVal(buffer[..length0])) * Pow(10, 17) + number0
  {
    hide DigitsVal, Pow;
    TenTo10();
    PowAdd(10, 3, 14);
    ghost var x := DigitsVal(buffer[..length0]);
    var number := number0;
    var part2: uint32 := number % 10_000_000;
    number := number / 10_000_000;
    var part1: uint32 := number % 10_000_000;
    var part0: uint32 := number / 10_000_000;
    length := FillDigits32FixedLength(part0, 3, buffer, length0);
    length := FillDigits32FixedLength(part1, 7, buffer, length);
    length := FillDigits32FixedLength(part2, 7, buffer, length);
    assert x * 100_000_000_000_000_000 + number0 == ((x * 1000 + part0) * 10_000_000 + part1) * 10_000_000 + part2;
  }

  /** The digits of a 64-bit number without leading zeros, in the same groups. */
  method FillDigits64(number0: uint64, buffer: array<char>) returns (length: nat)
    requires 24 <= buffer.Length
    modifies buffer
    ensures length <= 24 && AllDigits(buffer[..length]) && DigitsVal(buffer[..length]) == number0
    ensures number0 < Pow(10, 17) ==> length <= 17
  {
    hide DigitsVal, Pow;
    TenTo10();
    PowAdd(10, 3, 14);
    NothingBackwards();
    assert buffer[..0] == [];
    var number := number0;
    var part2: uint32 := number % 10_000_000;
    number := number / 10_000_000;
    var part1: uint32 := number % 10_000_000;
    var part0: uint32 := number / 10_000_000;
    if part0 != 0 {
      length := FillDigits32(part0, buffer, 0);
      if length > 3 { PowMono(10, 3, length - 1); }
      length := FillDigits32FixedLength(part1, 7, buffer, length);
      length := FillDigits32FixedLength(part2, 7, buffer, length);
    } else if part1 != 0 {
      length := FillDigits32(part1, buffer, 0);
      length := FillDigits32FixedLength(part2, 7, buffer, length);
    } else {
      length := FillDigits32(part2, buffer, 0);
    }
  }

  // ---- Digits of fractions

  /** What the digits in the buffer and the decimal point denote, in units of 10^-count. */
  ghost predicate Denotes(digits: seq<char>, decimalPoint: int, count: nat, value: int) {
    var zeros := decimalPoint - |digits| + count;
    AllDigits(digits) && 0 <= zeros && DigitsVal(digits) * Pow(10, zeros) == value
  }

  /** Rounds the last digit up; an empty buffer is zero. */
  method RoundUp(buffer: array<char>, length0: nat, decimalPoint0: int) returns (length: nat, decimalPoint: int)
    requires length0 <= buffer.Length && 0 < buffer.Length && AllDigits(buffer[..length0])
    modifies buffer
    ensures length == Max(length0, 1) && AllDigits(buffer[..length])
    ensures length0 == 0 ==> decimalPoint == 1 && DigitsVal(buffer[..length]) == 1
    ensures length0 > 0 ==> decimalPoint == decimalPoint0 || decimalPoint == decimalPoint0 + 1
    ensures var up := old(DigitsVal(buffer[..length0])) + 1;
      length0 > 0 ==> DigitsVal(buffer[..length]) * (if decimalPoint == decimalPoint0 then 1 else 10) == up
  {
    hide DigitsVal;
    if length0 == 0 {
      buffer[0] := '1';
      assert buffer[..1] == [] + ['1'];
      DigitsAppend([], '1');
      NothingBackwards();
      return 1, 1;
    }
    var moved := IncrementLast(buffer, length0);
    length, decimalPoint := length0, if moved then decimalPoint0 + 1 else decimalPoint0;
  }

  /** After i digits v of the fixed-point number n / 2^point: what is left is frac / 2^(point - i). */
  ghost predicate Filling(n: int, point: nat, v: int, i: nat, frac: int) {
    i <= point && 0 <= frac < Pow(2, point - i) && v * Pow(2, point) + frac * Pow(2, i) == n * Pow(10, i)
  }

  lemma FillingStarts(n: int, point: nat, v: int, frac: int)
    requires n == v * Pow(2, point) + frac && 0 <= frac < Pow(2, point)
    ensures Filling(n, point, v, 0, frac)
  {
  }

  /** Multiplying by five and moving the point is multiplying by ten. */
  lemma FillingStep(n: int, point: nat, v: int, i: nat, frac: int, digit: int, frac': int)
    requires Filling(n, point, v, i, frac) && i < point
    requires frac * 5 == digit * Pow(2, point - i - 1) + frac' && 0 <= frac' < Pow(2, point - i - 1)
    ensures 0 <= digit <= 9 && Filling(n, point, 10 * v + digit, i + 1, frac')
  {
    hide Pow;
    PowSucc(2, i);
    PowSucc(10, i);
    PowSucc(2, point - i - 1);
    PowAdd(2, point - i - 1, i + 1);
    var h := Pow(2, point - i - 1);
    if digit < 0 { MulMono(digit, -1, h); } else if digit > 9 { MulMono(10, digit, h); }
    FillingArith(n, Pow(2, point), v, Pow(2, i), frac, digit, frac', h, Pow(10, i));
  }

  lemma FillingArith(n: int, d: int, v: int, s: int, frac: int, digit: int, frac': int, h: int, t: int)
    requires v * d + frac * s == n * t && frac * 5 == digit * h + frac' && d == h * (2 * s)
    ensures (10 * v + digit) * d + frac' * (2 * s) == n * (10 * t)
  {
  }

  /** All digits filled: the first bit left decides the rounding. */
  lemma FillingRounds(n: int, point: nat, v: int, i: nat, frac: int)
    requires Filling(n, point, v, i, frac)
    ensures RoundHalfUp(n * Pow(10, i), Pow(2, point)) ==
      v + if point > i && frac / Pow(2, point - i - 1) % 2 == 1 then 1 else 0
  {
    hide Pow, RoundHalfUp;
    PowAdd(2, point - i, i);
    MulMono(0, frac, Pow(2, i));
    MulStrict(frac, Pow(2, point - i), Pow(2, i));
    RoundHalfUpIs(n * Pow(10, i), Pow(2, point), v, frac * Pow(2, i));
    if point > i {
      var h := Pow(2, point - i - 1);
      PowSucc(2, point - i - 1);
      MulAssoc(2, h, Pow(2, i));
      MulAssoc(2, frac, Pow(2, i));
      MulCancel(2 * h, 2 * frac, Pow(2, i));
      if frac >= h { DivModUnique(frac, h, 1, frac - h); } else { DivModUnique(frac, h, 0, frac); }
    } else {
      Pow1(2);
      assert frac * Pow(2, i) == 0;
    }
  }

  /** Nothing left before all digits were filled: the number is exact. */
  lemma FillingExact(n: int, point: nat, v: int, i: nat, count: nat)
    requires Filling(n, point, v, i, 0) && i <= count
    ensures RoundHalfUp(n * Pow(10, count), Pow(2, point)) == v * Pow(10, count - i)
  {
    hide Pow, RoundHalfUp;
    PowAdd(10, i, count - i);
    MulAssoc(n, Pow(10, i), Pow(10, count - i));
    assert 0 * Pow(2, i) == 0;
    MulAssoc(v, Pow(2, point), Pow(10, count - i));
    MulAssoc(v, Pow(10, count - i), Pow(2, point));
    RoundHalfUpIs(n * Pow(10, count), Pow(2, point), v * Pow(10, count - i), 0);
  }

  /** The fixed-point number n / 2^point rounded half up to count decimal places, in units of 10^-count. */
  ghost function Places(n: int, point: nat, count: nat): int { RoundHalfUp(n * Pow(10, count), Pow(2, point)) }

  /** The end of both loops: the first bit left decides whether to round up. */
  method FinishFill(buffer: array<char>, length0: nat, decimalPoint0: int, up: bool,
                    ghost n: int, ghost point: nat, ghost i: nat, ghost frac: int, ghost count: nat)
    returns (length: nat, decimalPoint: int)
    requires length0 <= buffer.Length && 0 < buffer.Length && AllDigits(buffer[..length0]) &&
      decimalPoint0 == length0 - i
    requires Filling(n, point, DigitsVal(buffer[..length0]), i, frac) && i <= count && (i < count ==> frac == 0 && !up)
    requires up <==> point > i && frac / Pow(2, point - i - 1) % 2 == 1
    requires length0 == 0 ==> i == 0
    modifies buffer
    ensures length <= Max(length0, 1) && Denotes(buffer[..length], decimalPoint, count, Places(n, point, count))
  {
    hide DigitsVal, Pow, RoundHalfUp, Filling;
    ghost var v := DigitsVal(buffer[..length0]);
    Pow1(10);
    length, decimalPoint := length0, decimalPoint0;
    if up {
      FillingRounds(n, point, v, i, frac);
      if length0 == 0 {
        assert buffer[..length0] == [];
        NothingBackwards();
      }
      length, decimalPoint := RoundUp(buffer, length0, decimalPoint0);
    } else if i == count {
      FillingRounds(n, point, v, i, frac);
    } else {
      FillingExact(n, point, v, i, count);
    }
  }

  lemma SmallShift(p: nat)
    ensures p <= 61 ==> Pow(2, p) <= 0x2000_0000_0000_0000
    ensures p <= 63 ==> Pow(2, p) <= 0x8000_0000_0000_0000
    ensures p <= 125 ==> Pow(2, p) <= 0x2000_0000_0000_0000_0000_0000_0000_0000
  {
    hide Pow;
    Pow1(2);
    Pow2Values();
    if p <= 61 { PowMono(2, p, 61); }
    if p <= 63 { PowMono(2, p, 63); }
    if p <= 125 { PowMono(2, p, 125); }
    PowAdd(2, 28, 32);
    PowAdd(2, 60, 1);
    PowAdd(2, 61, 1);
    PowAdd(2, 62, 1);
    PowAdd(2, 61, 64);
  }

  /** Bounds on the fraction in the first three rounds: afterwards the point is low enough. */
  ghost predicate FractionBound(fractionals: int, i: int) {
    i < 3 ==> fractionals < 0x100_0000_0000_0000 * (if i == 0 then 1 else if i == 1 then 5 else 25)
  }

  lemma StartsSmall(fractionals: int)
    requires fractionals < 0x100_0000_0000_0000
    ensures FractionBound(fractionals, 0)
  {
  }

  lemma RoomForFive(fractionals: int, point: nat, i: nat)
    requires 0 <= fractionals < Pow(2, point) && point + i <= 64 && FractionBound(fractionals, i)
    ensures fractionals * 5 < 0x1_0000_0000_0000_0000 && FractionBound(fractionals * 5, i + 1)
  {
    SmallShift(point);
  }

  lemma RestIsSmaller(x: int, digit: int, h: int)
    requires 0 <= x && 0 < h && digit == x / h
    ensures x - digit * h == x % h && 0 <= x % h <= x
    ensures forall i :: FractionBound(x, i) ==> FractionBound(x % h, i)
  {
    DivMod(x, h);
    MulMono(0, digit, h);
  }

  /** The fraction frac / 2^point still to be written. */
  datatype Rest = Rest(frac: int, point: int)

  /** What is left after count digits, or when nothing is. */
  ghost function Remaining(frac: int, point: int, count: nat): Rest
    decreases count
  {
    if count == 0 || frac == 0 || point <= 0 then Rest(frac, point)
    else Remaining(frac * 5 % Pow(2, point - 1), point - 1, count - 1)
  }

  /** The point comes down to the last bit if and only if that bit is set and there are digits enough. Then
      nothing is left, and the next bit, at a shift by -1, does not exist. */
  lemma {:induction false} PointAtZero(frac: int, point: nat, count: nat)
    requires 0 <= frac < Pow(2, point)
    ensures var rest := Remaining(frac, point, count);
      && 0 <= rest.point && (rest.point == 0 <==> point == 0 || (point <= count && frac % 2 == 1))
      && (rest.point == 0 ==> rest.frac == 0)
    decreases count
  {
    hide Pow;
    Pow1(2);
    if count > 0 && frac > 0 && point > 0 {
      var h := Pow(2, point - 1);
      DivMod(frac * 5, h);
      PointAtZero(frac * 5 % h, point - 1, count - 1);
      if point > 1 {
        PowSucc(2, point - 2);
        SameParity(frac, frac * 5 / h, Pow(2, point - 2), frac * 5 % h);
      }
    }
  }

  lemma SameParity(frac: int, digit: int, half: int, frac': int)
    requires frac * 5 == digit * (2 * half) + frac'
    ensures frac' % 2 == frac % 2
  {
    assert frac * 5 - frac' == 2 * (digit * half);
  }

  /** The bits behind the point of f * 2^e. */
  ghost function Fraction(f: nat, e: int): int
    requires e <= 0
  {
    f % Pow(2, -e)
  }

  /** 4503599627370495.5 with one place: the shift of the last step is by -1. */
  lemma ShiftByMinusOne()
    ensures Ieee.Significand(0x432f_ffff_ffff_ffff) == 0x1f_ffff_ffff_ffff && Ieee.Exponent(0x432f_ffff_ffff_ffff) == -1
    ensures Fraction(0x1f_ffff_ffff_ffff, -1) == 1 && Remaining(1, 1, 1).point - 1 == -1
  {
    Pow1(2);
  }

  /** Up to 64 bits behind the point: multiply by five, move the point, take the bits above it. The last step
      shifts by one less than where the point is; shifting by -1 is taken to give the bit 0. */
  method FillFractionals64(fractionals0: uint64, exponent: int, count: nat, buffer: array<char>, length0: nat)
    returns (length: nat, decimalPoint: int, ghost shift: int)
    requires -64 <= exponent <= 0 && fractionals0 < Pow(2, -exponent) && fractionals0 < 0x100_0000_0000_0000
    requires length0 + count <= buffer.Length && 0 < buffer.Length && AllDigits(buffer[..length0])
    modifies buffer
    ensures length <= Max(length0 + count, 1)
    ensures var n := old(DigitsVal(buffer[..length0])) * Pow(2, -exponent) + fractionals0;
      Denotes(buffer[..length], decimalPoint, count, Places(n, -exponent, count))
    ensures shift == Remaining(fractionals0, -exponent, count).point - 1
    ensures shift < 0 <==> exponent == 0 || (-exponent <= count && fractionals0 % 2 == 1)
  {
    hide DigitsVal, Pow, RoundHalfUp, Filling, Places, Denotes, FractionBound, Remaining;
    PointAtZero(fractionals0, -exponent, count);
    var fractionals := fractionals0;
    var point := -exponent;
    StartsSmall(fractionals0);
    var i := 0;
    length := length0;
    ghost var start := point;
    ghost var n := DigitsVal(buffer[..length0]) * Pow(2, -exponent) + fractionals0;
    FillingStarts(n, start, DigitsVal(buffer[..length0]), fractionals0);
    while i < count
      invariant 0 <= i <= count && point == start - i && length == length0 + i && 0 <= point <= 64
      invariant AllDigits(buffer[..length]) && Filling(n, start, DigitsVal(buffer[..length]), i, fractionals)
      invariant FractionBound(fractionals, i) && 0 <= fractionals
      invariant Remaining(fractionals, point, count - i) == Remaining(fractionals0, start, count)
    {
      if fractionals == 0 { break; }
      FillingRoom(n, start, DigitsVal(buffer[..length]), i, fractionals);
      NextRemaining(fractionals, point, count - i);
      RoomForFive(fractionals, point, i);
      ghost var before := fractionals;
      fractionals := fractionals * 5;
      point := point - 1;
      var digit := fractionals / Pow(2, point);
      DivMod(fractionals, Pow(2, point));
      FillingStep(n, start, DigitsVal(buffer[..length]), i, before, digit, fractionals % Pow(2, point));
      PutDigit(buffer, length, digit);
      length := length + 1;
      RestIsSmaller(fractionals, digit, Pow(2, point));
      fractionals := fractionals - digit * Pow(2, point);
      i := i + 1;
    }
    NoneRemaining(fractionals, point, count - i);
    shift := point - 1;
    var up := point > 0 && fractionals / Pow(2, point - 1) % 2 == 1;
    NoBits(fractionals, point);
    length, decimalPoint := FinishFill(buffer, length, length0, up, n, start, i, fractionals, count);
  }

  lemma NextRemaining(frac: int, point: int, count: nat)
    requires 0 < frac && 0 < point && 0 < count
    ensures Remaining(frac, point, count) == Remaining(frac * 5 % Pow(2, point - 1), point - 1, count - 1)
  {
  }

  lemma NoneRemaining(frac: int, point: int, count: nat)
    requires frac == 0 || count == 0
    ensures Remaining(frac, point, count) == Rest(frac, point)
  {
  }

  lemma NoBits(x: int, p: nat)
    ensures x == 0 && p > 0 ==> x / Pow(2, p - 1) % 2 == 0
  {
  }

  lemma FillingRoom(n: int, point: nat, v: int, i: nat, frac: int)
    requires Filling(n, point, v, i, frac)
    ensures i <= point && 0 <= frac < Pow(2, point - i) && (frac != 0 ==> i < point)
  {
  }

  lemma PlacesScaled(n: int, point: nat, j: nat, count: nat)
    ensures Places(n * Pow(2, j), point + j, count) == Places(n, point, count)
  {
    hide Pow;
    PowAdd(2, point, j);
    var a, d, s := n * Pow(10, count), Pow(2, point), Pow(2, j);
    assert (n * s) * Pow(10, count) == a * s by { MulAssoc(n, s, Pow(10, count)); MulAssoc(n, Pow(10, count), s); }
    ScaledRounds(a, d, s);
  }

  lemma ScaledRounds(a: int, d: int, s: int)
    requires 0 < d && 0 < s
    ensures 0 < d * s && RoundHalfUp(a * s, d * s) == RoundHalfUp(a, d)
  {
    MulStrict(0, d, s);
    var q, r := (2 * a + d) / (2 * d), (2 * a + d) % (2 * d);
    DivMod(2 * a + d, 2 * d);
    MulStrict(r, 2 * d, s);
    MulMono(0, r, s);
    assert (2 * a + d) * s == 2 * (a * s) + d * s;
    assert (q * (2 * d) + r) * s == q * (2 * (d * s)) + r * s by { MulAssoc(q, 2 * d, s); MulAssoc(2, d, s); }
    DivModUnique(2 * (a * s) + d * s, 2 * (d * s), q, r * s);
  }

  /** More than 64 bits behind the point: the same in 128 bits, with the point in front of all of them. */
  method FillFractionals128(fractionals0: uint64, exponent: int, count: nat, buffer: array<char>, length0: nat)
    returns (length: nat, decimalPoint: int)
    requires -128 <= exponent < -64 && fractionals0 < 0x100_0000_0000_0000 && count <= 20
    requires length0 + count <= buffer.Length && 0 < buffer.Length && AllDigits(buffer[..length0])
    modifies buffer
    ensures length <= Max(length0 + count, 1)
    ensures var n := old(DigitsVal(buffer[..length0])) * Pow(2, -exponent) + fractionals0;
      Denotes(buffer[..length], decimalPoint, count, Places(n, -exponent, count))
  {
    hide DigitsVal, Pow, RoundHalfUp, Filling, Places, Denotes, UInt128.Value;
    ghost var a := DigitsVal(buffer[..length0]);
    var fractionals128 := Fraction128(fractionals0, exponent);
    var point := 128;
    var i := 0;
    length := length0;
    ghost var n := a * Pow(2, 128) + fractionals128.Value();
    WordOf128(a, fractionals0, exponent, count);
    FillingStarts(n, 128, a, fractionals128.Value());
    while i < count
      invariant 0 <= i <= count && point == 128 - i && length == length0 + i
      invariant AllDigits(buffer[..length]) && Filling(n, 128, DigitsVal(buffer[..length]), i, fractionals128.Value())
      invariant var f := fractionals128.Value(); i < 3 ==>
        f < 0x80_0000_0000_0000_0000_0000_0000_0000 * (if i == 0 then 1 else if i == 1 then 5 else 25)
      modifies buffer, fractionals128
    {
      var zero := fractionals128.IsZero();
      if zero { break; }
      ghost var before, v := fractionals128.Value(), DigitsVal(buffer[..length]);
      FillingRoom(n, 128, v, i, before);
      SmallShift(point);
      fractionals128.Multiply(5);
      point := point - 1;
      DivMod(fractionals128.Value(), Pow(2, point));
      FillingStep(n, 128, v, i, before, fractionals128.Value() / Pow(2, point), fractionals128.Value() % Pow(2, point));
      ghost var product := fractionals128.Value();
      var digit := fractionals128.DivModPowerOf2(point);
      RemainderLess(product, Pow(2, point));
      PutDigit(buffer, length, digit);
      length := length + 1;
      i := i + 1;
    }
    var bit := fractionals128.BitAt(point - 1);
    NoBits(fractionals128.Value(), point);
    length, decimalPoint := FinishFill(buffer, length, length0, bit == 1, n, 128, i, fractionals128.Value(), count);
  }

  lemma RemainderLess(x: int, d: int)
    requires 0 <= x && 0 < d
    ensures x % d <= x
  {
  }

  /** The fraction moved so that the point is in front of all 128 bits. */
  method Fraction128(fractionals: uint64, exponent: int) returns (f: UInt128)
    requires -128 <= exponent < -64 && fractionals < 0x100_0000_0000_0000
    ensures fresh(f) && f.Value() == fractionals * Pow(2, 128 + exponent)
    ensures f.Value() < 0x80_0000_0000_0000_0000_0000_0000_0000
  {
    hide Pow;
    f := new UInt128(fractionals, 0);
    Pow2Values();
    PowAdd(2, 128 + exponent, -exponent - 64);
    var s, t := Pow(2, 128 + exponent), Pow(2, -exponent - 64);
    MulAssoc(fractionals, s, t);
    DivModUnique(fractionals * 0x1_0000_0000_0000_0000, t, fractionals * s, 0);
    SmallShift(128 + exponent);
    MulStrict(fractionals, 0x100_0000_0000_0000, s);
    f.Shift(-exponent - 64);
  }

  lemma WordOf128(a: int, f: int, exponent: int, count: nat)
    requires -128 <= exponent < -64 && 0 <= f < 0x100_0000_0000_0000
    ensures f * Pow(2, 128 + exponent) < Pow(2, 128)
    ensures Places(a * Pow(2, 128) + f * Pow(2, 128 + exponent), 128, count) ==
      Places(a * Pow(2, -exponent) + f, -exponent, count)
  {
    hide Pow, Places;
    Pow2Values();
    SmallShift(128 + exponent);
    MulMono(f, 0x100_0000_0000_0000, Pow(2, 128 + exponent));
    PowAdd(2, 64, 64);
    PowAdd(2, -exponent, 128 + exponent);
    MulAssoc(a, Pow(2, -exponent), Pow(2, 128 + exponent));
    var n, s := a * Pow(2, -exponent) + f, Pow(2, 128 + exponent);
    assert n * s == (a * Pow(2, -exponent)) * s + f * s;
    PlacesScaled(n, -exponent, 128 + exponent, count);
  }

  method FillFractionals(fractionals: uint64, exponent: int, count: nat, buffer: array<char>, length0: nat)
    returns (length: nat, decimalPoint: int, ghost shift: int)
    requires -128 <= exponent <= 0 && fractionals < Pow(2, -exponent) && fractionals < 0x100_0000_0000_0000 &&
      count <= 20
    requires length0 + count <= buffer.Length && 0 < buffer.Length && AllDigits(buffer[..length0])
    modifies buffer
    ensures length <= Max(length0 + count, 1)
    ensures var n := old(DigitsVal(buffer[..length0])) * Pow(2, -exponent) + fractionals;
      Denotes(buffer[..length], decimalPoint, count, Places(n, -exponent, count))
    ensures shift < 0 <==> exponent == 0 || (-exponent <= count && fractionals % 2 == 1)
  {
    hide DigitsVal, Pow, Places, Denotes, Remaining;
    if -exponent <= 64 {
      length, decimalPoint, shift := FillFractionals64(fractionals, exponent, count, buffer, length0);
    } else {
      shift := 0;
      length, decimalPoint := FillFractionals128(fractionals, exponent, count, buffer, length0);
    }
  }

  // ---- Zeros at both ends

  method MoveToFront(buffer: array<char>, first: nat, length: nat)
    requires first <= length <= buffer.Length
    modifies buffer
    ensures buffer[..length - first] == old(buffer[first..length])
  {
    ghost var s := buffer[first..length];
    var i := first;
    while i < length
      invariant first <= i <= length
      invariant buffer[..i - first] == s[..i - first] && buffer[i..length] == s[i - first..]
    {
      assert buffer[i] == buffer[i..length][0];
      buffer[i - first] := buffer[i];
      i := i + 1;
    }
  }

  /** Leading zeros go, and the decimal point moves with them. */
  method TrimFront(buffer: array<char>, length0: nat, decimalPoint0: int, ghost count: nat, ghost value: int)
    returns (length: nat, decimalPoint: int)
    requires length0 <= buffer.Length && Denotes(buffer[..length0], decimalPoint0, count, value)
    modifies buffer
    ensures length <= length0 && Denotes(buffer[..length], decimalPoint, count, value)
    ensures length > 0 ==> buffer[0] != '0' && buffer[length - 1] == old(buffer[length0 - 1])
  {
    hide DigitsVal, Denotes;
    length, decimalPoint := length0, decimalPoint0;
    var firstNonZero := 0;
    while firstNonZero < length && buffer[firstNonZero] == '0'
      invariant 0 <= firstNonZero <= length
      invariant forall k :: 0 <= k < firstNonZero ==> buffer[k] == '0'
    {
      firstNonZero := firstNonZero + 1;
    }
    if firstNonZero != 0 {
      ghost var s := buffer[..length];
      LeadingZeros(s, firstNonZero, decimalPoint, count, value);
      MoveToFront(buffer, firstNonZero, length);
      length := length - firstNonZero;
      decimalPoint := decimalPoint - firstNonZero;
      ghost var t := buffer[..length];
      assert t == s[firstNonZero..];
      if length > 0 { assert t[0] == s[firstNonZero] && t[length - 1] == s[|s| - 1]; }
    }
  }

  /** Removes leading and trailing zeros. */
  method TrimZeros(buffer: array<char>, length0: nat, decimalPoint0: int, ghost count: nat, ghost value: int)
    returns (length: nat, decimalPoint: int)
    requires length0 <= buffer.Length && Denotes(buffer[..length0], decimalPoint0, count, value)
    modifies buffer
    ensures length <= length0 && Denotes(buffer[..length], decimalPoint, count, value)
    ensures length > 0 ==> buffer[0] != '0' && buffer[length - 1] != '0'
  {
    hide DigitsVal, Denotes;
    length := length0;
    while length > 0 && buffer[length - 1] == '0'
      invariant 0 <= length <= length0 && Denotes(buffer[..length], decimalPoint0, count, value)
    {
      assert buffer[..length] == buffer[..length - 1] + ['0'];
      TrailingZero(buffer[..length - 1], decimalPoint0, count, value);
      length := length - 1;
    }
    length, decimalPoint := TrimFront(buffer, length, decimalPoint0, count, value);
  }

  lemma TrailingZero(s: seq<char>, decimalPoint: int, count: nat, value: int)
    requires Denotes(s + ['0'], decimalPoint, count, value)
    ensures Denotes(s, decimalPoint, count, value)
  {
  }

  lemma LeadingZeros(s: seq<char>, n: nat, decimalPoint: int, count: nat, value: int)
    requires n <= |s| && Denotes(s, decimalPoint, count, value) && forall k :: 0 <= k < n ==> s[k] == '0'
    ensures Denotes(s[n..], decimalPoint - n, count, value)
  {
    hide DigitsVal;
    assert s == s[..n] + s[n..];
    DigitsConcat(s[..n], s[n..]);
    DigitsOfZeros(s[..n]);
  }

  // ---- The whole conversion

  /** v * 10^count rounded half up, for an integer v and for one with a fraction. */
  lemma RoundVIs(f: nat, e: int, count: nat)
    ensures e >= 0 ==> ExactDtoa.RoundV(f, e, count) == f * Pow(2, e) * Pow(10, count)
    ensures e < 0 ==> ExactDtoa.RoundV(f, e, count) == Places(f, -e, count)
  {
    Pow1(2);
    Pow1(10);
    if e >= 0 {
      RoundHalfUpIs(f * Pow(2, e) * Pow(10, count), 1, f * Pow(2, e) * Pow(10, count), 0);
    }
  }

  /** An integer: no rounding, the decimal point behind its digits. */
  lemma IntegerDenotes(digits: seq<char>, count: nat)
    requires AllDigits(digits)
    ensures Denotes(digits, |digits|, count, DigitsVal(digits) * Pow(10, count))
  {
  }

  const FIVE17: uint64 := 762_939_453_125

  /** The digits of an integer of 65 to 73 bits: the quotient and the remainder by 10^17. */
  method FillLarge(significand: uint64, exponent: int, buffer: array<char>) returns (length: nat)
    requires significand < 0x20_0000_0000_0000 && 12 <= exponent <= 20 && 27 <= buffer.Length
    modifies buffer
    ensures length < 27 && AllDigits(buffer[..length]) && DigitsVal(buffer[..length]) == significand * Pow(2, exponent)
  {
    hide DigitsVal, Pow;
    SmallPowersOfTwo();
    var divisor: uint64, dividend: uint64 := FIVE17, significand;
    var quotient: uint32, remainder: uint64;
    if exponent > 17 {
      ghost var s := Pow(2, exponent - 17);
      PowAdd(2, exponent - 17, 17);
      LargeFits(significand, s);
      MulAssoc(significand, s, 0x2_0000);
      dividend := dividend * Pow(2, exponent - 17);
      quotient := dividend / divisor;
      remainder := dividend % divisor * 0x2_0000;
    } else {
      ghost var s, t := Pow(2, 17 - exponent), Pow(2, exponent);
      PowAdd(2, 17 - exponent, exponent);
      LargeSplit(significand, s, t);
      divisor := divisor * Pow(2, 17 - exponent);
      quotient := dividend / divisor;
      remainder := dividend % divisor * Pow(2, exponent);
    }
    TenTo10();
    PowAdd(10, 7, 10);
    NothingBackwards();
    assert buffer[..0] == [];
    length := FillDigits32(quotient, buffer, 0);
    if length == 10 { PowAdd(10, 7, 2); PowAdd(10, 1, 1); Pow1(10); }
    length := FillDigits64FixedLength(remainder, buffer, length);
  }

  lemma SmallPowersOfTwo()
    ensures Pow(2, 0) == 1 && Pow(2, 1) == 2 && Pow(2, 2) == 4 && Pow(2, 3) == 8 && Pow(2, 4) == 16 && Pow(2, 5) == 32
    ensures Pow(2, 12) == 0x1000 && Pow(2, 13) == 0x2000 && Pow(2, 14) == 0x4000 && Pow(2, 15) == 0x8000
    ensures Pow(2, 16) == 0x1_0000 && Pow(2, 17) == 0x2_0000
  {
  }

  lemma LargeFits(f: int, s: int)
    requires 0 <= f < 0x20_0000_0000_0000 && s in {2, 4, 8}
    ensures 0 <= f * s < 0x100_0000_0000_0000
    ensures f * s / 762_939_453_125 < 0x2_0000
    ensures f * s * 0x2_0000 == (f * s / 762_939_453_125) * 100_000_000_000_000_000 + f * s % 762_939_453_125 * 0x2_0000
  {
  }

  lemma LargeSplit(f: int, s: int, t: int)
    requires 0 <= f < 0x20_0000_0000_0000 && s in {1, 2, 4, 8, 16, 32} && 0 < t && s * t == 0x2_0000
    ensures f / (762_939_453_125 * s) < 0x2_0000 && 0 <= f % (762_939_453_125 * s) * t < 100_000_000_000_000_000
    ensures f * t == (f / (762_939_453_125 * s)) * 100_000_000_000_000_000 + f % (762_939_453_125 * s) * t
  {
    var d := 762_939_453_125 * s;
    DivMod(f, d);
    var q, r := f / d, f % d;
    MulAssoc(762_939_453_125, s, t);
    MulStrict(r, d, t);
    MulMono(0, r, t);
    MulAssoc(q, d, t);
    SplitProduct(q * d, r, t);
    if q >= 0x2_0000 { MulMono(0x2_0000, q, d); }
  }

  lemma SplitProduct(x: int, r: int, t: int)
    ensures (x + r) * t == x * t + r * t
  {
  }

  /** Values below 2^-76 are zero to twenty places. */
  lemma Tiny(f: nat, e: int, count: nat)
    requires f < 0x20_0000_0000_0000 && e < -128 && count <= 20
    ensures ExactDtoa.RoundV(f, e, count) == 0
  {
    hide Pow, RoundHalfUp;
    RoundVIs(f, e, count);
    TenTo10();
    PowAdd(10, 10, 10);
    PowMono(10, count, 20);
    Pow2Values();
    PowAdd(2, 64, 64);
    PowMono(2, 128, -e);
    var x := f * Pow(10, count);
    MulMono(Pow(10, count), 100_000_000_000_000_000_000, f);
    MulMono(0, Pow(10, count), f);
    RoundHalfUpIs(x, Pow(2, -e), 0, x);
  }

  /** What stands in front of the point and what behind it. */
  lemma CutInTwo(f: int, point: int)
    requires 0 <= f < 0x20_0000_0000_0000 && 0 < point < 53
    ensures var one := Pow(2, point);
      && 0 < one && 0 <= f / one <= f / one * one <= f && f % one == f - f / one * one
      && 0 <= f % one < one && f % one < 0x20_0000_0000_0000 && f % one % 2 == f % 2
  {
    hide Pow;
    var one, half := Pow(2, point), Pow(2, point - 1);
    PowSucc(2, point - 1);
    DivMod(f, one);
    DivMono(0, f, one);
    DivModUnique(0, one, 0, 0);
    MulMono(1, one, f / one);
    MulMono(0, f / one, one);
    MulAssoc(f / one, 2, half);
    EvenApart(f, f % one, f / one * half);
  }

  lemma EvenApart(x: int, y: int, half: int)
    requires x == 2 * half + y
    ensures y % 2 == x % 2
  {
  }

  /** The integral part of a number with a fraction, then the fraction. */
  method FillMixed(significand: uint64, exponent: int, count: nat, buffer: array<char>)
    returns (length: nat, decimalPoint: int, ghost shift: int)
    requires significand < 0x20_0000_0000_0000 && -53 < exponent < 0 && count <= 20 && 27 + count < buffer.Length
    modifies buffer
    ensures length < buffer.Length &&
      Denotes(buffer[..length], decimalPoint, count, ExactDtoa.RoundV(significand, exponent, count))
    ensures shift < 0 <==> -exponent <= count && significand % 2 == 1
  {
    hide DigitsVal, Pow, Places, Denotes;
    RoundVIs(significand, exponent, count);
    CutInTwo(significand, -exponent);
    var one := Pow(2, -exponent);
    var integrals: uint64 := significand / one;
    var fractionals: uint64 := significand - integrals * one;
    NothingBackwards();
    assert buffer[..0] == [];
    if integrals > 0xffff_ffff {
      length := FillDigits64(integrals, buffer);
    } else {
      length := FillDigits32(integrals, buffer, 0);
    }
    length, decimalPoint, shift := FillFractionals(fractionals, exponent, count, buffer, length);
  }

  /** v in fixed notation, rounded half up after fractionalCount places, if it is not too large for the integer
      arithmetic used. A shift by -1 happens on the way exactly for odd significands whose bits behind the point
      are no more than the places. */
  method FastFixedDtoa(significand0: uint64, exponent: int, fractionalCount: nat, buffer: array<char>)
    returns (ok: bool, length: nat, decimalPoint: int, ghost shift: int)
    requires significand0 < 0x20_0000_0000_0000 && 27 + fractionalCount < buffer.Length
    modifies buffer
    ensures ok <==> exponent <= 20 && fractionalCount <= 20
    ensures ok ==> length < buffer.Length && buffer[length] == '\0'
    ensures ok ==>
      Denotes(buffer[..length], decimalPoint, fractionalCount,
        ExactDtoa.RoundV(significand0, exponent, fractionalCount))
    ensures ok && length > 0 ==> buffer[0] != '0' && buffer[length - 1] != '0'
    ensures ok && length == 0 ==> decimalPoint == 0 - fractionalCount
    ensures shift < 0 <==>
      -53 < exponent < 0 && -exponent <= fractionalCount <= 20 && significand0 % 2 == 1
  {
    hide DigitsVal, Pow, Places, Denotes;
    ok, length, decimalPoint, shift := false, 0, 0, 0;
    if exponent > 20 { return; }
    if fractionalCount > 20 { return; }
    ghost var value := ExactDtoa.RoundV(significand0, exponent, fractionalCount);
    RoundVIs(significand0, exponent, fractionalCount);
    NothingBackwards();
    assert buffer[..0] == [];
    if exponent + 53 > 64 {
      length := FillLarge(significand0, exponent, buffer);
      decimalPoint := length;
      IntegerDenotes(buffer[..length], fractionalCount);
    } else if exponent >= 0 {
      SmallIntegers(significand0, exponent);
      length := FillDigits64(significand0 * Pow(2, exponent), buffer);
      decimalPoint := length;
      IntegerDenotes(buffer[..length], fractionalCount);
    } else if exponent > -53 {
      length, decimalPoint, shift := FillMixed(significand0, exponent, fractionalCount, buffer);
    } else if exponent < -128 {
      Tiny(significand0, exponent, fractionalCount);
      buffer[0] := '\0';
      length, decimalPoint := 0, 0 - fractionalCount;
      assert buffer[..0] == [];
      ZeroDenotes(fractionalCount);
    } else {
      BelowOne(significand0, exponent);
      length, decimalPoint, shift := FillFractionals(significand0, exponent, fractionalCount, buffer, 0);
    }
    length, decimalPoint := TrimZeros(buffer, length, decimalPoint, fractionalCount, value);
    ghost var digits := buffer[..length];
    buffer[length] := '\0';
    assert buffer[..length] == digits;
    if length == 0 {
      decimalPoint := 0 - fractionalCount;
      EmptyDenotes(digits, decimalPoint, fractionalCount, value);
    }
    ok := true;
  }

  lemma ZeroDenotes(count: nat)
    ensures Denotes([], 0 - count, count, 0)
  {
  }

  /** The decimal point of an empty string does not matter. */
  lemma EmptyDenotes(digits: seq<char>, decimalPoint: int, count: nat, value: int)
    requires digits == [] && decimalPoint == 0 - count && exists point :: Denotes(digits, point, count, value)
    ensures Denotes(digits, decimalPoint, count, value)
  {
  }

  lemma SmallIntegers(f: int, e: nat)
    requires 0 <= f < 0x20_0000_0000_0000 && e <= 11
    ensures 0 <= f * Pow(2, e) < 0x1_0000_0000_0000_0000
  {
    hide Pow;
    Pow2Values();
    PowMono(2, e, 11);
    PowSucc(2, 11);
    MulMono(f, 0x1f_ffff_ffff_ffff, Pow(2, e));
  }

  lemma BelowOne(f: int, e: int)
    requires 0 <= f < 0x20_0000_0000_0000 && e <= -53
    ensures f < Pow(2, -e)
  {
    hide Pow;
    TwoTo53();
    PowMono(2, 53, -e);
  }
}
