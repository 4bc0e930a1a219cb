/** Exact conversion to a given number of digits, rounded half up. */
module CountedDtoa {
  import opened Arith
  import opened BigitSeq
  import opened Decimal
  import opened BignumModel
  import opened BignumDtoa

  /** n / d rounded to the nearest integer, halves upwards. */
  function RoundHalfUp(n: int, d: int): int
    requires 0 < d
  {
    (2 * n + d) / (2 * d)
  }

  lemma RoundHalfUpIs(n: int, d: int, q: int, r: int)
    requires 0 < d && n == q * d + r && 0 <= r < d
    ensures RoundHalfUp(n, d) == q + if 2 * r >= d then 1 else 0
  {
    if 2 * r >= d {
      assert 2 * n + d == (q + 1) * (2 * d) + (2 * r - d);
      DivModUnique(2 * n + d, 2 * d, q + 1, 2 * r - d);
    } else {
      assert 2 * n + d == q * (2 * d) + (2 * r + d);
      DivModUnique(2 * n + d, 2 * d, q, 2 * r + d);
    }
  }

  /** (n/d) * 10^e rounded half up, for any integer e. */
  ghost function RoundScaled(n: int, d: int, e: int): int
    requires 0 < d
  {
    if e >= 0 then RoundHalfUp(n * Pow(10, e), d)
    else MulStrict(0, d, Pow(10, -e)); RoundHalfUp(n, d * Pow(10, -e))
  }

  /** After k digits q of n0/d: the scaled remainder n is less than ten times the denominator. */
  ghost predicate Counting(n0: int, d: int, q: int, n: int, k: nat) {
    0 < d && 0 <= n < 10 * d && n0 * Pow(10, k) == 10 * q * d + n
  }

  lemma CountingStart(n0: int, d: int)
    requires 0 <= n0 < 10 * d
    ensures Counting(n0, d, 0, n0, 0)
  {
  }

  lemma CountingStep(n0: int, d: int, q: int, n: int, k: nat, digit: int, r: int)
    requires Counting(n0, d, q, n, k) && n == digit * d + r && 0 <= r < d
    ensures Counting(n0, d, 10 * q + digit, 10 * r, k + 1)
    ensures RoundHalfUp(n0 * Pow(10, k), d) == 10 * q + digit + if 2 * r >= d then 1 else 0
  {
    CountingArith(n0, d, q, n, Pow(10, k), digit, r);
    PowSucc(10, k);
    RoundHalfUpIs(n0 * Pow(10, k), d, 10 * q + digit, r);
  }

  lemma CountingArith(n0: int, d: int, q: int, n: int, s: int, digit: int, r: int)
    requires n0 * s == 10 * q * d + n && n == digit * d + r
    ensures n0 * s == (10 * q + digit) * d + r
    ensures n0 * (10 * s) == 10 * (10 * q + digit) * d + 10 * r
  {
  }

  lemma CountingBound(n0: int, d: int, q: int, n: int, k: nat)
    requires Counting(n0, d, q, n, k)
    ensures 0 <= n < 10 * d && 0 < d
  {
  }

  /** Generates count digits of v = numerator / denominator < 10, rounded half up. A carry through a run of
      nines ends in a one with the decimal point moved. The source asserts count >= 0 but already needs one digit. */
  method GenerateCountedDigits(count: nat, decimalPoint0: int, numerator: Bignum, denominator: Bignum,
                               buffer: array<char>)
    returns (length: nat, decimalPoint: int)
    requires 0 < count <= buffer.Length
    requires numerator.Valid() && Small(denominator) && Distinct(numerator, denominator)
    requires 0 <= numerator.Value() < 10 * denominator.Value()
    modifies numerator, numerator.bigits, buffer
    ensures length == count && AllDigits(buffer[..count]) && 0 < denominator.Value()
    ensures decimalPoint == decimalPoint0 || decimalPoint == decimalPoint0 + 1
    ensures DigitsVal(buffer[..count]) * Pow(10, decimalPoint - decimalPoint0)
         == RoundHalfUp(old(numerator.Value()) * Pow(10, count - 1), denominator.Value())
    ensures old(numerator.Value()) >= denominator.Value() ==> buffer[0] != '0'
  {
    hide P, Pow, Counting, RoundHalfUp, Bignum.Value, Bignum.Shape, Bignum.IsClamped;
    ghost var n0, d := numerator.Value(), denominator.Value();
    CountingStart(n0, d);
    assert buffer[..0] == [];
    var i := 0;
    while i < count - 1
      invariant 0 <= i < count && numerator.Valid() && AllDigits(buffer[..i])
      invariant Counting(n0, d, DigitsVal(buffer[..i]), numerator.Value(), i)
      invariant i == 0 ==> DigitsVal(buffer[..i]) == 0 && numerator.Value() == n0
      invariant i > 0 && d <= n0 ==> buffer[0] != '0'
    {
      ghost var q, n := DigitsVal(buffer[..i]), numerator.Value();
      CountingBound(n0, d, q, n, i);
      var digit := NextDigit(numerator, denominator);
      CountingStep(n0, d, q, n, i, digit, numerator.Value());
      PutDigit(buffer, i, digit);
      numerator.Times10();
      i := i + 1;
    }
    LastDigit(n0, count, numerator, denominator, buffer);
    PropagateCarry(buffer, count);
    Pow1(10);
    var moved := FixLeadingTen(buffer, count);
    decimalPoint := if moved then decimalPoint0 + 1 else decimalPoint0;
    length := count;
    if !moved && d <= n0 { LeadingDigit(n0, d, count, buffer[..count]); }
  }

  /** The last of the counted digits: it may reach ten. */
  method LastDigit(ghost n0: int, count: nat, numerator: Bignum, denominator: Bignum, buffer: array<char>)
    requires 0 < count <= buffer.Length
    requires numerator.Valid() && Small(denominator) && Distinct(numerator, denominator)
    requires AllDigits(buffer[..count - 1])
    requires Counting(n0, denominator.Value(), DigitsVal(buffer[..count - 1]), numerator.Value(), count - 1)
    modifies numerator, numerator.bigits, buffer
    ensures numerator.Valid() && AllDigits(buffer[..count - 1]) && '0' <= buffer[count - 1] <= ':'
    ensures 0 < denominator.Value()
    ensures DigitsVal(buffer[..count]) == RoundHalfUp(n0 * Pow(10, count - 1), denominator.Value())
  {
    hide P, Pow, Counting, RoundHalfUp, Bignum.Value, Bignum.Shape, Bignum.IsClamped;
    ghost var d, q, n := denominator.Value(), DigitsVal(buffer[..count - 1]), numerator.Value();
    CountingBound(n0, d, q, n, count - 1);
    var digit: int := NextDigit(numerator, denominator);
    CountingStep(n0, d, q, n, count - 1, digit, numerator.Value());
    var c := Bignum.PlusCompare(numerator, numerator, denominator);
    if c >= 0 { digit := digit + 1; }
    ghost var before := buffer[..count - 1];
    buffer[count - 1] := CharOf(digit);
    assert buffer[..count] == before + [CharOf(digit)];
    assert buffer[..count - 1] == before;
    DigitsAppend(before, CharOf(digit));
  }

  /** A number of at least 10^(count-1) that is not written with a leading zero. */
  lemma LeadingDigit(n0: int, d: int, count: nat, s: seq<char>)
    requires 0 < d <= n0 && |s| == count > 0 && AllDigits(s)
    requires DigitsVal(s) == RoundHalfUp(n0 * Pow(10, count - 1), d)
    ensures s[0] != '0'
  {
    hide Pow, RoundHalfUp, DigitsVal;
    RoundAtLeast(n0, d, Pow(10, count - 1));
    LeadingZeroBound(s);
  }

  lemma RoundAtLeast(n: int, d: int, p: int)
    requires 0 < d <= n && 0 < p
    ensures p <= RoundHalfUp(n * p, d)
  {
    hide RoundHalfUp;
    var x := n * p;
    MulMono(d, n, p);
    DivMod(x, d);
    RoundHalfUpIs(x, d, x / d, x % d);
    MulCancel(p, x / d + 1, d);
  }

  lemma LeadingZeroBound(s: seq<char>)
    requires |s| > 0 && AllDigits(s)
    ensures s[0] == '0' ==> DigitsVal(s) < Pow(10, |s| - 1)
  {
  }

  /** Digits up to requested places after the decimal point, of v = numerator / denominator * 10^(point - 1). */
  method BignumToFixed(requestedDigits: int, decimalPoint0: int, numerator: Bignum, denominator: Bignum,
                       buffer: array<char>)
    returns (length: nat, decimalPoint: int)
    requires 0 <= requestedDigits && decimalPoint0 + requestedDigits <= buffer.Length && 0 < buffer.Length
    requires numerator.Valid() && Small(denominator) && Distinct(numerator, denominator)
    requires 0 <= numerator.Value() < 10 * denominator.Value()
    modifies numerator, numerator.bigits, denominator, denominator.bigits, buffer
    ensures 0 <= length <= buffer.Length && AllDigits(buffer[..length]) && 0 < old(denominator.Value())
    ensures length <= Max(1, decimalPoint0 + requestedDigits)
    ensures 0 <= decimalPoint - length + requestedDigits <= 1
    ensures DigitsVal(buffer[..length]) * Pow(10, decimalPoint - length + requestedDigits)
         == RoundScaled(old(numerator.Value()), old(denominator.Value()), decimalPoint0 - 1 + requestedDigits)
    ensures old(denominator.Value()) <= old(numerator.Value()) && length > 0 ==> buffer[0] != '0'
    ensures length == 0 ==> decimalPoint == -requestedDigits
  {
    hide P, Pow, DigitsVal, RoundHalfUp, RoundScaled, Bignum.Value, Bignum.Shape, Bignum.IsClamped;
    ghost var n0, d := numerator.Value(), denominator.Value();
    Pow1(10);
    NoDigits();
    assert buffer[..0] == [];
    if -decimalPoint0 > requestedDigits {
      TooSmall(n0, d, decimalPoint0 - 1 + requestedDigits);
      return 0, -requestedDigits;
    } else if -decimalPoint0 == requestedDigits {
      denominator.Times10();
      var c := Bignum.PlusCompare(numerator, numerator, denominator);
      JustBelow(n0, d);
      if c >= 0 {
        buffer[0] := '1';
        assert buffer[..1] == [] + ['1'];
        DigitsAppend([], '1');
        return 1, decimalPoint0 + 1;
      } else {
        return 0, decimalPoint0;
      }
    } else {
      var neededDigits := decimalPoint0 + requestedDigits;
      ScaledUp(n0, d, neededDigits - 1);
      length, decimalPoint := GenerateCountedDigits(neededDigits, decimalPoint0, numerator, denominator, buffer);
    }
  }

  lemma ScaledUp(n: int, d: int, e: nat)
    requires 0 < d
    ensures RoundScaled(n, d, e) == RoundHalfUp(n * Pow(10, e), d)
  {
  }

  lemma TooSmall(n: int, d: int, e: int)
    requires 0 <= n < 10 * d && e <= -2
    ensures RoundScaled(n, d, e) == 0
  {
    var p := Pow(10, -e);
    PowMono(10, 2, -e);
    PowAdd(10, 1, 1);
    Pow1(10);
    MulMono(100, p, d);
    MulStrict(0, d, p);
    RoundHalfUpIs(n, d * p, 0, n);
  }

  lemma JustBelow(n: int, d: int)
    requires 0 <= n < 10 * d
    ensures RoundScaled(n, d, -1) == if 2 * n >= 10 * d then 1 else 0
  {
    Pow1(10);
    RoundHalfUpIs(n, d * 10, 0, n);
  }
}
