/** Reading a decimal number: trimming, cutting, range checks, and the exact comparison that corrects a guess. */
module StrtodModel {
  import opened Arith
  import opened BigitSeq
  import opened BignumModel
  import opened Decimal
  import opened ExactDoubles
  import opened FastStrtod
  import opened Ieee
  import opened StrtodSpec

  const MAX_DECIMAL_POWER := 309
  const MIN_DECIMAL_POWER := -324
  const MAX_SIGNIFICANT_DECIMAL_DIGITS := 780

  method TrimLeadingZeros(buffer: seq<char>) returns (trimmed: seq<char>)
    ensures |trimmed| <= |buffer| && trimmed == buffer[|buffer| - |trimmed|..]
    ensures forall i :: 0 <= i < |buffer| - |trimmed| ==> buffer[i] == '0'
    ensures |trimmed| > 0 ==> trimmed[0] != '0'
  {
    for i := 0 to |buffer|
      invariant forall k :: 0 <= k < i ==> buffer[k] == '0'
    {
      if buffer[i] != '0' {
        return buffer[i..];
      }
    }
    return [];
  }

  method TrimTrailingZeros(buffer: seq<char>) returns (trimmed: seq<char>)
    ensures |trimmed| <= |buffer| && trimmed == buffer[..|trimmed|]
    ensures forall i :: |trimmed| <= i < |buffer| ==> buffer[i] == '0'
    ensures |trimmed| > 0 ==> trimmed[|trimmed| - 1] != '0'
  {
    for i := |buffer| downto 0
      invariant forall k :: i <= k < |buffer| ==> buffer[k] == '0'
    {
      if buffer[i] != '0' {
        return buffer[..i + 1];
      }
    }
    return [];
  }

  /** Only zeros and a number without leading and trailing zeros. */
  ghost predicate Trimmed(s: seq<char>) {
    AllDigits(s) && (|s| > 0 ==> s[0] != '0' && s[|s| - 1] != '0')
  }

  /** 779 digits and a final one, in the space provided. */
  method CutToMaxSignificantDigits(buffer: seq<char>, exponent: int, significantBuffer: array<char>)
    returns (significantExponent: int)
    requires Trimmed(buffer) && |buffer| > MAX_SIGNIFICANT_DECIMAL_DIGITS
    requires significantBuffer.Length >= MAX_SIGNIFICANT_DECIMAL_DIGITS
    modifies significantBuffer
    ensures significantBuffer[..MAX_SIGNIFICANT_DECIMAL_DIGITS] == buffer[..MAX_SIGNIFICANT_DECIMAL_DIGITS - 1] + ['1']
    ensures significantExponent == exponent + |buffer| - MAX_SIGNIFICANT_DECIMAL_DIGITS
  {
    for i := 0 to MAX_SIGNIFICANT_DECIMAL_DIGITS - 1
      invariant significantBuffer[..i] == buffer[..i]
    {
      significantBuffer[i] := buffer[i];
    }
    significantBuffer[MAX_SIGNIFICANT_DECIMAL_DIGITS - 1] := '1';
    significantExponent := exponent + (|buffer| - MAX_SIGNIFICANT_DECIMAL_DIGITS);
  }

  /** The decimals s * 10^exponent and t * 10^exponent' read as the same double. */
  ghost predicate ReadAlike(s: seq<char>, exponent: int, t: seq<char>, exponent': int) {
    forall d: nat :: IsDouble(d) ==> (ReadsAs(DigitsVal(s), exponent, d) <==> ReadsAs(DigitsVal(t), exponent', d))
  }

  /** What is cut off matters no more than the one that replaces it. */
  lemma CutReadsAlike(s: seq<char>, exponent: int)
    requires Trimmed(s) && |s| > MAX_SIGNIFICANT_DECIMAL_DIGITS
    ensures ReadAlike(s, exponent, s[..MAX_SIGNIFICANT_DECIMAL_DIGITS - 1] + ['1'],
      exponent + |s| - MAX_SIGNIFICANT_DECIMAL_DIGITS)
  {
    hide DigitsVal, Pow, ReadsAs;
    var top, rest := s[..779], s[779..];
    assert s == top + rest;
    DigitsConcat(top, rest);
    Positive(top);
    PowMono(10, 771, 778);
    DigitsBound(rest);
    LastDigitCounts(rest);
    DigitsAppend(top, '1');
    forall d: nat | IsDouble(d)
      ensures ReadsAs(DigitsVal(s), exponent, d) <==> ReadsAs(DigitsVal(top + ['1']), exponent + |s| - 780, d)
    {
      CutReadsTheSame(DigitsVal(top), DigitsVal(rest), |rest|, exponent, d);
    }
  }

  lemma LastDigitCounts(s: seq<char>)
    requires AllDigits(s) && |s| > 0 && s[|s| - 1] != '0'
    ensures 0 < DigitsVal(s)
  {
    DigitsBound(s[..|s| - 1]);
    assert IsDigit(s[|s| - 1]);
  }

  lemma TrimReadsAlike(s: seq<char>, left: seq<char>, right: seq<char>, exponent: int)
    requires |left| <= |s| && left == s[|s| - |left|..] && forall i :: 0 <= i < |s| - |left| ==> s[i] == '0'
    requires |right| <= |left| && right == left[..|right|] && forall i :: |right| <= i < |left| ==> left[i] == '0'
    ensures ReadAlike(s, exponent, right, exponent + |left| - |right|)
  {
    hide DigitsVal, Pow, ReadsAs;
    var zeros := s[..|s| - |left|];
    assert s == zeros + left;
    DigitsConcat(zeros, left);
    DigitsOfZeros(zeros);
    var tail := left[|right|..];
    assert left == right + tail;
    DigitsConcat(right, tail);
    DigitsOfZeros(tail);
    forall d: nat | IsDouble(d)
      ensures ReadsAs(DigitsVal(s), exponent, d) <==> ReadsAs(DigitsVal(right), exponent + |left| - |right|, d)
    {
      SameNumber(DigitsVal(right), exponent, |tail|, d);
    }
  }

  lemma AlikeThrough(s: seq<char>, a: int, t: seq<char>, b: int, u: seq<char>, c: int)
    requires ReadAlike(s, a, t, b) && ReadAlike(t, b, u, c)
    ensures ReadAlike(s, a, u, c)
  {
  }

  /** Trims and, if need be, cuts the digits, without changing the double the number reads as. */
  method TrimAndCut(buffer: seq<char>, exponent: int, copySpace: array<char>) returns (trimmed: seq<char>, updated: int)
    requires AllDigits(buffer) && copySpace.Length >= MAX_SIGNIFICANT_DECIMAL_DIGITS
    modifies copySpace
    ensures Trimmed(trimmed) && |trimmed| <= MAX_SIGNIFICANT_DECIMAL_DIGITS
    ensures ReadAlike(buffer, exponent, trimmed, updated)
  {
    hide ReadAlike;
    var left := TrimLeadingZeros(buffer);
    var right := TrimTrailingZeros(left);
    TrimReadsAlike(buffer, left, right, exponent);
    updated := exponent + (|left| - |right|);
    if |right| > MAX_SIGNIFICANT_DECIMAL_DIGITS {
      CutReadsAlike(right, updated);
      ghost var before := updated;
      updated := CutToMaxSignificantDigits(right, updated, copySpace);
      trimmed := copySpace[..MAX_SIGNIFICANT_DECIMAL_DIGITS];
      AlikeThrough(buffer, exponent, right, before, trimmed, updated);
    } else {
      trimmed := right;
    }
  }

  // ---- The exact comparison

  /** Powers that stay far below the capacity. */
  lemma ComparisonRoom(length: nat, exponent: int, n: int, f: int)
    requires length <= MAX_SIGNIFICANT_DECIMAL_DIGITS && MIN_DECIMAL_POWER < length + exponent <= MAX_DECIMAL_POWER + 1
    requires 0 <= n < Pow(10, length) && 0 <= f < 0x1_0000_0000_0000_0000
    ensures Pow(10, length) <= P(CAPACITY - 1)
    ensures exponent >= 0 ==> 0 <= Pow(5, exponent) * n < P(120)
    ensures exponent < 0 ==> 0 <= Pow(5, -exponent) * f < P(124) && n < P(120)
    ensures P(124) <= P(CAPACITY - 1) && P(120) <= P(CAPACITY - 1)
  {
    hide P, Pow;
    PowMono(10, length, 780);
    TensInBits(780);
    PMono(120, 124);
    PMono(124, CAPACITY - 1);
    if exponent >= 0 {
      PowBaseMono(5, 10, exponent);
      PowAdd(10, exponent, length);
      PowMono(10, exponent + length, 780);
      MulMono(0, n, Pow(5, exponent));
      MulMono(n, Pow(10, length), Pow(5, exponent));
      MulMono(Pow(5, exponent), Pow(10, exponent), Pow(10, length));
    } else {
      PowBaseMono(5, 8, -exponent);
      FivesInBits(-exponent);
      MulMono(0, f, Pow(5, -exponent));
      MulMono(f, 0x1_0000_0000_0000_0000, Pow(5, -exponent));
    }
  }

  lemma TensInBits(n: nat)
    requires n <= 780
    ensures Pow(10, n) < P(120)
  {
    hide P, Pow;
    PowBaseMono(10, 16, n);
    Pow2Values();
    PowPow(2, 4, n);
    PowMono(2, 4 * n, 3120);
    PowStrict(2, 3120, 28 * 120);
    PIsPow2(120);
  }

  lemma FivesInBits(n: nat)
    requires n <= 1103
    ensures Pow(5, n) * 0x1_0000_0000_0000_0000 < P(124)
  {
    hide P, Pow;
    PowBaseMono(5, 8, n);
    Pow1(2);
    PowAdd(2, 1, 1);
    PowAdd(2, 2, 1);
    PowPow(2, 3, n);
    PowMono(2, 3 * n, 3309);
    Pow2Values();
    PowAdd(2, 3309, 64);
    MulMono(Pow(5, n), Pow(2, 3309), 0x1_0000_0000_0000_0000);
    PowStrict(2, 3373, 28 * 124);
    PIsPow2(124);
  }

  /** MultiplyByPowerOfTen with room to spare. */
  method ScaleByTen(b: Bignum, n: nat)
    requires b.Valid() && 0 <= Pow(5, n) * b.Sig() < P(124)
    modifies b, b.bigits
    ensures b.Valid() && b.Value() == Pow(10, n) * old(b.Value()) && b.usedDigits < CAPACITY
  {
    hide P, Pow, Bignum.Value, Bignum.Shape, Bignum.IsClamped, Bignum.Sig;
    PMono(124, CAPACITY - 1);
    TimesIs(Pow(5, n), b.Sig());
    TimesIs(Pow(10, n), b.Value());
    ghost var fives := Pow(5, n) * b.Sig();
    TimesIs(Pow(2, n % 28), fives);
    SmallFactor(n % 28, fives);
    b.MultiplyByPowerOfTen(n);
    b.BelowCapacity();
  }

  lemma SmallFactor(r: nat, x: int)
    requires r < 28 && 0 <= x < P(124)
    ensures Pow(2, r) * x < P(CAPACITY - 1)
  {
    hide P, Pow;
    Pow2Values();
    PowMono(2, r, 28);
    MulMono(Pow(2, r), 0x1000_0000, x);
    PMono(125, CAPACITY - 1);
    PSucc(124);
  }

  method ShiftUp(b: Bignum, n: nat)
    requires b.Valid() && b.usedDigits < CAPACITY
    modifies b, b.bigits
    ensures b.Valid() && b.Value() == Pow(2, n) * old(b.Value())
  {
    hide P, Pow, Bignum.Value, Bignum.Shape, Bignum.IsClamped, Bignum.Sig;
    TimesIs(Pow(2, n), b.Value());
    b.ShiftLeft(n);
  }

  /** The two numbers as bignums, either multiplied by the power of ten that makes both integers. */
  method TenScaled(buffer: seq<char>, exponent: int, f: uint64) returns (bufferBignum: Bignum, diyFpBignum: Bignum)
    requires AllDigits(buffer) && |buffer| <= MAX_SIGNIFICANT_DECIMAL_DIGITS
    requires MIN_DECIMAL_POWER < |buffer| + exponent <= MAX_DECIMAL_POWER + 1
    ensures fresh({bufferBignum, bufferBignum.bigits, diyFpBignum, diyFpBignum.bigits})
    ensures bufferBignum != diyFpBignum && bufferBignum.bigits != diyFpBignum.bigits
    ensures bufferBignum.Valid() && bufferBignum.usedDigits < CAPACITY
    ensures diyFpBignum.Valid() && diyFpBignum.usedDigits < CAPACITY
    ensures bufferBignum.Value() == Pow(10, Max(exponent, 0)) * DigitsVal(buffer)
    ensures diyFpBignum.Value() == Pow(10, Max(-exponent, 0)) * f
  {
    hide P, Pow, DigitsVal, Bignum.Value, Bignum.Shape, Bignum.IsClamped, Bignum.Sig;
    ghost var n := DigitsVal(buffer);
    DigitsBound(buffer);
    ComparisonRoom(|buffer|, exponent, n, f);
    Pow1(10);
    bufferBignum := new Bignum();
    diyFpBignum := new Bignum();
    bufferBignum.AssignDecimalString(buffer);
    diyFpBignum.AssignUInt64(f);
    if exponent >= 0 {
      PMono(120, 124);
      ScaleByTen(bufferBignum, exponent);
      Word64(f);
      diyFpBignum.BelowCapacity();
    } else {
      ScaleByTen(diyFpBignum, -exponent);
      bufferBignum.BelowCapacity();
    }
  }

  /** Compares buffer * 10^exponent with f * 2^e, exactly. */
  method CompareBufferWithDiyFp(buffer: seq<char>, exponent: int, diyFp: DiyFp) returns (comparison: int)
    requires AllDigits(buffer) && |buffer| <= MAX_SIGNIFICANT_DECIMAL_DIGITS
    requires MIN_DECIMAL_POWER < |buffer| + exponent <= MAX_DECIMAL_POWER + 1 && diyFp.f < 0x1_0000_0000_0000_0000
    ensures comparison == Sign(Side(DigitsVal(buffer), exponent, diyFp.f, diyFp.e))
  {
    hide P, Pow, DigitsVal, Bignum.Value, Bignum.Shape, Bignum.IsClamped, Bignum.Sig;
    Pow1(2);
    var bufferBignum, diyFpBignum := TenScaled(buffer, exponent, diyFp.f);
    if diyFp.e > 0 {
      ShiftUp(diyFpBignum, diyFp.e);
    } else {
      ShiftUp(bufferBignum, -diyFp.e);
    }
    comparison := Bignum.Compare(bufferBignum, diyFpBignum);
    SideParts(DigitsVal(buffer), exponent, diyFp.f, diyFp.e, bufferBignum.Value(), diyFpBignum.Value());
  }

  lemma Word64(f: int)
    requires 0 <= f < 0x1_0000_0000_0000_0000
    ensures f < P(CAPACITY - 1)
  {
    hide P;
    PIsPow2(3);
    Pow2Values();
    PowMono(2, 64, 84);
    PMono(3, CAPACITY - 1);
  }

  lemma SideParts(n: int, exponent: int, f: int, e: int, x: int, y: int)
    requires x == Pow(2, Max(-e, 0)) * (Pow(10, Max(exponent, 0)) * n)
    requires y == Pow(2, Max(e, 0)) * (Pow(10, Max(-exponent, 0)) * f)
    ensures Side(n, exponent, f, e) == x - y
  {
    hide Pow;
    MulAssoc(f, Pow(2, Max(e, 0)), Pow(10, Max(-exponent, 0)));
    MulAssoc(Pow(2, Max(e, 0)), Pow(10, Max(-exponent, 0)), f);
  }

  // ---- Guessing and correcting

  /** Empty and out-of-range numbers are decided at once, others by the fast conversion. */
  method ComputeGuess(trimmed: seq<char>, exponent: int, machine: Machine)
    returns (isCorrect: bool, guess: nat)
    requires Trimmed(trimmed) && machine.IsIeee()
    ensures Approximates(DigitsVal(trimmed), exponent, isCorrect, guess)
    ensures !isCorrect ==> IsFinite(guess) && MIN_DECIMAL_POWER < |trimmed| + exponent <= MAX_DECIMAL_POWER
  {
    hide DigitsVal, Pow, ReadsAs;
    if |trimmed| == 0 {
      NoDigits();
      ZeroReadsAsZero(exponent);
      return true, 0;
    }
    DigitsBound(trimmed);
    Positive(trimmed);
    if exponent + |trimmed| - 1 >= MAX_DECIMAL_POWER {
      HugeReadsAsInfinity(DigitsVal(trimmed), exponent, |trimmed|);
      return true, INFINITY;
    }
    if exponent + |trimmed| <= MIN_DECIMAL_POWER {
      TinyReadsAsZero(DigitsVal(trimmed), exponent, |trimmed|);
      return true, 0;
    }
    isCorrect, guess := DoubleStrtod(trimmed, exponent, machine);
    if isCorrect { return; }
    isCorrect, guess := DiyFpStrtod(trimmed, exponent);
    if isCorrect { return; }
    if guess == INFINITY {
      return true, guess;
    }
  }

  /** The double that the decimal buffer * 10^exponent reads as. */
  method Strtod(buffer: seq<char>, exponent: int, machine: Machine) returns (result: nat)
    requires AllDigits(buffer) && machine.IsIeee()
    ensures IsDouble(result) && ReadsAs(DigitsVal(buffer), exponent, result)
  {
    hide DigitsVal, Pow, ReadsAs, Side, SideOf;
    var copySpace := new char[MAX_SIGNIFICANT_DECIMAL_DIGITS];
    var trimmed, updated := TrimAndCut(buffer, exponent, copySpace);
    assert ReadAlike(buffer, exponent, trimmed, updated);
    var isCorrect, guess := ComputeGuess(trimmed, updated, machine);
    if isCorrect { return guess; }
    BoundaryExponent(guess);
    SideOfIs(DigitsVal(trimmed), updated, guess);
    SignificandBounds(guess);
    GuessDecided(DigitsVal(trimmed), updated, guess);
    var comparison := CompareBufferWithDiyFp(trimmed, updated, UpperBoundary(guess));
    if comparison < 0 {
      result := guess;
    } else if comparison > 0 {
      result := NextDouble(guess);
    } else if Significand(guess) % 2 == 0 {
      result := guess;
    } else {
      result := NextDouble(guess);
    }
  }

  lemma SideOfIs(n: int, exponent: int, d: nat)
    ensures SideOf(n, exponent, d) == Side(n, exponent, UpperBoundary(d).f, UpperBoundary(d).e)
  {
  }
}
