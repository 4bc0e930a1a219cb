/** Writing decimal text: the digits of the shortest conversion laid out in decimal or exponential notation. */
module DoubleToString {
  import opened Arith
  import opened Decimal
  import opened Ieee
  import opened Literals
  import opened Numerals
  import opened RoundTrip
  import opened RoundedDigits
  import opened Scaling
  import CountedDtoa
  import ExactDoubles
  import ExactDtoa
  import FastCounted
  import FastDtoa
  import FastFixed
  import GrisuIsExact
  import PowerEstimate
  import PrecisionIsExact
  import StartValues
  import StringToDouble
  import opened StrtodSpec

  /** A text under construction in a buffer of fixed size. */
  class StringBuilder {
    const buffer: array<char>
    var position: nat

    ghost predicate Valid()
      reads `position
    {
      position <= buffer.Length
    }

    ghost function Text(): seq<char>
      requires Valid()
      reads `position, buffer
    {
      buffer[..position]
    }

    constructor (buffer: array<char>)
      ensures Valid() && this.buffer == buffer && Text() == []
    {
      this.buffer, position := buffer, 0;
    }

    method AddCharacter(c: char)
      requires Valid() && position < buffer.Length && c != '\0'
      modifies `position, buffer
      ensures Valid() && Text() == old(Text()) + [c]
    {
      buffer[position] := c;
      position := position + 1;
    }

    method AddSubstring(s: seq<char>)
      requires Valid() && position + |s| < buffer.Length
      modifies `position, buffer
      ensures Valid() && Text() == old(Text()) + s
    {
      ghost var before := Text();
      for i := 0 to |s|
        invariant Valid() && position == |before|
        invariant buffer[..|before| + i] == before + s[..i]
      {
        buffer[position + i] := s[i];
      }
      position := position + |s|;
    }

    /** Nothing is added if count is not positive. */
    method AddPadding(c: char, count: int)
      requires Valid() && position + Max(count, 0) <= buffer.Length && c != '\0'
      modifies `position, buffer
      ensures Valid() && Text() == old(Text()) + Repeat(c, Max(count, 0))
    {
      ghost var before := Text();
      var i := 0;
      while i < count
        invariant 0 <= i <= Max(count, 0) && Valid() && Text() == before + Repeat(c, i)
      {
        AddCharacter(c);
        i := i + 1;
      }
    }
  }

  function Repeat(c: char, n: nat): (s: seq<char>)
    ensures |s| == n
  {
    seq(n, i => c)
  }

  /** The text, behind any sign, is a literal of the number n * 10^e. */
  ghost predicate Denotes(text: seq<char>, n: int, e: int) {
    forall sign: seq<char> :: IsSignText(sign) ==> DenotesBehind(sign, text, n, e)
  }

  ghost predicate DenotesBehind(sign: seq<char>, text: seq<char>, n: int, e: int) {
    var l := ParseLiteral(sign + text);
    l.Some? && l.value.negative == (sign == ['-']) && l.value.Is(n, e)
  }

  lemma ComposedDenotes(whole: seq<char>, point: bool, fraction: seq<char>, exponent: seq<char>,
                        x: int, zeros: nat, n: int, e: int)
    requires AllDigits(whole) && AllDigits(fraction) && whole != [] && (!point ==> fraction == [])
    requires ParseExponent(exponent, 0) == Some(x)
    requires DigitsVal(whole + fraction) == n * Pow(10, zeros) && x - |fraction| == e - zeros
    ensures Denotes(Compose(whole, point, fraction, exponent), n, e)
  {
    hide DigitsVal, Pow, ParseLiteral, ParseExponent;
    forall sign: seq<char> | IsSignText(sign)
      ensures DenotesBehind(sign, Compose(whole, point, fraction, exponent), n, e)
    {
      ParsesBack(sign, whole, point, fraction, exponent);
    }
  }

  /** Zeros in front do not count, and zeros at the end are powers of ten. */
  lemma PaddedDigits(front: nat, digits: seq<char>, back: nat)
    requires AllDigits(digits)
    ensures var s := Repeat('0', front) + digits + Repeat('0', back);
      AllDigits(s) && DigitsVal(s) == DigitsVal(digits) * Pow(10, back)
  {
    hide DigitsVal, Pow;
    var f, b := Repeat('0', front), Repeat('0', back);
    DigitsConcat(f + digits, b);
    DigitsConcat(f, digits);
    DigitsOfZeros(f);
    DigitsOfZeros(b);
  }

  /** Digits padded with zeros, however they are divided by the point; any but extra zeros at the end may be counted
      with the number. */
  lemma LaidOut(front: nat, digits: seq<char>, back: nat, whole: seq<char>, point: bool, fraction: seq<char>,
                extra: nat)
    requires AllDigits(digits) && whole != [] && (!point ==> fraction == []) && extra <= back
    requires whole + fraction == Repeat('0', front) + digits + Repeat('0', back)
    ensures Denotes(Compose(whole, point, fraction, []), DigitsVal(digits), back - |fraction|)
    ensures Denotes(Compose(whole, point, fraction, []), DigitsVal(digits) * Pow(10, back - extra), extra - |fraction|)
  {
    hide DigitsVal, Pow, ParseExponent, Denotes, Compose;
    PaddedDigits(front, digits, back);
    var s := whole + fraction;
    assert whole == s[..|whole|] && fraction == s[|whole|..];
    NoExponent([]);
    ComposedDenotes(whole, point, fraction, [], 0, back, DigitsVal(digits), back - |fraction|);
    PowAdd(10, back - extra, extra);
    MulAssoc(DigitsVal(digits), Pow(10, back - extra), Pow(10, extra));
    ComposedDenotes(whole, point, fraction, [], 0, extra, DigitsVal(digits) * Pow(10, back - extra),
      extra - |fraction|);
  }

  lemma Composed(before: seq<char>, whole: seq<char>, fraction: seq<char>)
    ensures before + whole == before + Compose(whole, false, [], [])
    ensures before + whole + ['.'] + fraction == before + Compose(whole, true, fraction, [])
  {
  }

  lemma RepeatMore(c: char, n: nat, m: nat)
    ensures Repeat(c, n) + Repeat(c, m) == Repeat(c, n + m) && Repeat(c, 0) == [] && Repeat(c, 1) == [c]
  {
  }

  lemma SmallLayout(front: nat, digits: seq<char>, back: nat)
    ensures ['0'] + (Repeat('0', front) + digits + Repeat('0', back)) ==
      Repeat('0', front + 1) + digits + Repeat('0', back)
  {
  }

  lemma LargeLayout(digits: seq<char>, gap: nat, places: nat)
    ensures (digits + Repeat('0', gap)) + Repeat('0', places) == Repeat('0', 0) + digits + Repeat('0', gap + places)
  {
  }

  lemma MiddleLayout(digits: seq<char>, point: nat, back: nat)
    requires point <= |digits|
    ensures digits[..point] + (digits[point..] + Repeat('0', back)) == Repeat('0', 0) + digits + Repeat('0', back)
  {
  }

  lemma OneMoreZero(whole: seq<char>, front: nat, digits: seq<char>, back: nat)
    requires whole + [] == Repeat('0', front) + digits + Repeat('0', back)
    ensures whole + ['0'] == Repeat('0', front) + digits + Repeat('0', back + 1)
  {
    hide Repeat;
    RepeatMore('0', back, 1);
    RepeatMore('0', 1, 0);
    var padded := Repeat('0', front) + digits;
    assert whole + [] == whole;
    assert padded + Repeat('0', back) + ['0'] == padded + (Repeat('0', back) + ['0']);
  }

  // ---- The digits

  /** What rounding adds to the two floating-point products whose ceilings select powers of ten. */
  datatype Noise = Noise(scale: real, estimate: real) {
    ghost predicate IsSmall() {
      -0.0005 < scale < 0.0005 && -0.0000000001 < estimate < 0.0000000001
    }
  }

  datatype DtoaMode = SHORTEST | FIXED | PRECISION

  /** What the digits of d are in each mode; zero is one digit. */
  ghost predicate IsAscii(d: nat, mode: DtoaMode, requestedDigits: nat, digits: seq<char>, decimalPoint: int) {
    if mode == PRECISION && requestedDigits == 0 then digits == []
    else if d == 0 then digits == ['0'] && decimalPoint == 1
    else
      match mode
      case SHORTEST => IsShortestOutput(d, digits, decimalPoint) && |digits| <= 17
      case FIXED =>
        (if digits == [] then decimalPoint == 0 - requestedDigits else digits[0] != '0') &&
        FastFixed.Denotes(digits, decimalPoint, requestedDigits,
          ExactDtoa.RoundV(Significand(d), Exponent(d), requestedDigits))
      case PRECISION =>
        |digits| == requestedDigits &&
        exists point :: ExactDtoa.PrecisionAt(Significand(d), Exponent(d), digits, decimalPoint, point)
  }

  /** The buffer holds the digits, with the terminating character. */
  ghost predicate HasRoom(d: nat, mode: DtoaMode, requestedDigits: nat, size: nat) {
    match mode
    case SHORTEST => 17 < size
    case FIXED =>
      27 + requestedDigits < size &&
      forall point :: ExactDtoa.LeadingAt(Significand(d), Exponent(d), point) ==> point + requestedDigits < size
    case PRECISION => 1 < size && requestedDigits < size
  }

  /** The digits of a double in any mode: those of the fast path if it succeeds, those of the exact path otherwise. */
  method DoubleToAscii(d: nat, mode: DtoaMode, requestedDigits: nat, noise: Noise, buffer: array<char>)
    returns (length: nat, decimalPoint: int)
    requires IsFinite(d) && noise.IsSmall() && HasRoom(d, mode, requestedDigits, buffer.Length)
    modifies buffer
    ensures length < buffer.Length && buffer[length] == '\0'
    ensures IsAscii(d, mode, requestedDigits, buffer[..length], decimalPoint)
  {
    hide IsShortestOutput, FastFixed.Denotes, ExactDtoa.PrecisionAt, ExactDtoa.LeadingAt, ExactDtoa.RoundV;
    if mode == PRECISION && requestedDigits == 0 {
      buffer[0] := '\0';
      length, decimalPoint := 0, 0;
      assert buffer[..0] == [];
      return;
    }
    if d == 0 {
      buffer[0] := '0';
      buffer[1] := '\0';
      length, decimalPoint := 1, 1;
      assert buffer[..1] == ['0'];
      return;
    }
    match mode {
      case SHORTEST => length, decimalPoint := ShortestDigits(d, noise, buffer);
      case FIXED => length, decimalPoint := FixedDigits(d, requestedDigits, noise, buffer);
      case PRECISION => length, decimalPoint := PrecisionDigits(d, requestedDigits, noise, buffer);
    }
  }

  /** Where the exact path starts. */
  method EstimatedPower(d: nat, noise: Noise) returns (k: int)
    requires IsFinite(d) && 0 < d && noise.IsSmall()
    ensures ExactDtoa.EstimateOk(Significand(d), Exponent(d), k) && StartValues.InRange(Significand(d), Exponent(d), k)
  {
    hide ExactDtoa.EstimateOk, Pow;
    SignificandBounds(d);
    var exponent := PowerEstimate.NormalizedExponent(Significand(d), Exponent(d));
    k := PowerEstimate.EstimatePower(exponent, noise.estimate);
    PowerEstimate.EstimateIsOk(Significand(d), Exponent(d), exponent, noise.estimate);
    EstimateInRange(Significand(d), Exponent(d), k);
  }

  method ShortestDigits(d: nat, noise: Noise, buffer: array<char>) returns (length: nat, decimalPoint: int)
    requires IsFinite(d) && 0 < d && noise.IsSmall() && 18 <= buffer.Length
    modifies buffer
    ensures length < buffer.Length && buffer[length] == '\0'
    ensures length <= 17 && IsShortestOutput(d, buffer[..length], decimalPoint)
  {
    hide DigitsVal, ExactDtoa.EstimateOk, ExactDtoa.Exact, FastDtoa.AllShortest,
      GrisuIsExact.TrueEnd, LowerBoundaryIsCloser, FastDtoa.Boundaries;
    SignificandBounds(d);
    var f, e, closer := Significand(d), Exponent(d), LowerBoundaryIsCloser(d);
    var scaled := Scale(d, noise.scale);
    GrisuIsExact.BoundariesFollow(f, e, closer, scaled.mk, scaled.E, scaled.low, scaled.w, scaled.high);
    var fastWorked, kappa;
    fastWorked, length, kappa := FastDtoa.DigitGen(scaled.low, scaled.w, scaled.high, scaled.E, buffer);
    if fastWorked {
      decimalPoint := length + (kappa - scaled.mk);
      GrisuIsExact.FastIsShortest(f, e, closer, scaled.mk, scaled.E, scaled.low, scaled.w, scaled.high,
                                  buffer[..length], kappa);
      buffer[length] := '\0';
      return;
    }
    var k := EstimatedPower(d, noise);
    length, decimalPoint := ExactDtoa.ShortestDtoa(f, e, closer, k, buffer);
  }

  method FixedDigits(d: nat, requestedDigits: nat, noise: Noise, buffer: array<char>)
    returns (length: nat, decimalPoint: int)
    requires IsFinite(d) && 0 < d && noise.IsSmall() && HasRoom(d, FIXED, requestedDigits, buffer.Length)
    modifies buffer
    ensures length < buffer.Length && buffer[length] == '\0'
    ensures IsAscii(d, FIXED, requestedDigits, buffer[..length], decimalPoint)
  {
    hide DigitsVal, ExactDtoa.EstimateOk, ExactDtoa.RoundV, ExactDtoa.LeadingAt, Pow;
    SignificandBounds(d);
    var f, e := Significand(d), Exponent(d);
    var fastWorked;
    ghost var shift;
    fastWorked, length, decimalPoint, shift := FastFixed.FastFixedDtoa(f, e, requestedDigits, buffer);
    if fastWorked { return; }
    var k := EstimatedPower(d, noise);
    length, decimalPoint := ExactDtoa.FixedDtoa(f, e, k, requestedDigits, buffer);
  }

  method PrecisionDigits(d: nat, requestedDigits: nat, noise: Noise, buffer: array<char>)
    returns (length: nat, decimalPoint: int)
    requires IsFinite(d) && 0 < d && noise.IsSmall() && 0 < requestedDigits < buffer.Length
    modifies buffer
    ensures length < buffer.Length && buffer[length] == '\0'
    ensures IsAscii(d, PRECISION, requestedDigits, buffer[..length], decimalPoint)
  {
    hide DigitsVal, ExactDtoa.EstimateOk, ExactDtoa.PrecisionAt, FastCounted.Counted, GrisuIsExact.TrueEnd,
      LowerBoundaryIsCloser, Pow;
    SignificandBounds(d);
    var f, e := Significand(d), Exponent(d);
    var scaled := Scale(d, noise.scale);
    var fastWorked, kappa;
    ghost var place, point;
    fastWorked, length, kappa, place := FastCounted.DigitGenCounted(scaled.w, scaled.E, requestedDigits, buffer);
    if fastWorked {
      decimalPoint := length + (kappa - scaled.mk);
      ValueOnly(f, e, LowerBoundaryIsCloser(d), scaled.mk, scaled.E);
      point := PrecisionIsExact.CountedIsPrecision(f, e, scaled.mk, scaled.E, scaled.w, buffer[..length], kappa, place);
      ghost var digits := buffer[..length];
      buffer[length] := '\0';
      assert buffer[..length] == digits;
      return;
    }
    var k := EstimatedPower(d, noise);
    length, decimalPoint, point := ExactDtoa.PrecisionDtoa(f, e, k, requestedDigits, buffer);
  }

  /** The value itself does not depend on which boundary is closer. */
  lemma ValueOnly(f: nat, e: int, closer: bool, mk: int, E: nat)
    ensures GrisuIsExact.TrueEnd(f, e, closer, 0, mk, E) == GrisuIsExact.TrueEnd(f, e, false, 0, mk, E)
  {
  }

  lemma EstimateInRange(f: nat, e: int, k: int)
    requires f < 0x20_0000_0000_0000 && DENORMAL_EXPONENT <= e <= 971 && ExactDtoa.EstimateOk(f, e, k)
    ensures StartValues.InRange(f, e, k)
  {
  }

  /** The text is a literal of d with this sign, and of no other double. */
  ghost predicate PrintedAs(text: seq<char>, negative: bool, d: nat) {
    match ParseLiteral(text)
    case None => false
    case Some(l) => l.negative == negative && forall c: nat :: IsDouble(c) ==> (l.Reads(c) <==> c == d)
  }

  lemma DenotedIsPrinted(text: seq<char>, negative: bool, n: int, e: int, d: nat)
    requires Denotes(text, n, e) && forall c: nat :: IsDouble(c) ==> (ReadsAs(n, e, c) <==> c == d)
    ensures PrintedAs((if negative then ['-'] else []) + text, negative, d)
  {
    hide ReadsAs, ParseLiteral, Literal.Reads, Literal.Is;
    var sign := if negative then ['-'] else [];
    assert DenotesBehind(sign, text, n, e);
    var l := ParseLiteral(sign + text).value;
    forall c: nat | IsDouble(c) ensures l.Reads(c) <==> c == d {
      l.ReadsAsNumber(n, e, c);
    }
  }

  /** The digits of d read back as d and nothing else; their exponent is small. */
  lemma DigitsRead(d: nat, digits: seq<char>, decimalPoint: int)
    requires IsFinite(d)
    requires if d == 0 then digits == ['0'] && decimalPoint == 1 else IsShortestOutput(d, digits, decimalPoint)
    ensures forall c: nat :: IsDouble(c) ==> (ReadsAs(DigitsVal(digits), decimalPoint - |digits|, c) <==> c == d)
    ensures 0 < |digits| && AllDigits(digits) && -324 < decimalPoint < 309 + |digits|
    ensures d != 0 ==> digits[0] != '0'
  {
    hide ReadsAs, DigitsVal, IntervalOf;
    var n, e := DigitsVal(digits), decimalPoint - |digits|;
    if d == 0 {
      NoDigits();
      OneDigit('0');
      ZeroReadsAsZero(e);
      forall c: nat | IsDouble(c) ensures ReadsAs(n, e, c) <==> c == d {
        if c != 0 { OneDouble(n, e, c, 0); }
      }
    } else {
      forall c: nat | IsDouble(c) ensures ReadsAs(n, e, c) <==> c == d { ReadsBack(d, digits, decimalPoint, c); }
      DigitsBound(digits);
      Pow1(10);
      if n == 0 { ZeroReadsAsZero(e); }
      if decimalPoint <= -324 { TinyReadsAsZero(n, e, |digits|); }
      if 309 <= e && 0 < n { HugeReadsAsInfinity(n, e, 1); }
    }
  }

  class DoubleToStringConverter {
    const emitPositiveExponentSign: bool
    const emitTrailingDecimalPoint: bool
    const emitTrailingZeroAfterPoint: bool
    const uniqueZero: bool
    const exponentCharacter: char
    const decimalInShortestLow: int
    const decimalInShortestHigh: int
    const maxLeadingPaddingZeroesInPrecisionMode: int
    const maxTrailingPaddingZeroesInPrecisionMode: int

    /** The exponent character can be read back, and a trailing zero comes with a trailing point. */
    predicate Valid() {
      (exponentCharacter == 'e' || exponentCharacter == 'E')
      && (emitTrailingZeroAfterPoint ==> emitTrailingDecimalPoint)
    }

    constructor (emitPositiveExponentSign: bool, emitTrailingDecimalPoint: bool, emitTrailingZeroAfterPoint: bool,
                 uniqueZero: bool, exponentCharacter: char, decimalInShortestLow: int, decimalInShortestHigh: int,
                 maxLeadingPaddingZeroes: int, maxTrailingPaddingZeroes: int)
      requires (exponentCharacter == 'e' || exponentCharacter == 'E') &&
        (emitTrailingZeroAfterPoint ==> emitTrailingDecimalPoint)
      ensures Valid()
      ensures this.emitPositiveExponentSign == emitPositiveExponentSign &&
        this.emitTrailingDecimalPoint == emitTrailingDecimalPoint
      ensures this.emitTrailingZeroAfterPoint == emitTrailingZeroAfterPoint && this.uniqueZero == uniqueZero
      ensures this.exponentCharacter == exponentCharacter
      ensures this.decimalInShortestLow == decimalInShortestLow && this.decimalInShortestHigh == decimalInShortestHigh
      ensures maxLeadingPaddingZeroesInPrecisionMode == maxLeadingPaddingZeroes
      ensures maxTrailingPaddingZeroesInPrecisionMode == maxTrailingPaddingZeroes
    {
      this.emitPositiveExponentSign, this.emitTrailingDecimalPoint :=
        emitPositiveExponentSign, emitTrailingDecimalPoint;
      this.emitTrailingZeroAfterPoint, this.uniqueZero := emitTrailingZeroAfterPoint, uniqueZero;
      this.exponentCharacter := exponentCharacter;
      this.decimalInShortestLow, this.decimalInShortestHigh := decimalInShortestLow, decimalInShortestHigh;
      maxLeadingPaddingZeroesInPrecisionMode := maxLeadingPaddingZeroes;
      maxTrailingPaddingZeroesInPrecisionMode := maxTrailingPaddingZeroes;
    }

    /** The sign in front: UNIQUE_ZERO has none for zero. */
    function SignText(negative: bool, d: nat): seq<char> {
      if negative && (d != 0 || !uniqueZero) then ['-'] else []
    }

    function DecimalLength(decimalPoint: int, digitsAfterPoint: nat): nat {
      Max(1, decimalPoint) +
      if digitsAfterPoint > 0 then 1 + digitsAfterPoint
      else (if emitTrailingDecimalPoint then 1 else 0) + (if emitTrailingZeroAfterPoint then 1 else 0)
    }

    /** The decimal notation of n * 10^-places with exactly that many places, no leading zero but a single one before
        the point, and what the flags add behind an integer. */
    ghost function DecimalText(n: int, places: nat): seq<char>
      requires 0 <= n
    {
      DecimalNotation(n, places) +
      if places > 0 then []
      else (if emitTrailingDecimalPoint then ['.'] else []) + (if emitTrailingZeroAfterPoint then ['0'] else [])
    }

    /** The decimal notation of digits with the point at decimalPoint, all of them written. */
    ghost predicate IsDecimalText(text: seq<char>, digits: seq<char>, decimalPoint: int) {
      var n := DigitsVal(digits) * Pow(10, Max(0, decimalPoint - |digits|));
      0 <= n && text == DecimalText(n, Max(0, |digits| - decimalPoint))
    }

    /** The exponent character, the sign if there is to be one, and the exponent without leading zeros. */
    function ExponentPart(exponent: int): seq<char> {
      [exponentCharacter] +
      (if exponent < 0 then ['-'] else if emitPositiveExponentSign then ['+'] else []) + Numeral(Abs(exponent))
    }

    /** Exponential notation: a point only if there are digits behind it. */
    function ExponentialText(digits: seq<char>, exponent: int): seq<char>
      requires digits != []
    {
      [digits[0]] + (if |digits| != 1 then ['.'] + digits[1..] else []) + ExponentPart(exponent)
    }

    /** There is no leading zero in front of other digits. */
    predicate Leads(digits: seq<char>, decimalPoint: int) {
      decimalPoint <= 1 || (digits != [] && digits[0] != '0')
    }

    /** The digits that a decimal representation shows: with no place behind the point, none of a number below one. */
    ghost function Shown(digits: seq<char>, decimalPoint: int, digitsAfterPoint: nat): seq<char> {
      if decimalPoint <= 0 && digitsAfterPoint == 0 then [] else digits
    }

    ghost function ShownExponent(digits: seq<char>, decimalPoint: int, digitsAfterPoint: nat): int {
      if decimalPoint <= 0 && digitsAfterPoint == 0 then 0 else decimalPoint - |digits|
    }

    /** "0.00000decimal_rep" or "0.000decimal_rep00". */
    static method LayOutBelowOne(digits: seq<char>, decimalPoint: int, digitsAfterPoint: nat, builder: StringBuilder)
      returns (ghost fraction: seq<char>)
      requires decimalPoint <= 0 < digitsAfterPoint && |digits| <= digitsAfterPoint + decimalPoint
      requires builder.Valid() && builder.position + 2 + digitsAfterPoint < builder.buffer.Length
      modifies builder`position, builder.buffer
      ensures builder.Valid() && builder.Text() == old(builder.Text()) + Compose(['0'], true, fraction, [])
      ensures |fraction| == digitsAfterPoint
      ensures ['0'] + fraction ==
        Repeat('0', 1 - decimalPoint) + digits + Repeat('0', digitsAfterPoint + decimalPoint - |digits|)
    {
      hide Repeat, Compose;
      ghost var before := builder.Text();
      builder.AddCharacter('0');
      builder.AddCharacter('.');
      builder.AddPadding('0', -decimalPoint);
      builder.AddSubstring(digits);
      var remainingDigits := digitsAfterPoint - (-decimalPoint) - |digits|;
      builder.AddPadding('0', remainingDigits);
      fraction := Repeat('0', -decimalPoint) + digits + Repeat('0', remainingDigits);
      SmallLayout(-decimalPoint, digits, remainingDigits);
      assert builder.Text() == before + ['0'] + ['.'] + fraction;
      Composed(before, ['0'], fraction);
    }

    /** "decimal_rep0000.00000" or "decimal_rep.0000". */
    static method LayOutInteger(digits: seq<char>, decimalPoint: int, digitsAfterPoint: nat, builder: StringBuilder)
      returns (ghost whole: seq<char>)
      requires 0 < decimalPoint && |digits| <= decimalPoint && builder.Valid()
      requires builder.position + decimalPoint + (if digitsAfterPoint > 0 then 1 + digitsAfterPoint else 0)
        < builder.buffer.Length
      modifies builder`position, builder.buffer
      ensures builder.Valid() && |whole| == decimalPoint
      ensures builder.Text() == old(builder.Text()) +
        Compose(whole, digitsAfterPoint > 0, Repeat('0', digitsAfterPoint), [])
      ensures whole + Repeat('0', digitsAfterPoint) ==
        Repeat('0', 0) + digits + Repeat('0', decimalPoint - |digits| + digitsAfterPoint)
    {
      hide Repeat, Compose;
      ghost var before := builder.Text();
      builder.AddSubstring(digits);
      builder.AddPadding('0', decimalPoint - |digits|);
      whole := digits + Repeat('0', decimalPoint - |digits|);
      assert builder.Text() == before + whole;
      if digitsAfterPoint > 0 {
        builder.AddCharacter('.');
        builder.AddPadding('0', digitsAfterPoint);
      }
      RepeatMore('0', 0, 0);
      LargeLayout(digits, decimalPoint - |digits|, digitsAfterPoint);
      Composed(before, whole, Repeat('0', digitsAfterPoint));
    }

    /** "decima.l_rep000". */
    static method LayOutMixed(digits: seq<char>, decimalPoint: int, digitsAfterPoint: nat, builder: StringBuilder)
      returns (ghost fraction: seq<char>)
      requires 0 < decimalPoint < |digits| && |digits| - decimalPoint <= digitsAfterPoint
      requires builder.Valid() && builder.position + decimalPoint + 1 + digitsAfterPoint < builder.buffer.Length
      modifies builder`position, builder.buffer
      ensures builder.Valid() && |fraction| == digitsAfterPoint
      ensures builder.Text() == old(builder.Text()) + Compose(digits[..decimalPoint], true, fraction, [])
      ensures digits[..decimalPoint] + fraction ==
        Repeat('0', 0) + digits + Repeat('0', digitsAfterPoint + decimalPoint - |digits|)
    {
      hide Repeat, Compose;
      ghost var before := builder.Text();
      builder.AddSubstring(digits[..decimalPoint]);
      builder.AddCharacter('.');
      builder.AddSubstring(digits[decimalPoint..]);
      var remainingDigits := digitsAfterPoint - (|digits| - decimalPoint);
      builder.AddPadding('0', remainingDigits);
      fraction := digits[decimalPoint..] + Repeat('0', remainingDigits);
      MiddleLayout(digits, decimalPoint, remainingDigits);
      assert builder.Text() == before + digits[..decimalPoint] + ['.'] + fraction;
      Composed(before, digits[..decimalPoint], fraction);
    }

    /** The digits around the point, padded with zeros in front and back. */
    method LayOut(digits: seq<char>, decimalPoint: int, digitsAfterPoint: nat, builder: StringBuilder)
      returns (ghost whole: seq<char>, ghost fraction: seq<char>, ghost front: nat, ghost back: nat)
      requires decimalPoint <= 0 < digitsAfterPoint ==> |digits| <= digitsAfterPoint + decimalPoint
      requires 0 < decimalPoint < |digits| ==> |digits| - decimalPoint <= digitsAfterPoint
      requires builder.Valid() &&
        builder.position + DecimalLength(decimalPoint, digitsAfterPoint) < builder.buffer.Length
      modifies builder`position, builder.buffer
      ensures builder.Valid() &&
        builder.Text() == old(builder.Text()) + Compose(whole, digitsAfterPoint > 0, fraction, [])
      ensures |whole| == Max(1, decimalPoint) && |fraction| == digitsAfterPoint && (decimalPoint > 0 ==> front == 0)
      ensures whole + fraction ==
        Repeat('0', front) + Shown(digits, decimalPoint, digitsAfterPoint) + Repeat('0', back)
      ensures back - digitsAfterPoint == ShownExponent(digits, decimalPoint, digitsAfterPoint)
    {
      hide Repeat, Compose;
      ghost var before := builder.Text();
      whole, fraction, front, back := ['0'], [], 1, 0;
      if decimalPoint <= 0 {
        if digitsAfterPoint > 0 {
          fraction := LayOutBelowOne(digits, decimalPoint, digitsAfterPoint, builder);
          front, back := 1 - decimalPoint, digitsAfterPoint + decimalPoint - |digits|;
        } else {
          builder.AddCharacter('0');
          RepeatMore('0', 1, 0);
          Composed(before, ['0'], []);
        }
      } else if decimalPoint >= |digits| {
        whole := LayOutInteger(digits, decimalPoint, digitsAfterPoint, builder);
        fraction, front, back := Repeat('0', digitsAfterPoint), 0, decimalPoint - |digits| + digitsAfterPoint;
      } else {
        fraction := LayOutMixed(digits, decimalPoint, digitsAfterPoint, builder);
        whole, front, back := digits[..decimalPoint], 0, digitsAfterPoint + decimalPoint - |digits|;
      }
    }

    /** The digits with the point at decimalPoint and digitsAfterPoint places behind it. */
    method CreateDecimalRepresentation(digits: seq<char>, decimalPoint: int,
                                       digitsAfterPoint: nat, builder: StringBuilder)
      returns (ghost text: seq<char>)
      requires Valid() && AllDigits(digits)
      requires decimalPoint <= 0 < digitsAfterPoint ==> |digits| <= digitsAfterPoint + decimalPoint
      requires 0 < decimalPoint < |digits| ==> |digits| - decimalPoint <= digitsAfterPoint
      requires builder.Valid() &&
        builder.position + DecimalLength(decimalPoint, digitsAfterPoint) < builder.buffer.Length
      modifies builder`position, builder.buffer
      ensures builder.Valid() && builder.Text() == old(builder.Text()) + text
      ensures |text| == DecimalLength(decimalPoint, digitsAfterPoint)
      ensures Denotes(text, DigitsVal(Shown(digits, decimalPoint, digitsAfterPoint)),
                      ShownExponent(digits, decimalPoint, digitsAfterPoint))
      ensures 0 <= digitsAfterPoint + ShownExponent(digits, decimalPoint, digitsAfterPoint)
      ensures Denotes(text, DigitsVal(Shown(digits, decimalPoint, digitsAfterPoint)) *
                            Pow(10, digitsAfterPoint + ShownExponent(digits, decimalPoint, digitsAfterPoint)),
                      0 - digitsAfterPoint)
      ensures Leads(digits, decimalPoint) ==>
        var n := DigitsVal(Shown(digits, decimalPoint, digitsAfterPoint)) *
                 Pow(10, digitsAfterPoint + ShownExponent(digits, decimalPoint, digitsAfterPoint));
        0 <= n && text == DecimalText(n, digitsAfterPoint)
    {
      hide Denotes, DigitsVal, Pow, ParseExponent, Shown, ShownExponent, Leads, DecimalNotation;
      ghost var before := builder.Text();
      ghost var shown := Shown(digits, decimalPoint, digitsAfterPoint);
      ghost var whole, fraction, front, back := LayOut(digits, decimalPoint, digitsAfterPoint, builder);
      ghost var point := digitsAfterPoint > 0;
      if Leads(digits, decimalPoint) {
        IsNotation(digits, decimalPoint, digitsAfterPoint, whole, fraction, front, back);
      }
      if digitsAfterPoint == 0 {
        if emitTrailingDecimalPoint {
          builder.AddCharacter('.');
          point := true;
        }
        if emitTrailingZeroAfterPoint {
          builder.AddCharacter('0');
          OneMoreZero(whole, front, shown, back);
          fraction, back := ['0'], back + 1;
        }
      }
      text := Compose(whole, point, fraction, []);
      assert builder.Text() == before + text;
      ShownDigits(digits, decimalPoint, digitsAfterPoint);
      LaidOut(front, shown, back, whole, point, fraction, |fraction| - digitsAfterPoint);
    }

    /** What was laid out, before any trailing zero is added, is the decimal notation of its number. */
    lemma IsNotation(digits: seq<char>, decimalPoint: int, places: nat, whole: seq<char>, fraction: seq<char>,
                       front: nat, back: nat)
      requires AllDigits(digits) && Leads(digits, decimalPoint)
      requires |whole| == Max(1, decimalPoint) && |fraction| == places && (decimalPoint > 0 ==> front == 0)
      requires whole + fraction == Repeat('0', front) + Shown(digits, decimalPoint, places) + Repeat('0', back)
      ensures var n := DigitsVal(Shown(digits, decimalPoint, places)) * Pow(10, back);
        0 <= n && DecimalNotation(n, places) == whole + if places > 0 then ['.'] + fraction else []
    {
      hide DigitsVal, Pow, DecimalNotation;
      ShownDigits(digits, decimalPoint, places);
      PaddedDigits(front, Shown(digits, decimalPoint, places), back);
      var all := whole + fraction;
      assert whole == all[..|whole|] && fraction == all[|whole|..];
      if decimalPoint > 1 {
        assert all[0] == digits[0];
      }
      WholeAndFraction(whole, fraction);
    }

    lemma ShownDigits(digits: seq<char>, decimalPoint: int, digitsAfterPoint: nat)
      requires AllDigits(digits)
      ensures AllDigits(Shown(digits, decimalPoint, digitsAfterPoint))
    {
    }

    // ---- Exponential notation

    /** The decimal digits of the exponent. */
    static method AddExponent(exponent: nat, builder: StringBuilder) returns (ghost digits: seq<char>)
      requires exponent < 10000 && builder.Valid() && builder.position + 5 < builder.buffer.Length
      modifies builder`position, builder.buffer
      ensures builder.Valid() && builder.Text() == old(builder.Text()) + digits
      ensures AllDigits(digits) && digits != [] && |digits| <= 5 && DigitsVal(digits) == exponent
      ensures digits == Numeral(exponent) && (exponent < 1000 ==> |digits| <= 3)
    {
      hide DigitsVal, Pow, AllDigits, ExponentLeft;
      if exponent == 0 {
        builder.AddCharacter('0');
        digits := ['0'];
        ZeroExponent();
        PlainIsNumeral(digits);
        return;
      }
      var buffer := new char[6];
      buffer[5] := '\0';
      var firstCharPos, rest := 5, exponent;
      assert buffer[5..5] == [];
      NothingWritten(exponent);
      while rest > 0
        invariant 1 <= firstCharPos <= 5 && 0 <= rest && (firstCharPos < 5 || rest > 0)
        invariant ExponentLeft(exponent, rest, buffer[firstCharPos..5])
        invariant rest == 0 ==> buffer[firstCharPos] != '0'
        invariant builder.Valid() && builder.Text() == old(builder.Text())
        invariant fresh(buffer)
      {
        ghost var s := buffer[firstCharPos..5];
        NextExponentDigit(exponent, rest, s);
        firstCharPos := firstCharPos - 1;
        buffer[firstCharPos] := CharOf(rest % 10);
        assert buffer[firstCharPos..5] == [CharOf(rest % 10)] + s;
        rest := rest / 10;
      }
      digits := buffer[firstCharPos..5];
      AllWritten(exponent, digits);
      PlainIsNumeral(digits);
      builder.AddSubstring(buffer[firstCharPos..5]);
    }

    /** The exponent character, the sign and the digits. */
    method AddExponentPart(exponent: int, builder: StringBuilder) returns (ghost part: seq<char>)
      requires Valid() && -10000 < exponent < 10000 && builder.Valid() && builder.position + 7 < builder.buffer.Length
      modifies builder`position, builder.buffer
      ensures builder.Valid() && builder.Text() == old(builder.Text()) + part && part == ExponentPart(exponent)
      ensures ParseExponent(part, 0) == Some(exponent) && |part| <= 7
      ensures -1000 < exponent < 1000 ==> |part| <= 5
    {
      hide DigitsVal, ParseExponent, AllDigits;
      ghost var before := builder.Text();
      builder.AddCharacter(exponentCharacter);
      ghost var sign := [];
      if exponent < 0 {
        builder.AddCharacter('-');
        sign := ['-'];
      } else if emitPositiveExponentSign {
        builder.AddCharacter('+');
        sign := ['+'];
      }
      ghost var digits := AddExponent(Abs(exponent), builder);
      part := [exponentCharacter] + sign + digits;
      assert builder.Text() == before + part;
      ExponentText(exponentCharacter, sign, digits);
    }

    /** One digit before the point, the others behind it, and the exponent. */
    method CreateExponentialRepresentation(digits: seq<char>, exponent: int, builder: StringBuilder)
      returns (ghost text: seq<char>)
      requires Valid() && AllDigits(digits) && digits != [] && -10000 < exponent < 10000
      requires builder.Valid() && builder.position + |digits| + 8 < builder.buffer.Length
      modifies builder`position, builder.buffer
      ensures builder.Valid() && builder.Text() == old(builder.Text()) + text
      ensures text == ExponentialText(digits, exponent)
      ensures Denotes(text, DigitsVal(digits), exponent + 1 - |digits|) && |text| <= |digits| + 8
      ensures -1000 < exponent < 1000 ==> |text| <= |digits| + 6
    {
      hide Denotes, DigitsVal, ParseExponent, Compose;
      ghost var before := builder.Text();
      assert IsDigit(digits[0]);
      builder.AddCharacter(digits[0]);
      if |digits| != 1 {
        builder.AddCharacter('.');
        builder.AddSubstring(digits[1..]);
      }
      ghost var mantissa := builder.Text();
      ghost var part := AddExponentPart(exponent, builder);
      text := Compose(digits[..1], |digits| != 1, digits[1..], part);
      ExponentialComposed(before, digits, mantissa, part);
      assert |builder.Text()| == |before| + |text|;
      ExponentialDenotes(digits, part, exponent);
    }

    /** Decimal or exponential notation, as the size of the number asks for. */
    method AddDigits(digits: seq<char>, decimalPoint: int, builder: StringBuilder) returns (ghost text: seq<char>)
      requires Valid() && AllDigits(digits) && 0 < |digits| <= 17 && -324 < decimalPoint < 326 && builder.Valid()
      requires Leads(digits, decimalPoint)
      requires builder.position + 29 + Max(0, Max(-decimalInShortestLow, decimalInShortestHigh)) < builder.buffer.Length
      modifies builder`position, builder.buffer
      ensures builder.Valid() && builder.Text() == old(builder.Text()) + text
      ensures Denotes(text, DigitsVal(digits), decimalPoint - |digits|)
      ensures if decimalInShortestLow <= decimalPoint - 1 < decimalInShortestHigh
        then |text| == DecimalLength(decimalPoint, Max(0, |digits| - decimalPoint)) &&
          IsDecimalText(text, digits, decimalPoint)
        else |text| <= |digits| + 8 && text == ExponentialText(digits, decimalPoint - 1)
    {
      hide Denotes, DigitsVal, Pow;
      var exponent := decimalPoint - 1;
      if decimalInShortestLow <= exponent < decimalInShortestHigh {
        text := CreateDecimalRepresentation(digits, decimalPoint, Max(0, |digits| - decimalPoint), builder);
      } else {
        text := CreateExponentialRepresentation(digits, exponent, builder);
      }
    }

    /** The shortest digits of d in the notation its size asks for; the text reads back as d. */
    method ToShortestIeeeNumber(negative: bool, d: nat, noise: Noise, builder: StringBuilder)
      returns (ghost body: seq<char>, ghost digits: seq<char>, ghost decimalPoint: int)
      requires Valid() && IsFinite(d) && noise.IsSmall() && builder.Valid()
      requires builder.position + 30 + Max(0, Max(-decimalInShortestLow, decimalInShortestHigh)) < builder.buffer.Length
      modifies builder`position, builder.buffer
      ensures builder.Valid() && builder.Text() == old(builder.Text()) + (SignText(negative, d) + body)
      ensures PrintedAs(SignText(negative, d) + body, SignText(negative, d) == ['-'], d) && digits != []
      ensures if d == 0 then digits == ['0'] && decimalPoint == 1 else IsShortestOutput(d, digits, decimalPoint)
      ensures if decimalInShortestLow <= decimalPoint - 1 < decimalInShortestHigh
        then |body| == DecimalLength(decimalPoint, Max(0, |digits| - decimalPoint)) &&
          IsDecimalText(body, digits, decimalPoint)
        else |body| <= |digits| + 8 && body == ExponentialText(digits, decimalPoint - 1)
    {
      hide Denotes, DigitsVal, IsShortestOutput, PrintedAs, ReadsAs, DecimalLength, IsDecimalText, ExponentialText;
      var decimalRep := new char[18];
      var length, point := DoubleToAscii(d, SHORTEST, 0, noise, decimalRep);
      var rep := decimalRep[..length];
      digits, decimalPoint := rep, point;
      DigitsRead(d, rep, point);
      ghost var before := builder.Text();
      AddSign(negative, d, builder);
      body := AddDigits(rep, point, builder);
      DenotedIsPrinted(body, SignText(negative, d) == ['-'], DigitsVal(rep), point - length, d);
      SignInFront(before, SignText(negative, d), body);
    }

    method AddSign(negative: bool, d: nat, builder: StringBuilder)
      requires builder.Valid() && builder.position < builder.buffer.Length
      modifies builder`position, builder.buffer
      ensures builder.Valid() && builder.Text() == old(builder.Text()) + SignText(negative, d)
    {
      if negative && (d != 0 || !uniqueZero) {
        builder.AddCharacter('-');
      } else {
        assert builder.Text() == builder.Text() + [];
      }
    }

    // ---- Fixed, exponential and precision mode

    /** Fixed notation: the number rounded half up to the requested places. */
    method ToFixed(negative: bool, d: nat, requestedDigits: nat, noise: Noise, builder: StringBuilder)
      returns (ok: bool, ghost body: seq<char>)
      requires Valid() && IsFinite(d) && noise.IsSmall() && builder.Valid()
      requires builder.position + 124 < builder.buffer.Length
      modifies builder`position, builder.buffer
      ensures ok <==> requestedDigits <= MAX_FIXED_DIGITS_AFTER_POINT && d < FIRST_NON_FIXED
      ensures builder.Valid()
      ensures builder.Text() == old(builder.Text()) + if ok then SignText(negative, d) + body else []
      ensures ok ==>
        Denotes(body, ExactDtoa.RoundV(Significand(d), Exponent(d), requestedDigits), 0 - requestedDigits)
      ensures ok ==>
        var n := ExactDtoa.RoundV(Significand(d), Exponent(d), requestedDigits);
        0 <= n && body == DecimalText(n, requestedDigits)
      ensures ok ==>
        |SignText(negative, d) + body| <= 1 + MAX_FIXED_DIGITS_BEFORE_POINT + 1 + MAX_FIXED_DIGITS_AFTER_POINT
    {
      hide Denotes, DigitsVal, Pow, ExactDtoa.RoundV, ExactDtoa.LeadingAt, FastFixed.Denotes, BelowSixty,
        Shown, ShownExponent, DecimalText;
      body := [];
      if requestedDigits > MAX_FIXED_DIGITS_AFTER_POINT || d >= FIRST_NON_FIXED {
        assert builder.Text() == builder.Text() + [];
        return false, body;
      }
      var decimalRep := new char[MAX_FIXED_DIGITS_BEFORE_POINT + MAX_FIXED_DIGITS_AFTER_POINT + 1];
      FixedHasRoom(d, requestedDigits);
      var length, point := DoubleToAscii(d, FIXED, requestedDigits, noise, decimalRep);
      var rep := decimalRep[..length];
      FixedRep(d, requestedDigits, rep, point);
      ghost var before := builder.Text();
      AddSign(negative, d, builder);
      body := CreateDecimalRepresentation(rep, point, requestedDigits, builder);
      FixedValue(d, requestedDigits, rep, point);
      SignInFront(before, SignText(negative, d), body);
      ok := true;
    }

    /** What was shown is the rounded number. */
    lemma FixedValue(d: nat, places: nat, digits: seq<char>, decimalPoint: int)
      requires IsAscii(d, FIXED, places, digits, decimalPoint)
      ensures var e := places + ShownExponent(digits, decimalPoint, places);
        0 <= e && DigitsVal(Shown(digits, decimalPoint, places)) * Pow(10, e) ==
          ExactDtoa.RoundV(Significand(d), Exponent(d), places)
    {
      hide Pow, ExactDtoa.RoundV;
      if d == 0 {
        ZeroRounds(places);
        NoDigits();
        OneDigit('0');
      } else if decimalPoint <= 0 && places == 0 {
        assert digits == [];
        NoDigits();
      }
    }

    /** Fill the buffer with zeros: the digits of zero are fewer than asked for. */
    static method FillZeros(decimalRep: array<char>, length: nat, count: nat, d: nat, point: int)
      requires length <= count <= decimalRep.Length && 0 < count && IsFinite(d)
      requires IsAscii(d, PRECISION, count, decimalRep[..length], point)
      modifies decimalRep
      ensures IsRounded(d, decimalRep[..count], point) && AllDigits(decimalRep[..count])
      ensures d != 0 ==> decimalRep[..count] == old(decimalRep[..length])
      ensures -1000 < point - 1 < 1000
    {
      hide DigitsVal, ExactDtoa.PrecisionAt;
      var i := length;
      PrecisionRep(d, count, decimalRep[..length], point);
      NoDigits();
      OneDigit('0');
      while i < count
        invariant length <= i <= count && decimalRep[..length] == old(decimalRep[..length])
        invariant AllDigits(decimalRep[..i]) && (d == 0 ==> DigitsVal(decimalRep[..i]) == 0)
      {
        ghost var s := decimalRep[..i];
        decimalRep[i] := '0';
        assert decimalRep[..i + 1] == s + ['0'];
        DigitsAppend(s, '0');
        i := i + 1;
      }
      RoundedInRange(d, decimalRep[..count], point);
    }

    /** The shortest digits, or as many as requested behind the first one. */
    static method ExponentialDigits(d: nat, requestedDigits: int, noise: Noise, decimalRep: array<char>)
      returns (length: nat, point: int)
      requires IsFinite(d) && noise.IsSmall() && -1 <= requestedDigits <= MAX_EXPONENTIAL_DIGITS
      requires decimalRep.Length == MAX_EXPONENTIAL_DIGITS + 2
      modifies decimalRep
      ensures 0 < length < decimalRep.Length && AllDigits(decimalRep[..length]) && -1000 < point - 1 < 1000
      ensures if requestedDigits == -1 then IsAscii(d, SHORTEST, 0, decimalRep[..length], point)
        else length == requestedDigits + 1 && IsRounded(d, decimalRep[..length], point)
      ensures requestedDigits == -1 || requestedDigits >= 16 ==>
        forall c: nat :: IsDouble(c) ==> (ReadsAs(DigitsVal(decimalRep[..length]), point - length, c) <==> c == d)
    {
      hide DigitsVal, ExactDtoa.PrecisionAt, IsShortestOutput, ReadsAs, IsRounded;
      if requestedDigits == -1 {
        length, point := DoubleToAscii(d, SHORTEST, 0, noise, decimalRep);
        DigitsRead(d, decimalRep[..length], point);
      } else {
        length, point := DoubleToAscii(d, PRECISION, requestedDigits + 1, noise, decimalRep);
        FillZeros(decimalRep, length, requestedDigits + 1, d, point);
        length := requestedDigits + 1;
        if requestedDigits >= 16 { RoundedReads(d, decimalRep[..length], point); }
      }
    }

    /** Exponential notation with the requested digits behind the point, or the shortest one for -1. */
    method ToExponential(negative: bool, d: nat, requestedDigits: int, noise: Noise, builder: StringBuilder)
      returns (ok: bool, ghost body: seq<char>, ghost digits: seq<char>, ghost decimalPoint: int)
      requires Valid() && IsFinite(d) && noise.IsSmall() && builder.Valid()
      requires builder.position + 131 < builder.buffer.Length
      modifies builder`position, builder.buffer
      ensures ok <==> -1 <= requestedDigits <= MAX_EXPONENTIAL_DIGITS
      ensures builder.Valid()
      ensures builder.Text() == old(builder.Text()) + if ok then SignText(negative, d) + body else []
      ensures ok ==> digits != [] && body == ExponentialText(digits, decimalPoint - 1)
      ensures ok ==> Denotes(body, DigitsVal(digits), decimalPoint - |digits|)
      ensures ok ==> |SignText(negative, d) + body| <= MAX_EXPONENTIAL_DIGITS + 8
      ensures ok && requestedDigits == -1 ==> IsAscii(d, SHORTEST, 0, digits, decimalPoint)
      ensures ok && requestedDigits >= 0 ==> |digits| == requestedDigits + 1 && IsRounded(d, digits, decimalPoint)
      ensures ok && (requestedDigits == -1 || requestedDigits >= 16) ==>
        PrintedAs(SignText(negative, d) + body, SignText(negative, d) == ['-'], d)
    {
      hide Denotes, DigitsVal, IsRounded, PrintedAs, ReadsAs, IsShortestOutput, ExponentialText;
      body, digits, decimalPoint := [], [], 0;
      if requestedDigits < -1 || requestedDigits > MAX_EXPONENTIAL_DIGITS {
        assert builder.Text() == builder.Text() + [];
        return false, body, digits, decimalPoint;
      }
      var decimalRep := new char[MAX_EXPONENTIAL_DIGITS + 2];
      var length, point := ExponentialDigits(d, requestedDigits, noise, decimalRep);
      var rep := decimalRep[..length];
      digits, decimalPoint := rep, point;
      ghost var before := builder.Text();
      AddSign(negative, d, builder);
      body := CreateExponentialRepresentation(rep, point - 1, builder);
      if requestedDigits == -1 || requestedDigits >= 16 {
        DenotedIsPrinted(body, SignText(negative, d) == ['-'], DigitsVal(rep), point - length, d);
      }
      SignInFront(before, SignText(negative, d), body);
      ok := true;
    }

    /** Whether precision mode pads with too many zeros in decimal notation. */
    predicate NeedsExponent(decimalPoint: int, precision: int) {
      -decimalPoint + 1 > maxLeadingPaddingZeroesInPrecisionMode ||
      decimalPoint - precision + (if emitTrailingZeroAfterPoint then 1 else 0) > maxTrailingPaddingZeroesInPrecisionMode
    }

    /** Precision mode in decimal notation. */
    method AddPrecision(d: nat, rep: seq<char>, point: int, precision: nat, builder: StringBuilder)
      returns (ghost body: seq<char>, ghost digits: seq<char>)
      requires Valid() && 0 < precision && IsAscii(d, PRECISION, precision, rep, point)
      requires builder.Valid() &&
        builder.position + DecimalLength(point, Max(0, precision - point)) < builder.buffer.Length
      modifies builder`position, builder.buffer
      ensures builder.Valid() && builder.Text() == old(builder.Text()) + body
      ensures |digits| == precision && IsRounded(d, digits, point)
      ensures Denotes(body, DigitsVal(digits), point - precision) && IsDecimalText(body, digits, point)
      ensures |body| == DecimalLength(point, Max(0, precision - point))
    {
      hide Denotes, DigitsVal, Pow, ExactDtoa.PrecisionAt, IsRounded, Shown, ShownExponent, DecimalText;
      PrecisionRep(d, precision, rep, point);
      body := CreateDecimalRepresentation(rep, point, Max(0, precision - point), builder);
      digits := rep + Repeat('0', precision - |rep|);
      DecimalValue(d, precision, rep, point, body);
      PrecisionText(d, precision, rep, point, body);
    }

    /** Precision mode in exponential notation. */
    method AddExponential(d: nat, decimalRep: array<char>, length: nat, point: int, precision: nat,
                          builder: StringBuilder)
      returns (ghost body: seq<char>, ghost digits: seq<char>)
      requires Valid() && IsFinite(d) && length <= precision <= decimalRep.Length && 0 < precision
      requires IsAscii(d, PRECISION, precision, decimalRep[..length], point)
      requires decimalRep != builder.buffer && builder.Valid()
      requires builder.position + precision + 8 < builder.buffer.Length
      modifies decimalRep, builder`position, builder.buffer
      ensures builder.Valid() && builder.Text() == old(builder.Text()) + body
      ensures |digits| == precision && IsRounded(d, digits, point)
      ensures Denotes(body, DigitsVal(digits), point - precision) && |body| <= precision + 6
      ensures body == ExponentialText(digits, point - 1)
    {
      hide Denotes, DigitsVal, IsRounded, IsAscii;
      FillZeros(decimalRep, length, precision, d, point);
      digits := decimalRep[..precision];
      body := CreateExponentialRepresentation(decimalRep[..precision], point - 1, builder);
    }

    /** The digits of precision mode, in decimal notation unless that takes too many zeros. */
    method ToPrecision(negative: bool, d: nat, precision: int, noise: Noise, builder: StringBuilder)
      returns (ok: bool, ghost body: seq<char>, ghost digits: seq<char>, ghost decimalPoint: int)
      requires Valid() && IsFinite(d) && noise.IsSmall() && builder.Valid()
      requires builder.position + 132 + Max(0, maxLeadingPaddingZeroesInPrecisionMode) +
        Max(0, maxTrailingPaddingZeroesInPrecisionMode) < builder.buffer.Length
      modifies builder`position, builder.buffer
      ensures ok <==> MIN_PRECISION_DIGITS <= precision <= MAX_PRECISION_DIGITS
      ensures builder.Valid()
      ensures builder.Text() == old(builder.Text()) + if ok then SignText(negative, d) + body else []
      ensures ok ==> |digits| == precision && IsRounded(d, digits, decimalPoint)
      ensures ok ==> Denotes(body, DigitsVal(digits), decimalPoint - precision)
      ensures ok && precision >= 17 ==> PrintedAs(SignText(negative, d) + body, SignText(negative, d) == ['-'], d)
      ensures ok ==> HasLength(body, decimalPoint, precision)
      ensures ok ==> if NeedsExponent(decimalPoint, precision) then body == ExponentialText(digits, decimalPoint - 1)
        else IsDecimalText(body, digits, decimalPoint)
    {
      hide Denotes, DigitsVal, Pow, PrintedAs, ReadsAs, IsRounded, IsAscii, IsDecimalText, ExponentialText;
      body, digits, decimalPoint := [], [], 0;
      if precision < MIN_PRECISION_DIGITS || precision > MAX_PRECISION_DIGITS {
        assert builder.Text() == builder.Text() + [];
        return false, body, digits, decimalPoint;
      }
      var decimalRep := new char[MAX_PRECISION_DIGITS + 1];
      var length, point := DoubleToAscii(d, PRECISION, precision, noise, decimalRep);
      PrecisionRep(d, precision, decimalRep[..length], point);
      ghost var before := builder.Text();
      AddSign(negative, d, builder);
      decimalPoint := point;
      if NeedsExponent(point, precision) {
        body, digits := AddExponential(d, decimalRep, length, point, precision, builder);
      } else {
        body, digits := AddPrecision(d, decimalRep[..length], point, precision, builder);
      }
      if precision >= 17 {
        RoundedReads(d, digits, point);
        DenotedIsPrinted(body, SignText(negative, d) == ['-'], DigitsVal(digits), point - precision, d);
      }
      SignInFront(before, SignText(negative, d), body);
      ok := true;
    }

    /** The digits with the zeros that decimal notation writes around them. */
    function Padded(digits: seq<char>, decimalPoint: int): seq<char> {
      Repeat('0', Max(0, 1 - decimalPoint)) + digits +
      Repeat('0', Max(0, decimalPoint - |digits|) +
                  if |digits| <= decimalPoint && emitTrailingZeroAfterPoint then 1 else 0)
    }

    /** What the decimal notation of digits looks like, its point aside; and precision mode takes the exponential one
        exactly if the zeros in front of the digits, or those behind them, are more than the limits. */
    lemma PaddingZeros(text: seq<char>, digits: seq<char>, decimalPoint: int)
      requires Valid() && AllDigits(digits) && digits != [] && digits[0] != '0'
      requires IsDecimalText(text, digits, decimalPoint)
      ensures WithoutPoint(text) == Padded(digits, decimalPoint)
      ensures 0 <= maxLeadingPaddingZeroesInPrecisionMode && 0 <= maxTrailingPaddingZeroesInPrecisionMode ==>
        (NeedsExponent(decimalPoint, |digits|) <==>
         Max(0, 1 - decimalPoint) > maxLeadingPaddingZeroesInPrecisionMode ||
         |Padded(digits, decimalPoint)| - |digits| - Max(0, 1 - decimalPoint) > maxTrailingPaddingZeroesInPrecisionMode)
    {
      hide DigitsVal, Pow, DecimalNotation, WithoutPoint, WholePart, FractionPart, Repeat;
      var whole, fraction := WholePart(digits, decimalPoint), FractionPart(digits, decimalPoint);
      var front, back := Max(0, 1 - decimalPoint), Max(0, decimalPoint - |digits|);
      PartsOf(digits, decimalPoint);
      PartsAreNotation(whole, fraction, front, digits, back);
      if fraction == [] {
        var extra := if emitTrailingZeroAfterPoint then ['0'] else [];
        NoPointIn(whole, extra);
        assert text == whole + (if emitTrailingDecimalPoint then ['.'] + extra else extra);
        if extra != [] { OneMoreZero(whole, front, digits, back); } else { assert whole + [] == whole; }
      } else {
        NoPointIn(whole, fraction);
        assert text == whole + (['.'] + fraction);
      }
    }

    /** How many characters ToPrecision adds for these digits. */
    ghost predicate HasLength(body: seq<char>, decimalPoint: int, precision: nat) {
      if NeedsExponent(decimalPoint, precision) then |body| <= precision + 6
      else |body| == DecimalLength(decimalPoint, Max(0, precision - decimalPoint))
    }

    /** With up to six zeros in front, a text is longer than the digits and seven characters for a negative number
        of that many zeros, and for no other. */
    lemma PrecisionLength(negative: bool, d: nat, body: seq<char>, decimalPoint: int, precision: nat)
      requires Valid() && HasLength(body, decimalPoint, precision)
      requires maxLeadingPaddingZeroesInPrecisionMode == 6 && maxTrailingPaddingZeroesInPrecisionMode == 0
      ensures |SignText(negative, d) + body| > precision + 7 <==> SignText(negative, d) != [] && decimalPoint == -5
    {
    }

    /** -2^-19 with 120 digits takes 128 characters. */
    lemma LongestPrecision(body: seq<char>, digits: seq<char>, decimalPoint: int)
      requires Valid() && maxLeadingPaddingZeroesInPrecisionMode == 6 && maxTrailingPaddingZeroesInPrecisionMode == 0
      requires |digits| == 120 && IsRounded(0x3ec0_0000_0000_0000, digits, decimalPoint)
      requires HasLength(body, decimalPoint, 120)
      ensures |SignText(true, 0x3ec0_0000_0000_0000) + body| == MAX_PRECISION_DIGITS + 8
    {
      hide IsRounded;
      TwoToMinus19(digits, decimalPoint);
    }

    /** With the digits filled up, the text is their decimal notation. */
    lemma PrecisionText(d: nat, precision: int, rep: seq<char>, point: int, body: seq<char>)
      requires 0 < precision && IsAscii(d, PRECISION, precision, rep, point) && |rep| <= precision
      requires var places := Max(0, precision - point);
        0 <= places + ShownExponent(rep, point, places) &&
        var n := DigitsVal(Shown(rep, point, places)) * Pow(10, places + ShownExponent(rep, point, places));
        0 <= n && body == DecimalText(n, places)
      ensures IsDecimalText(body, rep + Repeat('0', precision - |rep|), point)
    {
      hide DigitsVal, Pow, ExactDtoa.PrecisionAt, DecimalText;
      PrecisionRep(d, precision, rep, point);
      PaddedDigits(0, rep, precision - |rep|);
      RepeatMore('0', 0, 0);
      assert [] + rep == rep;
      var places := Max(0, precision - point);
      assert Shown(rep, point, places) == rep && ShownExponent(rep, point, places) == point - |rep|;
      if d == 0 {
        NoDigits();
        OneDigit('0');
      } else {
        assert rep + Repeat('0', precision - |rep|) == rep;
        assert places + (point - |rep|) == Max(0, point - precision);
      }
    }

    /** In decimal notation the digits of zero are not filled up, but the places are. */
    lemma DecimalValue(d: nat, precision: int, rep: seq<char>, point: int, body: seq<char>)
      requires 0 < precision && IsAscii(d, PRECISION, precision, rep, point)
      requires var places := Max(0, precision - point);
        0 <= places + ShownExponent(rep, point, places) &&
        Denotes(body, DigitsVal(Shown(rep, point, places)), ShownExponent(rep, point, places)) &&
        Denotes(body, DigitsVal(Shown(rep, point, places)) * Pow(10, places + ShownExponent(rep, point, places)),
                0 - places)
      ensures |rep| <= precision
      ensures IsRounded(d, rep + Repeat('0', precision - |rep|), point)
      ensures Denotes(body, DigitsVal(rep + Repeat('0', precision - |rep|)), point - precision)
    {
      hide Denotes, DigitsVal, Pow, ExactDtoa.PrecisionAt;
      PrecisionRep(d, precision, rep, point);
      PaddedDigits(0, rep, precision - |rep|);
      RepeatMore('0', 0, 0);
      assert [] + rep == rep;
      assert Shown(rep, point, Max(0, precision - point)) == rep;
      if d == 0 {
        NoDigits();
        OneDigit('0');
      } else {
        assert rep + Repeat('0', 0) == rep;
      }
    }
  }

  const MAX_FIXED_DIGITS_BEFORE_POINT := 60
  const MAX_FIXED_DIGITS_AFTER_POINT := 60
  const MAX_EXPONENTIAL_DIGITS := 120
  const MIN_PRECISION_DIGITS := 1
  const MAX_PRECISION_DIGITS := 120

  lemma SignInFront(before: seq<char>, sign: seq<char>, body: seq<char>)
    ensures before + sign + body == before + (sign + body)
  {
  }

  lemma FixedHasRoom(d: nat, places: nat)
    requires d < FIRST_NON_FIXED && places <= MAX_FIXED_DIGITS_AFTER_POINT
    ensures 0 < d ==> BelowSixty(Significand(d), Exponent(d))
    ensures HasRoom(d, FIXED, places, MAX_FIXED_DIGITS_BEFORE_POINT + MAX_FIXED_DIGITS_AFTER_POINT + 1)
  {
    hide ExactDtoa.LeadingAt, BelowSixty;
    if 0 < d {
      FixedIsBelowSixty(d);
      forall point | ExactDtoa.LeadingAt(Significand(d), Exponent(d), point)
        ensures point <= MAX_FIXED_DIGITS_BEFORE_POINT
      {
        LeadingBelowSixty(Significand(d), Exponent(d), point);
      }
    } else {
      ZeroLeadsNowhere();
    }
  }

  lemma ZeroLeadsNowhere()
    ensures Significand(0) == 0 && forall point :: !ExactDtoa.LeadingAt(0, Exponent(0), point)
  {
  }

  lemma ZeroRounds(places: nat)
    ensures ExactDtoa.RoundV(Significand(0), Exponent(0), places) == 0
  {
    hide StartValues.Den;
    CountedDtoa.RoundHalfUpIs(0, StartValues.Den(Exponent(0), 0 - places), 0, 0);
  }

  lemma PrecisionRep(d: nat, precision: nat, digits: seq<char>, decimalPoint: int)
    requires 0 < precision && IsAscii(d, PRECISION, precision, digits, decimalPoint)
    ensures AllDigits(digits) && 0 < |digits| <= precision && (decimalPoint <= 1 || digits[0] != '0')
  {
  }

  /** What the layout of fixed notation needs to know. */
  lemma FixedRep(d: nat, places: nat, digits: seq<char>, decimalPoint: int)
    requires IsAscii(d, FIXED, places, digits, decimalPoint)
    requires 0 < d ==> BelowSixty(Significand(d), Exponent(d))
    ensures AllDigits(digits) && 0 <= decimalPoint - |digits| + places && decimalPoint <= MAX_FIXED_DIGITS_BEFORE_POINT
    ensures decimalPoint <= 1 || (digits != [] && digits[0] != '0')
  {
    hide DigitsVal, Pow, ExactDtoa.RoundV, BelowSixty;
    if 0 < d && digits != [] { FixedPoint(Significand(d), Exponent(d), places, digits, decimalPoint); }
  }

  // ---- Printing and reading

  /** The reader reads any decimal or exponential representation as the double nearest to the number written. */
  lemma DenotedReads(sign: seq<char>, text: seq<char>, n: int, e: int, r: StringToDouble.Reading)
    requires Denotes(text, n, e) && IsSignText(sign) && StringToDouble.IsReading(sign + text, r)
    ensures r.Number? && r.negative == (sign == ['-']) && IsDouble(r.d) && ReadsAs(n, e, r.d)
  {
    hide ReadsAs, ParseLiteral, Literal.Reads, Literal.Is;
    assert DenotesBehind(sign, text, n, e);
    NothingIsNoLiteral();
    ParseLiteral(sign + text).value.ReadsAsNumber(n, e, r.d);
  }

  lemma NothingIsNoLiteral()
    ensures ParseLiteral([]) == None
  {
  }

  /** What ToShortestIeeeNumber prints for a double, StringToIeee reads as that double. */
  lemma PrintedReadsBack(text: seq<char>, negative: bool, d: nat, r: StringToDouble.Reading)
    requires PrintedAs(text, negative, d) && StringToDouble.IsReading(text, r)
    ensures r == StringToDouble.Number(negative, d)
  {
  }

  /** Any finite double, printed and read. */
  method PrintAndRead(converter: DoubleToStringConverter, negative: bool, d: nat, noise: Noise,
                      machine: ExactDoubles.Machine, buffer: array<char>)
    returns (r: StringToDouble.Reading)
    requires converter.Valid() && IsFinite(d) && noise.IsSmall() && machine.IsIeee()
    requires 30 + Max(0, Max(-converter.decimalInShortestLow, converter.decimalInShortestHigh)) < buffer.Length
    requires buffer.Length <= 0x1fff_ffff
    modifies buffer
    ensures r == StringToDouble.Number(negative && (d != 0 || !converter.uniqueZero), d)
  {
    hide PrintedAs, StringToDouble.IsReading, ExactDoubles.Machine.IsIeee, IsShortestOutput,
      DoubleToStringConverter.IsDecimalText, DoubleToStringConverter.ExponentialText,
      DoubleToStringConverter.DecimalLength;
    var builder := new StringBuilder(buffer);
    ghost var body, digits, point := converter.ToShortestIeeeNumber(negative, d, noise, builder);
    ghost var text := converter.SignText(negative, d) + body;
    assert [] + text == text;
    StringToDouble.ShortTextsAreInRange(buffer[..builder.position]);
    var processed;
    r, processed := StringToDouble.StringToIeee(buffer[..builder.position], machine);
    PrintedReadsBack(text, converter.SignText(negative, d) == ['-'], d, r);
  }

  /** The digits before the point, and those behind it, in decimal notation. */
  function WholePart(digits: seq<char>, decimalPoint: int): seq<char> {
    if decimalPoint <= 0 then ['0'] else if decimalPoint < |digits| then digits[..decimalPoint]
    else digits + Repeat('0', decimalPoint - |digits|)
  }

  function FractionPart(digits: seq<char>, decimalPoint: int): seq<char> {
    if decimalPoint <= 0 then Repeat('0', -decimalPoint) + digits
    else if decimalPoint < |digits| then digits[decimalPoint..] else []
  }

  lemma PartsOf(digits: seq<char>, decimalPoint: int)
    requires AllDigits(digits) && digits != [] && digits[0] != '0'
    ensures IsPlain(WholePart(digits, decimalPoint)) && AllDigits(FractionPart(digits, decimalPoint))
    ensures |FractionPart(digits, decimalPoint)| == Max(0, |digits| - decimalPoint)
    ensures WholePart(digits, decimalPoint) + FractionPart(digits, decimalPoint) ==
      Repeat('0', Max(0, 1 - decimalPoint)) + digits + Repeat('0', Max(0, decimalPoint - |digits|))
  {
    if 0 < decimalPoint < |digits| {
      assert digits[..decimalPoint] + digits[decimalPoint..] == digits;
    }
  }

  lemma PartsAreNotation(whole: seq<char>, fraction: seq<char>, front: nat, digits: seq<char>, back: nat)
    requires IsPlain(whole) && AllDigits(fraction) && AllDigits(digits)
    requires whole + fraction == Repeat('0', front) + digits + Repeat('0', back)
    ensures var n := DigitsVal(digits) * Pow(10, back);
      0 <= n && DecimalNotation(n, |fraction|) == whole + if fraction != [] then ['.'] + fraction else []
  {
    hide DigitsVal, Pow, DecimalNotation, Repeat;
    PaddedDigits(front, digits, back);
    WholeAndFraction(whole, fraction);
  }

  function WithoutPoint(text: seq<char>): seq<char> {
    if text == [] then []
    else WithoutPoint(text[..|text| - 1]) + if text[|text| - 1] == '.' then [] else [text[|text| - 1]]
  }

  lemma {:induction false} WithoutPointConcat(s: seq<char>, t: seq<char>)
    ensures WithoutPoint(s + t) == WithoutPoint(s) + WithoutPoint(t)
  {
    if t == [] {
      assert s + t == s;
    } else {
      assert (s + t)[..|s + t| - 1] == s + t[..|t| - 1];
      WithoutPointConcat(s, t[..|t| - 1]);
    }
  }

  lemma {:induction false} NoPointInDigits(s: seq<char>)
    requires AllDigits(s)
    ensures WithoutPoint(s) == s
  {
    if s != [] { NoPointInDigits(s[..|s| - 1]); }
  }

  lemma NoPointIn(whole: seq<char>, fraction: seq<char>)
    requires AllDigits(whole) && AllDigits(fraction)
    ensures WithoutPoint(whole + (['.'] + fraction)) == WithoutPoint(whole + fraction) == whole + fraction
  {
    hide WithoutPoint;
    WithoutPointConcat(whole, ['.'] + fraction);
    WithoutPointConcat(['.'], fraction);
    WithoutPointConcat(whole, fraction);
    NoPointInDigits(whole);
    NoPointInDigits(fraction);
    JustAPoint();
    assert [] + fraction == fraction;
  }

  lemma JustAPoint()
    ensures WithoutPoint(['.']) == []
  {
    assert ['.'][..0] == [];
  }

  lemma DigitInFront(digit: int, s: seq<char>)
    requires 0 <= digit <= 9 && AllDigits(s)
    ensures AllDigits([CharOf(digit)] + s) && DigitsVal([CharOf(digit)] + s) == digit * Pow(10, |s|) + DigitsVal(s)
  {
    hide DigitsVal, Pow;
    DigitsConcat([CharOf(digit)], s);
    OneDigit(CharOf(digit));
  }

  lemma TenToFour()
    ensures Pow(10, 4) == 10000 && Pow(10, 3) == 1000
  {
  }

  /** The digits s of the exponent are written, and rest is what stands in front of them: four digits at most, or
      three if the exponent has no more. */
  ghost predicate ExponentLeft(exponent: nat, rest: nat, s: seq<char>) {
    && AllDigits(s) && exponent == rest * Pow(10, |s|) + DigitsVal(s)
    && |s| <= 4 && rest < Pow(10, 4 - |s|) && (exponent < 1000 ==> |s| <= 3 && rest < Pow(10, 3 - |s|))
  }

  lemma ZeroExponent()
    ensures AllDigits(['0']) && DigitsVal(['0']) == 0
  {
  }

  lemma NothingWritten(exponent: nat)
    requires exponent < 10000
    ensures ExponentLeft(exponent, exponent, [])
  {
    TenToFour();
  }

  lemma AllWritten(exponent: nat, s: seq<char>)
    requires ExponentLeft(exponent, 0, s)
    ensures AllDigits(s) && DigitsVal(s) == exponent && |s| <= 4 && (exponent < 1000 ==> |s| <= 3)
  {
  }

  lemma NextExponentDigit(exponent: nat, rest: nat, s: seq<char>)
    requires ExponentLeft(exponent, rest, s) && 0 < rest
    ensures |s| < 4 && ExponentLeft(exponent, rest / 10, [CharOf(rest % 10)] + s)
  {
    hide DigitsVal, Pow;
    Pow1(10);
    DigitInFront(rest % 10, s);
    PowSucc(10, |s|);
    if |s| < 4 { PowSucc(10, 3 - |s|); }
    if |s| < 3 { PowSucc(10, 2 - |s|); }
    NextExponentArith(rest, Pow(10, |s|));
  }

  lemma NextExponentArith(rest: nat, p: int)
    ensures rest * p == (rest / 10) * (10 * p) + (rest % 10) * p
  {
  }

  lemma ExponentialComposed(before: seq<char>, digits: seq<char>, mantissa: seq<char>, part: seq<char>)
    requires digits != []
    requires mantissa == before + [digits[0]] + (if |digits| != 1 then ['.'] + digits[1..] else [])
    ensures mantissa + part == before + Compose(digits[..1], |digits| != 1, digits[1..], part)
    ensures Compose(digits[..1], |digits| != 1, digits[1..], part) ==
      [digits[0]] + (if |digits| != 1 then ['.'] + digits[1..] else []) + part
  {
  }

  lemma ExponentialDenotes(digits: seq<char>, part: seq<char>, exponent: int)
    requires AllDigits(digits) && digits != [] && ParseExponent(part, 0) == Some(exponent)
    ensures Denotes(Compose(digits[..1], |digits| != 1, digits[1..], part), DigitsVal(digits), exponent + 1 - |digits|)
  {
    hide Denotes, DigitsVal, Pow, ParseExponent, Compose;
    Pow1(10);
    assert digits[..1] + digits[1..] == digits;
    ComposedDenotes(digits[..1], |digits| != 1, digits[1..], part, exponent, 0,
      DigitsVal(digits), exponent + 1 - |digits|);
  }
}
