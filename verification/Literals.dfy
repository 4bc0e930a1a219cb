/** Decimal literals and the number each one denotes. */
module Literals {
  import opened Arith
  import opened Decimal
  import opened Ieee
  import opened StrtodSpec

  /** [sign] whole [. fraction] [e [sign] digits], with a digit in whole or fraction. */
  datatype Literal = Literal(negative: bool, whole: seq<char>, fraction: seq<char>, exponent: int) {
    ghost function Number(): int { DigitsVal(whole + fraction) }

    /** The number is Number() * 10^Scale(). */
    function Scale(): int { exponent - |fraction| }

    ghost predicate Reads(d: nat)
      requires IsDouble(d)
    {
      ReadsAs(Number(), Scale(), d)
    }

    /** The number is n * 10^e, written with some zeros at the end. */
    ghost predicate Is(n: int, e: int) {
      exists zeros: nat :: Scale() == e - zeros && Number() == n * Pow(10, zeros)
    }

    lemma ReadsAsNumber(n: int, e: int, d: nat)
      requires Is(n, e) && IsDouble(d)
      ensures Reads(d) <==> ReadsAs(n, e, d)
    {
      hide Pow, ReadsAs;
      var zeros: nat :| Scale() == e - zeros && Number() == n * Pow(10, zeros);
      SameNumber(n, Scale(), zeros, d);
    }
  }

  predicate IsSign(c: char) { c == '+' || c == '-' }

  /** The first position from i on that holds no digit. */
  function DigitsEnd(text: seq<char>, i: nat): (j: nat)
    requires i <= |text|
    ensures i <= j <= |text| && AllDigits(text[i..j]) && (j < |text| ==> !IsDigit(text[j]))
    decreases |text| - i
  {
    if i < |text| && IsDigit(text[i]) then
      var j := DigitsEnd(text, i + 1);
      assert text[i..j] == [text[i]] + text[i + 1..j];
      j
    else i
  }

  /** The exponent part that makes up the rest of the text from position k on. */
  ghost function ParseExponent(text: seq<char>, k: nat): Option<int>
    requires k <= |text|
  {
    if k == |text| then Some(0)
    else if text[k] != 'e' && text[k] != 'E' then None
    else
      var m := if k + 1 < |text| && IsSign(text[k + 1]) then k + 2 else k + 1;
      if DigitsEnd(text, m) == m || DigitsEnd(text, m) != |text| then None
      else
        var value := DigitsVal(text[m..]);
        Some(if text[k + 1] == '-' then -value else value)
  }

  lemma NoExponent(text: seq<char>)
    ensures ParseExponent(text, |text|) == Some(0)
  {
  }

  function Start(text: seq<char>): (i: nat)
    ensures i <= |text|
  {
    if |text| > 0 && IsSign(text[0]) then 1 else 0
  }

  /** The end of the digits behind a point at j, or j if there is none. */
  ghost function FractionEnd(text: seq<char>, j: nat): (k: nat)
    requires j <= |text|
    ensures j <= k <= |text|
  {
    if j < |text| && text[j] == '.' then DigitsEnd(text, j + 1) else j
  }

  /** The literal that the whole text is, if it is one. */
  ghost function ParseLiteral(text: seq<char>): Option<Literal> {
    var j := DigitsEnd(text, Start(text));
    var k := FractionEnd(text, j);
    var fraction := if j < k then text[j + 1..k] else [];
    if j - Start(text) + |fraction| == 0 || ParseExponent(text, k).None? then None
    else Some(Literal(text != [] && text[0] == '-', text[Start(text)..j], fraction, ParseExponent(text, k).value))
  }

  /** The end of a run of digits is pinned down by what follows. */
  lemma {:induction false} DigitsEndIs(text: seq<char>, i: nat, j: nat)
    requires i <= j <= |text| && AllDigits(text[i..j]) && (j < |text| ==> !IsDigit(text[j]))
    ensures DigitsEnd(text, i) == j
    decreases j - i
  {
    if i < j {
      assert text[i..j] == [text[i]] + text[i + 1..j];
      assert IsDigit(text[i..j][0]);
      var rest := text[i + 1..j];
      forall k | 0 <= k < |rest| ensures IsDigit(rest[k]) { assert rest[k] == text[i..j][k + 1]; }
      DigitsEndIs(text, i + 1, j);
    }
  }

  // ---- Texts put together from their parts

  ghost function Compose(whole: seq<char>, point: bool, fraction: seq<char>, exponent: seq<char>): seq<char> {
    whole + (if point then ['.'] + fraction else []) + exponent
  }

  ghost predicate IsSignText(sign: seq<char>) { sign == [] || sign == ['-'] || sign == ['+'] }

  /** An exponent part reads the same behind any text. */
  lemma ExponentBehind(prefix: seq<char>, exponent: seq<char>)
    ensures ParseExponent(prefix + exponent, |prefix|) == ParseExponent(exponent, 0)
  {
    hide DigitsVal, DigitsEnd;
    var text, n := prefix + exponent, |prefix|;
    if exponent != [] {
      var m := if 1 < |exponent| && IsSign(exponent[1]) then 2 else 1;
      var j := DigitsEnd(exponent, m);
      assert text[m + n..j + n] == exponent[m..j];
      DigitsEndIs(text, m + n, j + n);
      assert text[m + n..] == exponent[m..];
    }
  }

  lemma ExponentText(c: char, sign: seq<char>, digits: seq<char>)
    requires (c == 'e' || c == 'E') && IsSignText(sign) && AllDigits(digits) && digits != []
    ensures ParseExponent([c] + sign + digits, 0) ==
      Some(if sign == ['-'] then -DigitsVal(digits) else DigitsVal(digits))
  {
    hide DigitsVal, DigitsEnd;
    var text, m := [c] + sign + digits, 1 + |sign|;
    assert text[m..] == digits && text[m..|text|] == digits;
    DigitsEndIs(text, m, |text|);
    assert sign != [] ==> text[1] == sign[0];
    assert sign == [] ==> text[1] == digits[0] && IsDigit(digits[0]);
  }

  lemma DigitsBetween(prefix: seq<char>, digits: seq<char>, rest: seq<char>)
    requires AllDigits(digits) && (rest != [] ==> !IsDigit(rest[0]))
    ensures var text, i, j := prefix + digits + rest, |prefix|, |prefix| + |digits|;
      DigitsEnd(text, i) == j && text[i..j] == digits
  {
    hide DigitsEnd;
    var text, i, j := prefix + digits + rest, |prefix|, |prefix| + |digits|;
    assert text[i..j] == digits;
    DigitsEndIs(text, i, j);
  }

  lemma FractionBetween(left: seq<char>, fraction: seq<char>, exponent: seq<char>)
    requires AllDigits(fraction) && (exponent != [] ==> !IsDigit(exponent[0]))
    ensures var text, j := left + (['.'] + fraction + exponent), |left|; var k := j + 1 + |fraction|;
      && FractionEnd(text, j) == k && text[j + 1..k] == fraction
      && ParseExponent(text, k) == ParseExponent(exponent, 0)
  {
    hide DigitsEnd, ParseExponent, AllDigits;
    var front := left + ['.'];
    assert left + (['.'] + fraction + exponent) == front + fraction + exponent;
    DigitsBetween(front, fraction, exponent);
    ExponentBehind(front + fraction, exponent);
  }

  lemma PointedParsesBack(sign: seq<char>, whole: seq<char>, fraction: seq<char>, exponent: seq<char>)
    requires IsSignText(sign) && AllDigits(whole) && AllDigits(fraction) && whole != [] &&
      ParseExponent(exponent, 0).Some?
    ensures ParseLiteral(sign + whole + (['.'] + fraction + exponent)) ==
            Some(Literal(sign == ['-'], whole, fraction, ParseExponent(exponent, 0).value))
  {
    hide DigitsEnd, ParseExponent, AllDigits, ParseLiteral, IsSignText, Start, FractionEnd;
    if exponent != [] { ExponentStarts(exponent); }
    var tail := ['.'] + fraction + exponent;
    DigitsBetween(sign, whole, tail);
    FractionBetween(sign + whole, fraction, exponent);
    SignedStart(sign, whole, tail);
    ParsedParts(sign + whole + tail, |sign| + |whole|, |sign| + |whole| + 1 + |fraction|);
  }

  /** A composed text parses into its parts. */
  lemma ParsesBack(sign: seq<char>, whole: seq<char>, point: bool, fraction: seq<char>, exponent: seq<char>)
    requires IsSignText(sign) && AllDigits(whole) && AllDigits(fraction) && whole != [] && (!point ==> fraction == [])
    requires ParseExponent(exponent, 0).Some?
    ensures ParseLiteral(sign + Compose(whole, point, fraction, exponent)) ==
            Some(Literal(sign == ['-'], whole, fraction, ParseExponent(exponent, 0).value))
  {
    hide DigitsEnd, ParseExponent, AllDigits, ParseLiteral, IsSignText, Start;
    var text := sign + Compose(whole, point, fraction, exponent);
    if point {
      PointedParsesBack(sign, whole, fraction, exponent);
      assert text == sign + whole + (['.'] + fraction + exponent);
    } else {
      if exponent != [] { ExponentStarts(exponent); }
      assert text == sign + whole + exponent;
      DigitsBetween(sign, whole, exponent);
      SignedStart(sign, whole, exponent);
      ExponentBehind(sign + whole, exponent);
      ParsedParts(text, |sign| + |whole|, |sign + whole|);
    }
  }

  lemma ParsedParts(text: seq<char>, j: nat, k: nat)
    requires j == DigitsEnd(text, Start(text)) && k == FractionEnd(text, j) && Start(text) < j &&
      ParseExponent(text, k).Some?
    ensures ParseLiteral(text) ==
      Some(Literal(text[0] == '-', text[Start(text)..j], if j < k then text[j + 1..k] else [],
                   ParseExponent(text, k).value))
  {
    hide DigitsEnd, ParseExponent;
  }

  lemma SignedStart(sign: seq<char>, whole: seq<char>, tail: seq<char>)
    requires IsSignText(sign) && AllDigits(whole) && whole != []
    ensures var text := sign + whole + tail; Start(text) == |sign| && (sign == ['-'] <==> text[0] == '-')
  {
  }

  lemma ExponentStarts(exponent: seq<char>)
    requires ParseExponent(exponent, 0).Some? && exponent != []
    ensures exponent[0] == 'e' || exponent[0] == 'E'
  {
  }
}
