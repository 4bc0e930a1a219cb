/** The decimal notation of a number, as a function of the number alone. */
module Numerals {
  import opened Arith
  import opened Decimal

  /** Without leading zeros. */
  function Numeral(n: nat): (s: seq<char>)
    ensures s != []
  {
    if n < 10 then [CharOf(n)] else Numeral(n / 10) + [CharOf(n % 10)]
  }

  /** The last k digits, zeros in front included. */
  function LastDigits(n: nat, k: nat): (s: seq<char>)
    ensures |s| == k
  {
    if k == 0 then [] else LastDigits(n / 10, k - 1) + [CharOf(n % 10)]
  }

  /** n * 10^-places with that many places. */
  ghost function DecimalNotation(n: nat, places: nat): seq<char> {
    Numeral(n / Pow(10, places)) + if places > 0 then ['.'] + LastDigits(n, places) else []
  }

  ghost predicate IsPlain(s: seq<char>) {
    AllDigits(s) && s != [] && (|s| == 1 || s[0] != '0')
  }

  lemma LastOf(s: seq<char>, c: char)
    requires AllDigits(s) && IsDigit(c)
    ensures 0 <= DigitsVal(s) && 0 <= DigitsVal(s + [c])
    ensures DigitsVal(s + [c]) / 10 == DigitsVal(s) && CharOf(DigitsVal(s + [c]) % 10) == c
  {
    hide DigitsVal;
    DigitsAppend(s, c);
    DigitsBound(s);
    DivModUnique(DigitsVal(s + [c]), 10, DigitsVal(s), DigitOf(c));
  }

  /** The numeral of a number is its only plain notation. */
  lemma {:induction false} PlainIsNumeral(s: seq<char>)
    requires IsPlain(s)
    ensures 0 <= DigitsVal(s) && s == Numeral(DigitsVal(s))
  {
    hide DigitsVal;
    var t, c := s[..|s| - 1], s[|s| - 1];
    assert s == t + [c];
    LastOf(t, c);
    DigitsAppend(t, c);
    NoDigits();
    if t != [] {
      PlainIsNumeral(t);
      Positive(t);
    }
  }

  /** Any digits are the last ones of their number. */
  lemma {:induction false} LastDigitsOf(s: seq<char>, t: seq<char>)
    requires AllDigits(s) && AllDigits(t)
    ensures 0 <= DigitsVal(s + t) && LastDigits(DigitsVal(s + t), |t|) == t
  {
    hide DigitsVal;
    assert AllDigits(s + t);
    DigitsBound(s + t);
    if t != [] {
      var t', c := t[..|t| - 1], t[|t| - 1];
      assert s + t == (s + t') + [c];
      LastDigitsOf(s, t');
      LastOf(s + t', c);
    }
  }

  /** Digits without a leading zero, with the point before the last ones, are the decimal notation of their number. */
  lemma WholeAndFraction(whole: seq<char>, fraction: seq<char>)
    requires IsPlain(whole) && AllDigits(fraction)
    ensures var n, places := DigitsVal(whole + fraction), |fraction|;
      && 0 <= n && 0 < Pow(10, places)
      && whole == Numeral(n / Pow(10, places)) && fraction == LastDigits(n, places)
      && DecimalNotation(n, places) == whole + if places > 0 then ['.'] + fraction else []
  {
    hide DigitsVal, Pow, Numeral, LastDigits;
    var n, places := DigitsVal(whole + fraction), |fraction|;
    DigitsConcat(whole, fraction);
    DigitsBound(fraction);
    LastDigitsOf(whole, fraction);
    DivModUnique(n, Pow(10, places), DigitsVal(whole), DigitsVal(fraction));
    PlainIsNumeral(whole);
  }

  lemma {:induction false} NumeralIsPlain(n: nat)
    ensures IsPlain(Numeral(n)) && DigitsVal(Numeral(n)) == n && (n > 0 ==> Numeral(n)[0] != '0')
  {
    hide DigitsVal;
    if n < 10 {
      OneDigit(CharOf(n));
    } else {
      NumeralIsPlain(n / 10);
      DigitsAppend(Numeral(n / 10), CharOf(n % 10));
    }
  }

  /** So the notation tells the number. */
  lemma NumeralsDiffer(m: nat, n: nat)
    ensures Numeral(m) == Numeral(n) <==> m == n
  {
    NumeralIsPlain(m);
    NumeralIsPlain(n);
  }
}
