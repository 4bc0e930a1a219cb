/** Decimal digit strings, as the conversion routines keep them in char buffers. */
module Decimal {
  import opened Arith

  function DigitOf(c: char): int { c as int - '0' as int }

  function CharOf(d: int): char
    requires 0 <= d <= 10
  {
    ('0' as int + d) as char
  }

  predicate IsDigit(c: char) { '0' <= c <= '9' }

  ghost predicate AllDigits(s: seq<char>) {
    forall k :: 0 <= k < |s| ==> IsDigit(s[k])
  }

  /** The number a buffer denotes; a character '0' + 10, as it appears while a carry ripples, counts ten. */
  ghost function DigitsVal(s: seq<char>): int {
    if |s| == 0 then 0 else 10 * DigitsVal(s[..|s| - 1]) + DigitOf(s[|s| - 1])
  }

  lemma DigitsAppend(s: seq<char>, c: char)
    ensures DigitsVal(s + [c]) == 10 * DigitsVal(s) + DigitOf(c)
  {
  }

  lemma OneDigit(c: char)
    ensures DigitsVal([c]) == DigitOf(c)
  {
    assert [c][..0] == [];
  }

  lemma {:induction false} DigitsConcat(s: seq<char>, t: seq<char>)
    ensures DigitsVal(s + t) == DigitsVal(s) * Pow(10, |t|) + DigitsVal(t)
  {
    if t == [] {
      assert s + t == s;
    } else {
      var t', c := t[..|t| - 1], t[|t| - 1];
      assert s + t == (s + t') + [c];
      DigitsConcat(s, t');
      DigitsAppend(s + t', c);
      MulAssoc(10, DigitsVal(s), Pow(10, |t'|));
      assert Pow(10, |t|) == 10 * Pow(10, |t'|);
      MulAssoc(DigitsVal(s), 10, Pow(10, |t'|));
    }
  }

  lemma {:induction false} DigitsBound(s: seq<char>)
    requires AllDigits(s)
    ensures 0 <= DigitsVal(s) < Pow(10, |s|)
  {
    if s != [] { DigitsBound(s[..|s| - 1]); }
  }

  /** A number without a leading zero. */
  lemma Positive(s: seq<char>)
    requires |s| > 0 && AllDigits(s) && s[0] != '0'
    ensures Pow(10, |s| - 1) <= DigitsVal(s)
  {
  }

  lemma NoDigits()
    ensures DigitsVal([]) == 0
  {
  }

  /** Changing one character changes the number by the difference at its weight. */
  lemma {:induction false} DigitsUpdate(s: seq<char>, i: nat, c: char)
    requires i < |s|
    ensures DigitsVal(s[i := c]) == DigitsVal(s) + (DigitOf(c) - DigitOf(s[i])) * Pow(10, |s| - 1 - i)
  {
    var n := |s| - 1;
    if i == n {
      assert s[i := c][..n] == s[..n];
      Pow1(10);
    } else {
      DigitsUpdate(s[..n], i, c);
      assert s[i := c][..n] == s[..n][i := c];
      var d := DigitOf(c) - DigitOf(s[i]);
      assert Pow(10, n - i) == 10 * Pow(10, n - 1 - i);
      MulAssoc(d, 10, Pow(10, n - 1 - i));
    }
  }

  lemma {:induction false} DigitsOfZeros(s: seq<char>)
    requires forall k :: 0 <= k < |s| ==> s[k] == '0'
    ensures DigitsVal(s) == 0
  {
    if s != [] { DigitsOfZeros(s[..|s| - 1]); }
  }

  /** A leading digit followed by zeros. */
  lemma DigitThenZeros(s: seq<char>)
    requires |s| > 0 && forall k :: 1 <= k < |s| ==> s[k] == '0'
    ensures DigitsVal(s) == DigitOf(s[0]) * Pow(10, |s| - 1)
  {
    assert s == s[..1] + s[1..];
    DigitsConcat(s[..1], s[1..]);
    DigitsOfZeros(s[1..]);
    DigitsAppend([], s[0]);
    assert s[..1] == [] + [s[0]];
    assert DigitsVal([]) == 0;
  }

  /** Append a digit to the buffer. */
  method PutDigit(buffer: array<char>, length: nat, digit: int)
    requires length < buffer.Length && 0 <= digit <= 9 && AllDigits(buffer[..length])
    modifies buffer
    ensures AllDigits(buffer[..length + 1]) &&
      DigitsVal(buffer[..length + 1]) == 10 * old(DigitsVal(buffer[..length])) + digit
    ensures forall i :: 0 <= i < buffer.Length && i != length ==> buffer[i] == old(buffer[i])
    ensures buffer[length] == CharOf(digit)
  {
    hide DigitsVal;
    ghost var s := buffer[..length];
    buffer[length] := CharOf(digit);
    assert buffer[..length + 1] == s + [CharOf(digit)];
    DigitsAppend(s, CharOf(digit));
  }

  /** The last character may have been raised to '0' + 10; the carry moves up until it finds a digit that is
      not '9', or reaches the first one. The number in the buffer stays the same. */
  method PropagateCarry(buffer: array<char>, length: nat)
    requires 0 < length <= buffer.Length
    requires AllDigits(buffer[..length - 1]) && '0' <= buffer[length - 1] <= ':'
    modifies buffer
    ensures DigitsVal(buffer[..length]) == old(DigitsVal(buffer[..length]))
    ensures forall k :: 1 <= k < length ==> IsDigit(buffer[k])
    ensures '0' <= buffer[0] <= ':'
    ensures buffer[0] == ':' ==> forall k :: 1 <= k < length ==> buffer[k] == '0'
    ensures forall k :: length <= k < buffer.Length ==> buffer[k] == old(buffer[k])
  {
    var i := length - 1;
    assert forall k :: 0 <= k < length - 1 ==> buffer[k] == buffer[..length - 1][k];
    while i > 0 && buffer[i] == ':'
      invariant 0 <= i < length
      invariant DigitsVal(buffer[..length]) == old(DigitsVal(buffer[..length]))
      invariant forall k :: 0 <= k < length && k != i ==> IsDigit(buffer[k])
      invariant '0' <= buffer[i] <= ':'
      invariant forall k :: i < k < length ==> buffer[k] == '0'
      invariant forall k :: length <= k < buffer.Length ==> buffer[k] == old(buffer[k])
    {
      ghost var s := buffer[..length];
      var up := CharOf(DigitOf(buffer[i - 1]) + 1);
      CarryKeepsValue(s, i, up);
      buffer[i] := '0';
      buffer[i - 1] := up;
      assert buffer[..length] == s[i := '0'][i - 1 := up];
      i := i - 1;
    }
  }

  lemma CarryKeepsValue(s: seq<char>, i: nat, up: char)
    requires 0 < i < |s| && s[i] == ':' && DigitOf(up) == DigitOf(s[i - 1]) + 1
    ensures DigitsVal(s[i := '0'][i - 1 := up]) == DigitsVal(s)
  {
    DigitsUpdate(s, i, '0');
    DigitsUpdate(s[i := '0'], i - 1, up);
    assert Pow(10, |s| - i) == 10 * Pow(10, |s| - 1 - i);
  }

  /** Turns an all-nines overflow into a leading one; the caller moves the decimal point. */
  method FixLeadingTen(buffer: array<char>, length: nat) returns (moved: bool)
    requires 0 < length <= buffer.Length && '0' <= buffer[0] <= ':'
    requires forall k :: 1 <= k < length ==> IsDigit(buffer[k])
    requires buffer[0] == ':' ==> forall k :: 1 <= k < length ==> buffer[k] == '0'
    modifies buffer
    ensures AllDigits(buffer[..length])
    ensures old(DigitsVal(buffer[..length])) == DigitsVal(buffer[..length]) * (if moved then 10 else 1)
    ensures moved <==> old(DigitsVal(buffer[..length])) == Pow(10, length)
    ensures moved ==> DigitsVal(buffer[..length]) == Pow(10, length - 1)
    ensures moved ==> buffer[0] == '1'
    ensures !moved ==> buffer[..] == old(buffer[..])
    ensures forall k :: length <= k < buffer.Length ==> buffer[k] == old(buffer[k])
  {
    ghost var s := buffer[..length];
    moved := buffer[0] == ':';
    if moved {
      DigitThenZeros(s);
      buffer[0] := '1';
      DigitThenZeros(buffer[..length]);
    } else {
      DigitsBound(s);
    }
  }

  /** buffer[length - 1]++ with the carry moving up; nines all the way become a one followed by zeros, and the
      caller moves the decimal point. */
  method IncrementLast(buffer: array<char>, length: nat) returns (moved: bool)
    requires 0 < length <= buffer.Length && AllDigits(buffer[..length])
    modifies buffer
    ensures AllDigits(buffer[..length]) && (moved ==> buffer[0] == '1')
    ensures DigitsVal(buffer[..length]) * (if moved then 10 else 1) == old(DigitsVal(buffer[..length])) + 1
    ensures forall k :: length <= k < buffer.Length ==> buffer[k] == old(buffer[k])
  {
    hide DigitsVal;
    ghost var s := buffer[..length];
    assert IsDigit(s[length - 1]);
    DigitsUpdate(s, length - 1, CharOf(DigitOf(s[length - 1]) + 1));
    Pow1(10);
    buffer[length - 1] := CharOf(DigitOf(buffer[length - 1]) + 1);
    assert buffer[..length] == s[length - 1 := CharOf(DigitOf(s[length - 1]) + 1)];
    assert AllDigits(buffer[..length - 1]) by {
      assert forall i :: 0 <= i < length - 1 ==> buffer[..length - 1][i] == s[i];
    }
    PropagateCarry(buffer, length);
    moved := FixLeadingTen(buffer, length);
  }
}
