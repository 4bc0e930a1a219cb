/** Reading decimal text: the decimal path of StringToIeee, with no flag set. */
module StringToDouble {
  import opened Arith
  import opened Decimal
  import opened ExactDoubles
  import opened Ieee
  import opened Literals
  import opened StrtodSpec
  import opened StrtodModel

  const MAX_SIGNIFICANT_DIGITS := 772
  const BUFFER_SIZE := 782
  const MAX_EXPONENT := 0x3fff_ffff

  // ---- What the reader keeps of the digits

  ghost predicate AllZeros(s: seq<char>) { forall i :: 0 <= i < |s| ==> s[i] == '0' }

  /** Of the digits read so far, fraction of them behind the point: zeros leading ones are skipped, the next ones, up
      to 772, are in the buffer; the exponents account for the point and for what was dropped, and a flag tells whether
      a dropped digit was not zero. */
  ghost predicate Kept(all: seq<char>, zeros: int, fraction: int, buffer: seq<char>, exponent: int, dropped: bool) {
    && AllDigits(all) && 0 <= zeros <= zeros + |buffer| <= |all| && |buffer| <= 772
    && (forall i :: 0 <= i < zeros ==> all[i] == '0')
    && (zeros < |all| ==> all[zeros] != '0')
    && buffer == all[zeros..zeros + |buffer|]
    && (|buffer| < 772 ==> zeros + |buffer| == |all|)
    && exponent == |all| - zeros - |buffer| - fraction
    && (dropped <==> exists i :: zeros + |buffer| <= i < |all| && all[i] != '0')
  }

  lemma KeepDigit(all: seq<char>, zeros: int, fraction: int, buffer: seq<char>, exponent: int, dropped: bool, c: char)
    requires Kept(all, zeros, fraction, buffer, exponent, dropped) && IsDigit(c) && |buffer| < 772
    requires buffer == [] ==> c != '0'
    ensures Kept(all + [c], zeros, fraction, buffer + [c], exponent, dropped)
    ensures Kept(all + [c], zeros, fraction + 1, buffer + [c], exponent - 1, dropped)
  {
  }

  lemma DropDigit(all: seq<char>, zeros: int, fraction: int, buffer: seq<char>, exponent: int, dropped: bool, c: char)
    requires Kept(all, zeros, fraction, buffer, exponent, dropped) && IsDigit(c) && |buffer| == 772
    ensures Kept(all + [c], zeros, fraction, buffer, exponent + 1, dropped || c != '0')
    ensures Kept(all + [c], zeros, fraction + 1, buffer, exponent, dropped || c != '0')
  {
    var all' := all + [c];
    assert all'[zeros..zeros + |buffer|] == buffer;
    if dropped {
      var i :| zeros + |buffer| <= i < |all| && all[i] != '0';
      assert all'[i] != '0';
    }
    if c != '0' { assert all'[|all|] != '0'; }
  }

  /** The kept digits, with a one appended if something was dropped, read like all of them. */
  lemma KeptReadsAlike(all: seq<char>, zeros: int, fraction: int, buffer: seq<char>,
                       exponent: int, dropped: bool, x: int, d: nat)
    requires Kept(all, zeros, fraction, buffer, exponent, dropped) && IsDouble(d)
    ensures if dropped then ReadsAs(DigitsVal(all), x - fraction, d) <==>
      ReadsAs(DigitsVal(buffer + ['1']), exponent + x - 1, d)
            else ReadsAs(DigitsVal(all), x - fraction, d) <==> ReadsAs(DigitsVal(buffer), exponent + x, d)
  {
    hide DigitsVal, Pow, ReadsAs;
    KeptParts(all, zeros, buffer);
    var rest := all[zeros + |buffer|..];
    DigitsAppend(buffer, '1');
    if dropped {
      Positive(buffer);
      DigitsBound(rest);
      var i :| zeros + |buffer| <= i < |all| && all[i] != '0';
      NotAllZeros(rest, i - zeros - |buffer|);
      CutReadsTheSame(DigitsVal(buffer), DigitsVal(rest), |rest|, x - fraction, d);
    } else {
      DigitsOfZeros(rest);
      SameNumber(DigitsVal(buffer), x - fraction, |rest|, d);
    }
  }

  lemma {:induction false} NotAllZeros(s: seq<char>, i: nat)
    requires AllDigits(s) && i < |s| && s[i] != '0'
    ensures 0 < DigitsVal(s)
  {
    var r := s[..|s| - 1];
    DigitsBound(r);
    assert IsDigit(s[|s| - 1]);
    if i < |s| - 1 { NotAllZeros(r, i); }
  }

  /** When a digit is dropped, the value handed on lies strictly between the two adjacent truncations. */
  lemma DroppedStaysBetween(all: seq<char>, zeros: int, fraction: int, buffer: seq<char>, exponent: int)
    requires Kept(all, zeros, fraction, buffer, exponent, true)
    ensures var cut := |all| - zeros - |buffer|; var n, v := DigitsVal(buffer), DigitsVal(all);
      && 0 < cut && n * Pow(10, cut) < v < (n + 1) * Pow(10, cut)
      && 10 * n < DigitsVal(buffer + ['1']) < 10 * (n + 1)
  {
    hide DigitsVal, Pow;
    KeptParts(all, zeros, buffer);
    var rest := all[zeros + |buffer|..];
    DigitsAppend(buffer, '1');
    DigitsBound(rest);
    var i :| zeros + |buffer| <= i < |all| && all[i] != '0';
    NotAllZeros(rest, i - zeros - |buffer|);
    OneMore(DigitsVal(buffer), Pow(10, |rest|));
  }

  /** Skipped zeros, the buffer and the rest. */
  lemma KeptParts(all: seq<char>, zeros: nat, buffer: seq<char>)
    requires zeros + |buffer| <= |all| && buffer == all[zeros..zeros + |buffer|] &&
      forall i :: 0 <= i < zeros ==> all[i] == '0'
    ensures var rest := all[zeros + |buffer|..]; DigitsVal(all) == DigitsVal(buffer) * Pow(10, |rest|) + DigitsVal(rest)
  {
    hide DigitsVal, Pow;
    var z, rest := all[..zeros], all[zeros + |buffer|..];
    assert all == z + (buffer + rest);
    DigitsConcat(z, buffer + rest);
    DigitsOfZeros(z);
    DigitsConcat(buffer, rest);
  }

  // ---- Scanning

  predicate IsWhitespace(c: char) {
    var x := c as int;
    9 <= x <= 13 || x == 32 || x == 160 || x == 5760 || x == 6158 || 8192 <= x <= 8202 || x == 8232 || x == 8233 ||
    x == 8239 || x == 8287 || x == 12288 || x == 65279
  }

  method AdvanceToNonspace(text: seq<char>, current: nat) returns (next: nat, found: bool)
    requires current <= |text|
    ensures current <= next <= |text| && (found <==> next < |text|) && (found ==> !IsWhitespace(text[next]))
    ensures forall i :: current <= i < next ==> IsWhitespace(text[i])
  {
    next := current;
    while next < |text|
      invariant current <= next <= |text|
      invariant forall i :: current <= i < next ==> IsWhitespace(text[i])
    {
      if !IsWhitespace(text[next]) { return next, true; }
      next := next + 1;
    }
    found := false;
  }

  method SkipZeros(text: seq<char>, current: nat) returns (next: nat)
    requires current <= |text|
    ensures current <= next <= |text| && (next < |text| ==> text[next] != '0')
    ensures forall i :: current <= i < next ==> text[i] == '0'
  {
    next := current;
    while next < |text| && text[next] == '0'
      invariant current <= next <= |text|
      invariant forall i :: current <= i < next ==> text[i] == '0'
    {
      next := next + 1;
    }
  }

  /** The digits before the point, of which zeros leading ones are skipped already. */
  method WholeDigits(text: seq<char>, first: nat, ghost zeros: nat, buffer: array<char>)
    returns (current: nat, significant: nat, insignificant: nat, dropped: bool)
    requires zeros <= first <= |text| && buffer.Length == BUFFER_SIZE
    requires forall i :: first - zeros <= i < first ==> text[i] == '0'
    requires first < |text| ==> text[first] != '0'
    modifies buffer
    ensures first <= current <= |text| && current == DigitsEnd(text, first) && (significant == 0 ==> current == first)
    ensures significant == Min(MAX_SIGNIFICANT_DIGITS, current - first)
    ensures significant + insignificant == current - first
    ensures Kept(text[first - zeros..current], zeros, 0, buffer[..significant], insignificant, dropped)
  {
    hide Kept;
    current, significant, insignificant, dropped := first, 0, 0, false;
    KeepZeros(text[first - zeros..first]);
    while current < |text| && IsDigit(text[current])
      invariant first <= current <= |text| && AllDigits(text[first..current])
      invariant significant == Min(MAX_SIGNIFICANT_DIGITS, current - first)
      invariant significant + insignificant == current - first
      invariant Kept(text[first - zeros..current], zeros, 0, buffer[..significant], insignificant, dropped)
    {
      var c := text[current];
      ghost var all, kept := text[first - zeros..current], buffer[..significant];
      NextSlice(text, first - zeros, current);
      NextSlice(text, first, current);
      if significant < MAX_SIGNIFICANT_DIGITS {
        KeepDigit(all, zeros, 0, kept, insignificant, dropped, c);
        buffer[significant] := c;
        significant := significant + 1;
        assert buffer[..significant] == kept + [c];
      } else {
        DropDigit(all, zeros, 0, kept, insignificant, dropped, c);
        insignificant := insignificant + 1;
        dropped := dropped || c != '0';
      }
      current := current + 1;
    }
    DigitsEndIs(text, first, current);
  }

  lemma NextSlice(text: seq<char>, from: nat, to: nat)
    requires from <= to < |text|
    ensures text[from..to + 1] == text[from..to] + [text[to]]
    ensures AllDigits(text[from..to]) && IsDigit(text[to]) ==> AllDigits(text[from..to + 1])
  {
  }

  lemma KeepZeros(all: seq<char>)
    requires AllZeros(all)
    ensures Kept(all, |all|, 0, [], 0, false)
  {
  }

  lemma OneMoreRead(all: seq<char>, text: seq<char>, first: nat, current: nat)
    requires first <= current < |text|
    ensures all + text[first..current + 1] == all + text[first..current] + [text[current]]
    ensures AllDigits(text[first..current]) && IsDigit(text[current]) ==> AllDigits(text[first..current + 1])
  {
    NextSlice(text, first, current);
  }

  /** The digits behind the point. */
  method FractionDigits(text: seq<char>, first: nat, buffer: array<char>, exponentBefore: int,
                        significantBefore: nat, insignificant: nat, droppedBefore: bool,
                        ghost all: seq<char>, ghost zeros: nat, ghost fraction: nat)
    returns (current: nat, exponent: int, significant: nat, dropped: bool)
    requires first <= |text| && buffer.Length == BUFFER_SIZE && significantBefore <= MAX_SIGNIFICANT_DIGITS
    requires Kept(all, zeros, fraction, buffer[..significantBefore], exponentBefore + insignificant, droppedBefore)
    requires significantBefore == 0 && first < |text| ==> text[first] != '0'
    modifies buffer
    ensures first <= current <= |text| && current == DigitsEnd(text, first)
    ensures significant == Min(MAX_SIGNIFICANT_DIGITS, significantBefore + (current - first))
    ensures exponent == exponentBefore - (significant - significantBefore)
    ensures Kept(all + text[first..current], zeros, fraction + current - first, buffer[..significant],
                 exponent + insignificant, dropped)
  {
    hide Kept;
    current, exponent, significant, dropped := first, exponentBefore, significantBefore, droppedBefore;
    assert all + text[first..first] == all;
    while current < |text| && IsDigit(text[current])
      invariant first <= current <= |text| && AllDigits(text[first..current])
      invariant significant == Min(MAX_SIGNIFICANT_DIGITS, significantBefore + (current - first))
      invariant exponent == exponentBefore - (significant - significantBefore)
      invariant Kept(all + text[first..current], zeros, fraction + current - first, buffer[..significant],
                     exponent + insignificant, dropped)
    {
      var c := text[current];
      ghost var before, kept, behind := all + text[first..current], buffer[..significant], fraction + current - first;
      OneMoreRead(all, text, first, current);
      if significant < MAX_SIGNIFICANT_DIGITS {
        KeepDigit(before, zeros, behind, kept, exponent + insignificant, dropped, c);
        buffer[significant] := c;
        significant := significant + 1;
        exponent := exponent - 1;
        assert buffer[..significant] == kept + [c];
      } else {
        DropDigit(before, zeros, behind, kept, exponent + insignificant, dropped, c);
        dropped := dropped || c != '0';
      }
      current := current + 1;
    }
    DigitsEndIs(text, first, current);
  }

  /** Exponents too large for the range of int are replaced by the limit. */
  function Clamp(x: int): int {
    if x > MAX_EXPONENT then MAX_EXPONENT else if x < -MAX_EXPONENT then -MAX_EXPONENT else x
  }

  /** The exponent that the rest of the text is, if it is one. */
  method ExponentPart(text: seq<char>, start: nat) returns (ok: bool, exponent: int32)
    requires start < |text|
    ensures ok <==> ParseExponent(text, start).Some?
    ensures ok ==> exponent == Clamp(ParseExponent(text, start).value)
  {
    hide DigitsVal;
    exponent := 0;
    if text[start] != 'e' && text[start] != 'E' { return false, 0; }
    var current := start + 1;
    if current == |text| { return false, 0; }
    var negative := false;
    if IsSign(text[current]) {
      negative := text[current] == '-';
      current := current + 1;
      if current == |text| { return false, 0; }
    }
    if !IsDigit(text[current]) {
      DigitsEndIs(text, current, current);
      return false, 0;
    }
    ghost var first := current;
    var num: int32 := 0;
    NoDigits();
    assert text[first..first] == [];
    while current < |text| && IsDigit(text[current])
      invariant first <= current <= |text| && AllDigits(text[first..current])
      invariant num == Min(DigitsVal(text[first..current]), MAX_EXPONENT)
      invariant 0 <= num
    {
      var digit := DigitOf(text[current]);
      NextSlice(text, first, current);
      DigitsAppend(text[first..current], text[current]);
      if num >= MAX_EXPONENT / 10 && !(num == MAX_EXPONENT / 10 && digit <= MAX_EXPONENT % 10) {
        num := MAX_EXPONENT;
      } else {
        num := num * 10 + digit;
      }
      current := current + 1;
    }
    DigitsEndIs(text, first, current);
    if current != |text| { return false, 0; }
    assert text[first..] == text[first..current];
    ok, exponent := true, if negative then -num else num;
  }

  // ---- The whole reader

  datatype Reading = Empty | Junk | Number(negative: bool, d: nat)

  lemma KeptDigits(all: seq<char>, zeros: int, fraction: int, buffer: seq<char>, exponent: int, dropped: bool)
    requires Kept(all, zeros, fraction, buffer, exponent, dropped)
    ensures AllDigits(buffer) && AllDigits(buffer + ['1'])
  {
    forall k | 0 <= k < |buffer| ensures IsDigit(buffer[k]) { assert buffer[k] == all[zeros + k]; }
  }

  /** Everything after parsing_done. */
  method Convert(buffer: array<char>, significant: nat, exponent: int32, dropped: bool, machine: Machine,
                 ghost l: Literal, ghost zeros: nat, ghost kept: int)
    returns (d: nat)
    requires buffer.Length == BUFFER_SIZE && significant <= MAX_SIGNIFICANT_DIGITS && machine.IsIeee()
    requires Kept(l.whole + l.fraction, zeros, |l.fraction|, buffer[..significant], kept, dropped)
    requires exponent == kept + Clamp(l.exponent) && -0x1fff_ffff <= kept <= 0x1fff_ffff
    modifies buffer
    ensures IsDouble(d) && l.Reads(d)
  {
    hide DigitsVal, ReadsAs, AllDigits, Kept;
    ghost var digits := buffer[..significant];
    var n, e := significant, exponent as int;
    if dropped {
      buffer[n] := '1';
      n := n + 1;
      e := e - 1;
      assert buffer[..n] == digits + ['1'];
    }
    var s := buffer[..n];
    KeptDigits(l.whole + l.fraction, zeros, |l.fraction|, digits, kept, dropped);
    d := Strtod(s, e, machine);
    KeptReadsAlike(l.whole + l.fraction, zeros, |l.fraction|, digits, kept, dropped, l.exponent, d);
    ghost var x := kept + l.exponent - (if dropped then 1 else 0);
    if x != e {
      DigitsBound(s);
      OutOfRangeAlike(DigitsVal(s), |s|, e, x, d);
    }
  }

  /** What follows the point: zeros if no digit is kept yet, and further digits. */
  method FractionPart(text: seq<char>, point: nat, buffer: array<char>, significantBefore: nat, insignificant: nat,
                      droppedBefore: bool, ghost all: seq<char>, ghost zerosBefore: nat)
    returns (current: nat, exponent: int32, significant: nat, dropped: bool, allZeros: bool, ghost zeros: nat)
    requires point < |text| < 0x8000_0000 && buffer.Length == BUFFER_SIZE &&
      significantBefore <= MAX_SIGNIFICANT_DIGITS
    requires Kept(all, zerosBefore, 0, buffer[..significantBefore], insignificant, droppedBefore)
    modifies buffer
    ensures point <= current <= |text| && current == DigitsEnd(text, point)
    ensures allZeros ==> current == |text| && AllZeros(all + text[point..current])
    ensures !allZeros && significantBefore == 0 ==>
      current < |text| || ZerosInFront(text[point..current]) < current - point
    ensures significant <= MAX_SIGNIFICANT_DIGITS && (significant == 0 && exponent == 0 ==> current == point)
    ensures significant == 0 ==> significantBefore == 0
    ensures var skipped := if significantBefore == 0 then ZerosInFront(text[point..current]) else 0;
      && significant == Min(MAX_SIGNIFICANT_DIGITS, significantBefore + (current - point - skipped))
      && exponent == -skipped - (significant - significantBefore)
    ensures Kept(all + text[point..current], zeros, current - point, buffer[..significant],
      exponent + insignificant, dropped)
  {
    hide Kept, ZerosInFront, AllZeros, DigitsEnd;
    current, exponent, zeros := point, 0, zerosBefore;
    ghost var read := all;
    if significantBefore == 0 {
      current := SkipZeros(text, current);
      exponent := -(current - point);
      NothingKept(all, zerosBefore, insignificant, droppedBefore);
      assert buffer[..0] == [];
      zeros := zerosBefore + (current - point);
      read := all + text[point..current];
      MoreZeros(all, text[point..current]);
      DigitsEndAfter(text, point, current);
      if current == |text| {
        significant, dropped, allZeros := 0, false, true;
        ZerosSkipped(text, point, current, current);
        return;
      }
    }
    ghost var first := current;
    current, exponent, significant, dropped :=
      FractionDigits(text, current, buffer, exponent, significantBefore, insignificant, droppedBefore,
        read, zeros, first - point);
    assert read + text[first..current] == all + text[point..current];
    DigitsEndAfter(text, point, first);
    if significantBefore == 0 { ZerosSkipped(text, point, first, current); }
    allZeros := false;
  }

  lemma NothingKept(all: seq<char>, zeros: int, insignificant: int, dropped: bool)
    requires Kept(all, zeros, 0, [], insignificant, dropped)
    ensures zeros == |all| && insignificant == 0 && !dropped && AllZeros(all)
  {
  }

  lemma MoreZeros(all: seq<char>, more: seq<char>)
    requires AllZeros(all)
    requires AllZeros(more)
    ensures AllZeros(all + more)
    ensures Kept(all + more, |all| + |more|, |more|, [], 0 - |more|, false)
  {
  }

  /** Skipping zeros does not move the end of the digits. */
  lemma DigitsEndAfter(text: seq<char>, i: nat, k: nat)
    requires i <= k <= |text| && forall h :: i <= h < k ==> text[h] == '0'
    ensures DigitsEnd(text, i) == DigitsEnd(text, k)
  {
  }

  /** The reading of a text: the double its literal rounds to, if the whole text is a literal. */
  ghost predicate IsReading(text: seq<char>, r: Reading) {
    match r
    case Empty => text == []
    case Junk => text != [] && ParseLiteral(text).None?
    case Number(negative, d) =>
      match ParseLiteral(text)
      case None => false
      case Some(l) => l.negative == negative && IsDouble(d) && l.Reads(d)
  }

  lemma Parsed(text: seq<char>, negative: bool, whole: seq<char>, fraction: seq<char>, k: nat)
    requires text != [] && negative == (text[0] == '-')
    requires var j := DigitsEnd(text, Start(text));
      k == FractionEnd(text, j) && whole == text[Start(text)..j] && fraction == if j < k then text[j + 1..k] else []
    ensures whole + fraction == [] || ParseExponent(text, k).None? ==> IsReading(text, Junk)
    ensures whole + fraction != [] && ParseExponent(text, k).Some? ==>
      forall d: nat :: IsDouble(d) && Literal(negative, whole, fraction, ParseExponent(text, k).value).Reads(d) ==>
        IsReading(text, Number(negative, d))
  {
    hide DigitsEnd, FractionEnd, ParseExponent, Literal.Reads;
    var j := DigitsEnd(text, Start(text));
    assert |whole| == j - Start(text) && |whole + fraction| == |whole| + |fraction|;
    if whole + fraction == [] || ParseExponent(text, k).None? {
      assert ParseLiteral(text).None?;
    } else {
      assert ParseLiteral(text) == Some(Literal(negative, whole, fraction, ParseExponent(text, k).value));
    }
  }

  lemma KeptSize(all: seq<char>, zeros: int, fraction: int, buffer: seq<char>, exponent: int, dropped: bool)
    requires Kept(all, zeros, fraction, buffer, exponent, dropped)
    ensures 0 <= zeros && zeros + |buffer| <= |all|
  {
  }

  lemma ZerosReadAsZero(s: seq<char>)
    requires AllZeros(s)
    ensures forall e :: ReadsAs(DigitsVal(s), e, 0)
  {
    hide DigitsVal, ReadsAs;
    DigitsOfZeros(s);
    forall e ensures ReadsAs(DigitsVal(s), e, 0) { ZeroReadsAsZero(e); }
  }

  // ---- The counters

  function ZerosInFront(s: seq<char>): (n: nat)
    ensures n <= |s|
  {
    if s != [] && s[0] == '0' then 1 + ZerosInFront(s[1..]) else 0
  }

  lemma {:induction false} ZerosAre(s: seq<char>, n: nat)
    requires n <= |s| && (forall i :: 0 <= i < n ==> s[i] == '0') && (n < |s| ==> s[n] != '0')
    ensures ZerosInFront(s) == n
  {
    if n > 0 { ZerosAre(s[1..], n - 1); }
  }

  lemma ZerosSkipped(text: seq<char>, from: nat, first: nat, to: nat)
    requires from <= first <= to <= |text| && (forall i :: from <= i < first ==> text[i] == '0')
    requires first < to ==> text[first] != '0'
    ensures ZerosInFront(text[from..to]) == first - from
    ensures AllZeros(text[from..first])
  {
    ZerosAre(text[from..to], first - from);
  }

  lemma {:induction false} ZerosCount(s: seq<char>, t: seq<char>)
    ensures ZerosInFront(s + t) == if ZerosInFront(s) == |s| then |s| + ZerosInFront(t) else ZerosInFront(s)
    ensures AllZeros(s) ==> ZerosInFront(s) == |s|
  {
    if s == [] {
      assert s + t == t;
    } else {
      assert (s + t)[1..] == s[1..] + t;
      ZerosCount(s[1..], t);
    }
  }

  /** Digits before the point that find no room in the buffer. */
  ghost function Insignificant(whole: seq<char>): int {
    Max(0, |whole| - ZerosInFront(whole) - MAX_SIGNIFICANT_DIGITS)
  }

  /** Minus the places behind the point that the exponent has to make up for, when the exponent part begins: zeros
      in front of the first other digit, and digits in the buffer. */
  ghost function ExponentBefore(whole: seq<char>, fraction: seq<char>): int {
    var digits := |whole + fraction| - ZerosInFront(whole + fraction);
    |whole| - ZerosInFront(whole + fraction) - Min(MAX_SIGNIFICANT_DIGITS, digits) - Insignificant(whole)
  }

  /** The counters are in the range that the source asserts for the exponent, which leaves room for adding the
      exponent part; texts that are zero do not come so far. */
  ghost predicate CountersInRange(text: seq<char>) {
    var j := DigitsEnd(text, Start(text));
    var k := FractionEnd(text, j);
    var whole, fraction := text[Start(text)..j], if j < k then text[j + 1..k] else [];
    (k == |text| && AllZeros(whole + fraction)) ||
    (-(MAX_EXPONENT / 2) <= ExponentBefore(whole, fraction) && Insignificant(whole) <= MAX_EXPONENT / 2)
  }

  lemma ShortTextsAreInRange(text: seq<char>)
    requires |text| <= MAX_EXPONENT / 2
    ensures CountersInRange(text)
  {
    hide DigitsEnd, ZerosInFront;
    var j := DigitsEnd(text, Start(text));
    var k := FractionEnd(text, j);
    var whole, fraction := text[Start(text)..j], if j < k then text[j + 1..k] else [];
    assert |whole + fraction| == |whole| + |fraction| <= |text|;
  }

  lemma NoDigitsToCount(whole: seq<char>)
    ensures AllZeros(whole + []) ==> ExponentBefore(whole, []) == 0 && Insignificant(whole) == 0
  {
    assert whole + [] == whole;
    ZerosCount(whole, []);
  }

  /** The exponent only makes up for places behind the point. */
  lemma ExponentIsNotPositive(whole: seq<char>, fraction: seq<char>)
    ensures ExponentBefore(whole, fraction) <= 0
  {
    ZerosCount(whole, fraction);
  }

  /** A point, 2^29 zeros and a one, with an exponent: here the assertion fails. */
  lemma TooManyPlaces()
    ensures var zeros := seq(0x2000_0000, i => '0');
      ExponentBefore([], zeros + ['1']) == -0x2000_0001 && !CountersInRange(['.'] + zeros + ['1'] + ['e', '0'])
  {
    var fraction := seq(0x2000_0000, i => '0') + ['1'];
    var text := ['.'] + fraction + ['e', '0'];
    hide ZerosInFront;
    assert fraction[0x2000_0000] == '1';
    ZerosAre(fraction, 0x2000_0000);
    assert [] + fraction == fraction;
    ZerosAre([], 0);
    PlacesParsed(text, fraction);
    assert text == ['.'] + seq(0x2000_0000, i => '0') + ['1'] + ['e', '0'];
  }

  lemma PlacesParsed(text: seq<char>, fraction: seq<char>)
    requires text == ['.'] + fraction + ['e', '0'] && AllDigits(fraction)
    ensures DigitsEnd(text, Start(text)) == Start(text) == 0 && text[0..0] == []
    ensures FractionEnd(text, 0) == |fraction| + 1 && text[1..|fraction| + 1] == fraction
  {
    hide DigitsEnd;
    assert text[0..0] == [] && text[0] == '.' && text[|fraction| + 1] == 'e';
    assert text[1..|fraction| + 1] == fraction;
    DigitsEndIs(text, 0, 0);
    DigitsEndIs(text, 1, |fraction| + 1);
  }

  /** The digits before the point. */
  method IntegerPart(text: seq<char>, start: nat, buffer: array<char>)
    returns (current: nat, significant: nat, insignificant: nat, dropped: bool, leadingZero: bool, ghost zeros: nat)
    requires start < |text| && buffer.Length == BUFFER_SIZE
    modifies buffer
    ensures start <= current <= |text| && current == DigitsEnd(text, start)
    ensures significant <= MAX_SIGNIFICANT_DIGITS && insignificant == Insignificant(text[start..current])
    ensures significant + insignificant == current - start - ZerosInFront(text[start..current])
    ensures !leadingZero && significant == 0 <==> current == start
    ensures significant == 0 ==> AllZeros(text[start..current])
    ensures Kept(text[start..current], zeros, 0, buffer[..significant], insignificant, dropped)
  {
    hide Kept, DigitsEnd;
    leadingZero := text[start] == '0';
    current := SkipZeros(text, start);
    zeros := current - start;
    DigitsEndAfter(text, start, current);
    current, significant, insignificant, dropped := WholeDigits(text, current, zeros, buffer);
    KeptSize(text[start..current], zeros, 0, buffer[..significant], insignificant, dropped);
    ZerosAre(text[start..current], zeros);
  }

  /** What the two digit loops have counted. */
  lemma CountersAre(whole: seq<char>, fraction: seq<char>, before: nat, insignificant: nat, significant: nat,
                    exponent: int)
    requires before <= MAX_SIGNIFICANT_DIGITS && insignificant == Insignificant(whole)
    requires before + insignificant == |whole| - ZerosInFront(whole)
    requires var skipped := if before == 0 then ZerosInFront(fraction) else 0;
      && significant == Min(MAX_SIGNIFICANT_DIGITS, before + (|fraction| - skipped))
      && exponent == -skipped - (significant - before)
    ensures exponent == ExponentBefore(whole, fraction)
    ensures AllZeros(whole + fraction) ==> before == 0 && ZerosInFront(fraction) == |fraction|
  {
    hide AllZeros, ZerosInFront;
    ZerosCount(whole, fraction);
    ZerosCount(whole + fraction, []);
    assert whole + fraction + [] == whole + fraction;
  }

  /** All digits before and behind the point, and whether the text consists of zeros to its end. */
  method CopyDigits(text: seq<char>, start: nat, buffer: array<char>)
    returns (current: nat, exponent: int32, significant: nat, insignificant: nat, dropped: bool, leadingZero: bool,
             allZeros: bool, ghost whole: seq<char>, ghost fraction: seq<char>, ghost zeros: nat)
    requires start < |text| < 0x8000_0000 && buffer.Length == BUFFER_SIZE
    modifies buffer
    ensures var j := DigitsEnd(text, start);
      current == FractionEnd(text, j) && whole == text[start..j]
      && fraction == if j < current then text[j + 1..current] else []
    ensures !leadingZero && exponent == 0 && significant == 0 <==> whole + fraction == []
    ensures allZeros ==> current == |text| && whole + fraction != [] && AllZeros(whole + fraction)
    ensures !allZeros && current == |text| && AllZeros(whole + fraction) ==> fraction == []
    ensures significant <= MAX_SIGNIFICANT_DIGITS && insignificant == Insignificant(whole)
    ensures exponent == ExponentBefore(whole, fraction)
    ensures Kept(whole + fraction, zeros, |fraction|, buffer[..significant], exponent + insignificant, dropped)
  {
    hide Kept, DigitsEnd, AllZeros, ZerosInFront, ExponentBefore, Insignificant;
    current, significant, insignificant, dropped, leadingZero, zeros := IntegerPart(text, start, buffer);
    exponent, whole, fraction, allZeros := 0, text[start..current], [], false;
    assert whole + fraction == whole;
    ghost var before := significant;
    CountersAre(whole, fraction, before, insignificant, before, 0);
    if current == |text| {
      allZeros := significant == 0;
    } else if text[current] == '.' {
      current := current + 1;
      assert text[current..current] == [];
      if current < |text| {
        ghost var point := current;
        current, exponent, significant, dropped, allZeros, zeros :=
          FractionPart(text, current, buffer, significant, insignificant, dropped, whole, zeros);
        fraction := text[point..current];
        KeptSize(whole + fraction, zeros, |fraction|, buffer[..significant], exponent + insignificant, dropped);
        CountersAre(whole, fraction, before, insignificant, significant, exponent);
      }
    }
  }

  /** Everything behind the sign. */
  method UnsignedToIeee(text: seq<char>, start: nat, negative: bool, machine: Machine)
    returns (result: Reading, processed: nat)
    requires |text| < 0x8000_0000 && CountersInRange(text) && machine.IsIeee()
    requires start == Start(text) < |text| && negative == (text[0] == '-')
    ensures IsReading(text, result) && processed == if result.Number? then |text| else 0
  {
    hide Kept, DigitsVal, ReadsAs, Machine.IsIeee, ParseExponent, DigitsEnd, Start, IsReading, FractionEnd,
      ZerosInFront, AllZeros;
    NoExponent(text);
    var buffer := new char[BUFFER_SIZE];
    var current, exponent, significant, insignificant, dropped, leadingZero, allZeros;
    ghost var whole, fraction, zeros;
    current, exponent, significant, insignificant, dropped, leadingZero, allZeros, whole, fraction, zeros :=
      CopyDigits(text, start, buffer);
    Parsed(text, negative, whole, fraction, current);
    if allZeros {
      ZerosReadAsZero(whole + fraction);
      assert Literal(negative, whole, fraction, 0).Reads(0);
      return Number(negative, 0), |text|;
    }
    if !leadingZero && exponent == 0 && significant == 0 {
      return Junk, 0;
    }
    ghost var kept := exponent + insignificant;
    NoDigitsToCount(whole);
    ExponentIsNotPositive(whole, fraction);
    assert -(MAX_EXPONENT / 2) <= exponent <= 0 && insignificant <= MAX_EXPONENT / 2;
    if current < |text| {
      var ok, given := ExponentPart(text, current);
      if !ok { return Junk, 0; }
      exponent := exponent + given;
    }
    exponent := exponent + insignificant;
    ghost var l := Literal(negative, whole, fraction, ParseExponent(text, current).value);
    var d := Convert(buffer, significant, exponent, dropped, machine, l, zeros, kept);
    result, processed := Number(negative, d), |text|;
  }

  method StringToIeee(text: seq<char>, machine: Machine) returns (result: Reading, processed: nat)
    requires |text| < 0x8000_0000 && CountersInRange(text) && machine.IsIeee()
    ensures IsReading(text, result) && processed == if result.Number? then |text| else 0
  {
    hide Kept, DigitsVal, ReadsAs, Machine.IsIeee, ParseExponent, DigitsEnd;
    if text == [] { return Empty, 0; }
    var current, negative := 0, false;
    if IsSign(text[0]) {
      negative := text[0] == '-';
      current := 1;
      var next, found := AdvanceToNonspace(text, current);
      if !found || next != current {
        DigitsEndIs(text, 1, 1);
        return Junk, 0;
      }
    }
    result, processed := UnsignedToIeee(text, current, negative, machine);
  }
}
