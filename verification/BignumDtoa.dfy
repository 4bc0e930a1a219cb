/** Exact conversion of v = numerator / denominator to decimal digits with bignums. */
module BignumDtoa {
  import opened Arith
  import opened BigitSeq
  import opened Decimal
  import opened BignumModel
  import opened ShortestSpec

  ghost predicate Distinct(a: Bignum, b: Bignum) {
    a != b && a.bigits != b.bigits
  }

  ghost predicate Small(b: Bignum)
    reads b, b.bigits
  {
    b.Valid() && b.Value() < P(CAPACITY) / 10
  }

  // ---- Shortest digits

  /** Before digit k of v = n0/d is generated: q holds the digits so far, n the scaled remainder, m and p the
      scaled deltas, and nothing with fewer places reads back. */
  ghost predicate Generating(iv: Interval, q: int, n: int, m: int, p: int, k: nat) {
    && 0 < iv.d && 0 < iv.minus && 0 < iv.plus && 0 <= n
    && iv.n * Pow(10, k) == 10 * q * iv.d + n
    && m == iv.minus * Pow(10, k) && p == iv.plus * Pow(10, k)
    && (if iv.even then n + p < 10 * iv.d else n + p <= 10 * iv.d)
    && (forall q', k' :: 0 <= k' < k ==> !iv.Fits(q', k'))
  }

  ghost predicate ReachesDown(iv: Interval, r: int, m: int) {
    if iv.even then r <= m else r < m
  }

  ghost predicate ReachesUp(iv: Interval, r: int, p: int) {
    if iv.even then iv.d <= r + p else iv.d < r + p
  }

  /** The rounding of the last digit: towards the only side that reads back, else to the closer one, else to even. */
  ghost predicate RoundsTo(iv: Interval, r: int, m: int, p: int, digit: int, up: bool) {
    && (ReachesDown(iv, r, m) || ReachesUp(iv, r, p))
    && (!ReachesUp(iv, r, p) ==> !up)
    && (!ReachesDown(iv, r, m) ==> up)
    && (ReachesDown(iv, r, m) && ReachesUp(iv, r, p) ==>
          up == (2 * r > iv.d || (2 * r == iv.d && digit % 2 != 0)))
  }

  lemma GeneratingStart(iv: Interval)
    requires iv.BelowTen()
    ensures Generating(iv, 0, iv.n, iv.minus, iv.plus, 0)
  {
  }

  lemma GeneratingFacts(iv: Interval, q: int, n: int, m: int, p: int, k: nat)
    requires Generating(iv, q, n, m, p, k)
    ensures 0 <= n < 10 * iv.d && 0 < m && 0 < p && 0 < iv.d
    ensures k == 0 && q == 0 ==> n == iv.n && m == iv.minus && p == iv.plus
  {
  }

  /** One digit: the division identity moves on, and the two tests decide whether anything reads back. */
  lemma GeneratingStep(iv: Interval, q: int, n: int, m: int, p: int, k: nat, digit: int, r: int)
    requires Generating(iv, q, n, m, p, k)
    requires n == digit * iv.d + r && 0 <= r < iv.d && 0 <= digit <= 9
    ensures iv.n * Pow(10, k) == (10 * q + digit) * iv.d + r
    ensures iv.Fits(10 * q + digit, k) == ReachesDown(iv, r, m)
    ensures iv.Fits(10 * q + digit + 1, k) == ReachesUp(iv, r, p)
    ensures ReachesUp(iv, r, p) ==> digit < 9
    ensures forall q', k' :: 0 <= k' < k ==> !iv.Fits(q', k')
  {
  }

  lemma GeneratingNext(iv: Interval, q: int, n: int, m: int, p: int, k: nat, digit: int, r: int)
    requires Generating(iv, q, n, m, p, k)
    requires n == digit * iv.d + r && 0 <= r < iv.d && 0 <= digit <= 9
    requires !ReachesDown(iv, r, m) && !ReachesUp(iv, r, p)
    ensures Generating(iv, 10 * q + digit, 10 * r, 10 * m, 10 * p, k + 1)
    ensures m <= r && p <= iv.d && (iv.minus + iv.plus) * Pow(10, k) <= iv.d
  {
    GeneratingStep(iv, q, n, m, p, k, digit, r);
    NothingFits(iv, k, 10 * q + digit, r);
    PowSucc(10, k);
    TenTimes(iv, Pow(10, k), 10 * q + digit, r);
  }

  lemma TenTimes(iv: Interval, s: int, q: int, r: int)
    requires iv.n * s == q * iv.d + r
    ensures iv.n * (10 * s) == 10 * q * iv.d + 10 * r
    ensures (iv.minus + iv.plus) * s == iv.minus * s + iv.plus * s
    ensures iv.minus * (10 * s) == 10 * (iv.minus * s) && iv.plus * (10 * s) == 10 * (iv.plus * s)
  {
  }

  method RoomTests(ghost iv: Interval, numerator: Bignum, deltaMinus: Bignum, deltaPlus: Bignum,
                   denominator: Bignum, isEven: bool)
    returns (inDeltaRoomMinus: bool, inDeltaRoomPlus: bool)
    requires numerator.Valid() && deltaMinus.Valid() && deltaPlus.Valid() && denominator.Valid()
    requires denominator.Value() == iv.d && isEven == iv.even
    ensures inDeltaRoomMinus == ReachesDown(iv, numerator.Value(), deltaMinus.Value())
    ensures inDeltaRoomPlus == ReachesUp(iv, numerator.Value(), deltaPlus.Value())
  {
    if isEven {
      inDeltaRoomMinus := Bignum.LessEqual(numerator, deltaMinus);
    } else {
      inDeltaRoomMinus := Bignum.Less(numerator, deltaMinus);
    }
    var c := Bignum.PlusCompare(numerator, deltaPlus, denominator);
    inDeltaRoomPlus := if isEven then c >= 0 else c > 0;
  }

  /** Which way the last digit is rounded once at least one direction reads back. */
  method RoundDecision(ghost iv: Interval, numerator: Bignum, denominator: Bignum, ghost m: int, ghost p: int,
                       roomMinus: bool, roomPlus: bool, digit: int)
    returns (up: bool)
    requires numerator.Valid() && denominator.Valid() && denominator.Value() == iv.d
    requires roomMinus == ReachesDown(iv, numerator.Value(), m) && roomPlus == ReachesUp(iv, numerator.Value(), p)
    requires roomMinus || roomPlus
    ensures RoundsTo(iv, numerator.Value(), m, p, digit, up)
  {
    if roomMinus && roomPlus {
      var compare := Bignum.PlusCompare(numerator, numerator, denominator);
      if compare < 0 {
        up := false;
      } else if compare > 0 {
        up := true;
      } else {
        up := digit % 2 != 0;
      }
    } else {
      up := roomPlus;
    }
  }

  /** The last digit, rounded: the choice is the closest number that reads back. */
  lemma RoundedIsClosest(iv: Interval, q: int, n: int, m: int, p: int, k: nat, digit: int, r: int, up: bool)
    requires Generating(iv, q, n, m, p, k)
    requires n == digit * iv.d + r && 0 <= r < iv.d && 0 <= digit <= 9
    requires RoundsTo(iv, r, m, p, digit, up)
    ensures IsShortest(iv, 10 * q + digit + (if up then 1 else 0), k)
    ensures up ==> digit < 9
  {
    GeneratingStep(iv, q, n, m, p, k, digit, r);
    PickClosest(iv, k, 10 * q + digit, r, digit, up);
  }

  lemma PickClosest(iv: Interval, k: nat, q: int, r: int, digit: int, up: bool)
    requires 0 < iv.d && 0 < iv.minus && 0 < iv.plus
    requires iv.n * Pow(10, k) == q * iv.d + r && 0 <= r < iv.d && (q - digit) % 10 == 0
    requires iv.Fits(q, k) || iv.Fits(q + 1, k)
    requires iv.Fits(q, k) && !iv.Fits(q + 1, k) ==> !up
    requires iv.Fits(q + 1, k) && !iv.Fits(q, k) ==> up
    requires iv.Fits(q, k) && iv.Fits(q + 1, k) ==> up == (2 * r > iv.d || (2 * r == iv.d && digit % 2 != 0))
    requires forall q', k' :: 0 <= k' < k ==> !iv.Fits(q', k')
    ensures IsShortest(iv, q + (if up then 1 else 0), k)
  {
    hide *;
    var c := q + if up then 1 else 0;
    assert digit % 2 == q % 2 by { Parity(q, digit); }
    ClosestNeighbor(iv, k, q, r, c);
    MakeShortest(iv, c, k);
  }

  lemma Parity(q: int, digit: int)
    requires (q - digit) % 10 == 0
    ensures digit % 2 == q % 2
  {
  }

  lemma MakeShortest(iv: Interval, c: int, k: nat)
    requires iv.Fits(c, k)
    requires forall q', k' :: 0 <= k' < k ==> !iv.Fits(q', k')
    requires forall x :: iv.Fits(x, k) ==> iv.Distance(c, k) <= iv.Distance(x, k)
    requires forall x :: iv.Fits(x, k) && x != c && iv.Distance(x, k) == iv.Distance(c, k) ==> c % 2 == 0
    ensures IsShortest(iv, c, k)
  {
  }

  /** buffer[length - 1]++ for a digit that is not '9'. */
  method BumpDigit(buffer: array<char>, length: nat)
    requires 0 < length <= buffer.Length && AllDigits(buffer[..length]) && buffer[length - 1] != '9'
    modifies buffer
    ensures AllDigits(buffer[..length]) && buffer[0] >= old(buffer[0])
    ensures DigitsVal(buffer[..length]) == old(DigitsVal(buffer[..length])) + 1
    ensures length == 1 ==> buffer[0] != '0'
  {
    ghost var before := buffer[..length];
    assert IsDigit(before[length - 1]);
    var c := CharOf(DigitOf(buffer[length - 1]) + 1);
    buffer[length - 1] := c;
    assert buffer[..length][..length - 1] == before[..length - 1];
  }

  /** Generates the shortest digits of v = numerator / denominator; the buffer must have room for maxDigits, a
      number of places at which the interval is wider than one unit. If both deltas are equal, delta_plus is
      replaced by a reference to delta_minus, so that a single bignum plays both parts. */
  method GenerateShortestDigits(numerator: Bignum, denominator: Bignum, deltaMinus: Bignum, deltaPlus: Bignum,
                                isEven: bool, buffer: array<char>, ghost maxDigits: nat)
    returns (length: nat)
    requires numerator.Valid() && Small(denominator) && deltaMinus.Valid() && deltaPlus.Valid()
    requires Distinct(numerator, denominator) && Distinct(numerator, deltaMinus) && Distinct(numerator, deltaPlus)
    requires Distinct(denominator, deltaMinus) && Distinct(denominator, deltaPlus) && Distinct(deltaMinus, deltaPlus)
    requires var iv := Interval(numerator.Value(), denominator.Value(), deltaMinus.Value(), deltaPlus.Value(), isEven);
      && iv.BelowTen()
      && 0 < maxDigits <= buffer.Length && iv.d < (iv.minus + iv.plus) * Pow(10, maxDigits - 1)
    modifies numerator, numerator.bigits, deltaMinus, deltaMinus.bigits, deltaPlus, deltaPlus.bigits, buffer
    ensures 0 < length <= maxDigits && AllDigits(buffer[..length])
    ensures var iv := old(Interval(numerator.Value(), denominator.Value(), deltaMinus.Value(),
                 deltaPlus.Value(), isEven));
      && IsShortest(iv, DigitsVal(buffer[..length]), length - 1)
      && (iv.AtLeastOne() ==> buffer[0] != '0')
  {
    hide P, Pow, IsShortest, Generating, Bignum.Value, Bignum.Shape, Bignum.IsClamped;
    ghost var iv := Interval(numerator.Value(), denominator.Value(), deltaMinus.Value(), deltaPlus.Value(), isEven);
    var plus := deltaPlus;
    var same := Bignum.Equal(deltaMinus, deltaPlus);
    if same { plus := deltaMinus; }
    length := 0;
    GeneratingStart(iv);
    assert buffer[..0] == [];
    while true
      invariant 0 <= length < maxDigits
      invariant numerator.Valid() && deltaMinus.Valid() && deltaPlus.Valid() && Small(denominator)
      invariant denominator.Value() == iv.d
      invariant plus == deltaPlus || plus == deltaMinus
      invariant AllDigits(buffer[..length])
      invariant Generating(iv, DigitsVal(buffer[..length]), numerator.Value(), deltaMinus.Value(), plus.Value(), length)
      invariant length == 0 ==> DigitsVal(buffer[..length]) == 0
      invariant length > 0 && iv.AtLeastOne() ==> buffer[0] != '0'
      decreases maxDigits - length
    {
      var done := ShortestStep(iv, numerator, denominator, deltaMinus, plus, deltaPlus, isEven,
        buffer, maxDigits, length);
      length := length + 1;
      if done { return; }
    }
  }

  /** One round of the digit loop. */
  method ShortestStep(ghost iv: Interval, numerator: Bignum, denominator: Bignum, deltaMinus: Bignum,
                      plus: Bignum, deltaPlus: Bignum, isEven: bool, buffer: array<char>,
                      ghost maxDigits: nat, length: nat)
    returns (done: bool)
    requires numerator.Valid() && Small(denominator) && deltaMinus.Valid() && deltaPlus.Valid()
    requires Distinct(numerator, denominator) && Distinct(numerator, deltaMinus) && Distinct(numerator, deltaPlus)
    requires Distinct(denominator, deltaMinus) && Distinct(denominator, deltaPlus) && Distinct(deltaMinus, deltaPlus)
    requires plus == deltaPlus || plus == deltaMinus
    requires denominator.Value() == iv.d && isEven == iv.even
    requires length < maxDigits <= buffer.Length && iv.d < (iv.minus + iv.plus) * Pow(10, maxDigits - 1)
    requires AllDigits(buffer[..length]) && (length == 0 ==> DigitsVal(buffer[..length]) == 0)
    requires Generating(iv, DigitsVal(buffer[..length]), numerator.Value(), deltaMinus.Value(), plus.Value(), length)
    requires length > 0 && iv.AtLeastOne() ==> buffer[0] != '0'
    modifies numerator, numerator.bigits, deltaMinus, deltaMinus.bigits, deltaPlus, deltaPlus.bigits, buffer
    ensures AllDigits(buffer[..length + 1])
    ensures iv.AtLeastOne() ==> buffer[0] != '0'
    ensures done ==> IsShortest(iv, DigitsVal(buffer[..length + 1]), length)
    ensures !done ==> length + 1 < maxDigits
    ensures !done ==> numerator.Valid() && deltaMinus.Valid() && deltaPlus.Valid()
    ensures !done ==>
      Generating(iv, DigitsVal(buffer[..length + 1]), numerator.Value(), deltaMinus.Value(), plus.Value(), length + 1)
  {
    hide P, Pow, IsShortest, Generating, ReachesDown, ReachesUp, RoundsTo, DigitsVal, Bignum.Value,
      Bignum.Shape, Bignum.IsClamped;
    ghost var q, n, m, p := DigitsVal(buffer[..length]), numerator.Value(), deltaMinus.Value(), plus.Value();
    GeneratingFacts(iv, q, n, m, p, length);
    var digit := NextDigit(numerator, denominator);
    ghost var r := numerator.Value();
    PutDigit(buffer, length, digit);
    if length == 0 && digit == 0 && iv.AtLeastOne() { FirstDigit(iv, r, digit); }
    var roomMinus, roomPlus := RoomTests(iv, numerator, deltaMinus, plus, denominator, isEven);
    done := roomMinus || roomPlus;
    if done {
      FinishDigits(iv, q, n, numerator, denominator, m, p, roomMinus, roomPlus, digit, buffer, length);
    } else {
      GeneratingNext(iv, q, n, m, p, length, digit, r);
      StillRoom(iv, maxDigits, length);
      ScaleUp(numerator, deltaMinus, plus, deltaPlus);
    }
  }

  /** The end of the digit loop: rounds the last digit and stops. */
  method FinishDigits(ghost iv: Interval, ghost q: int, ghost n: int, numerator: Bignum, denominator: Bignum,
                      ghost m: int, ghost p: int, roomMinus: bool, roomPlus: bool, digit: int,
                      buffer: array<char>, length: nat)
    requires numerator.Valid() && denominator.Valid() && denominator.Value() == iv.d
    requires length < buffer.Length && AllDigits(buffer[..length + 1]) && 0 <= digit <= 9
    requires DigitsVal(buffer[..length + 1]) == 10 * q + digit && buffer[length] == CharOf(digit)
    requires Generating(iv, q, n, m, p, length)
    requires n == digit * iv.d + numerator.Value() && 0 <= numerator.Value() < iv.d
    requires roomMinus == ReachesDown(iv, numerator.Value(), m) && roomPlus == ReachesUp(iv, numerator.Value(), p)
    requires roomMinus || roomPlus
    requires iv.AtLeastOne() && buffer[0] == '0' ==> length == 0 && !roomMinus
    modifies buffer
    ensures AllDigits(buffer[..length + 1]) && IsShortest(iv, DigitsVal(buffer[..length + 1]), length)
    ensures iv.AtLeastOne() ==> buffer[0] != '0'
  {
    hide P, Pow, IsShortest, Generating, DigitsVal, Bignum.Value, Bignum.Shape, Bignum.IsClamped;
    var up := RoundDecision(iv, numerator, denominator, m, p, roomMinus, roomPlus, digit);
    RoundedIsClosest(iv, q, n, m, p, length, digit, numerator.Value(), up);
    if up {
      assert buffer[length] != '9';
      BumpDigit(buffer, length + 1);
    }
  }

  /** A leading zero would round up: v is above its lower delta, and its upper end reaches one. */
  lemma FirstDigit(iv: Interval, r: int, digit: int)
    requires 0 < iv.d && iv.n == digit * iv.d + r && digit == 0 && iv.AtLeastOne()
    ensures !ReachesDown(iv, r, iv.minus) && ReachesUp(iv, r, iv.plus)
  {
  }

  /** The loop cannot run past the buffer: an interval that wide would have been met. */
  lemma StillRoom(iv: Interval, capacity: nat, length: nat)
    requires length < capacity && (iv.minus + iv.plus) * Pow(10, length) <= iv.d
    requires iv.d < (iv.minus + iv.plus) * Pow(10, capacity - 1)
    ensures length + 1 < capacity
  {
  }

  method NextDigit(numerator: Bignum, denominator: Bignum) returns (digit: uint16)
    requires numerator.Valid() && Small(denominator) && Distinct(numerator, denominator)
    requires 0 <= numerator.Value() < 10 * denominator.Value()
    modifies numerator, numerator.bigits
    ensures numerator.Valid() && 0 <= digit <= 9
    ensures old(numerator.Value()) == digit * denominator.Value() + numerator.Value()
    ensures 0 <= numerator.Value() < denominator.Value()
  {
    hide P, Val, Scale, Times;
    ghost var n, d := numerator.Value(), denominator.Value();
    numerator.LengthBelow(CAPACITY);
    denominator.LengthBounds();
    digit := numerator.DivideModuloIntBignum(denominator);
    DivMod(n, d);
    MulCancel(digit, 10, d);
  }

  method ScaleUp(numerator: Bignum, deltaMinus: Bignum, plus: Bignum, deltaPlus: Bignum)
    requires Small(numerator) && Small(deltaMinus) && Small(plus) && deltaPlus.Valid()
    requires plus == deltaPlus || plus == deltaMinus
    requires Distinct(numerator, deltaMinus) && Distinct(numerator, deltaPlus) && Distinct(deltaMinus, deltaPlus)
    modifies numerator, numerator.bigits, deltaMinus, deltaMinus.bigits, deltaPlus, deltaPlus.bigits
    ensures numerator.Valid() && deltaMinus.Valid() && deltaPlus.Valid()
    ensures numerator.Value() == 10 * old(numerator.Value())
    ensures deltaMinus.Value() == 10 * old(deltaMinus.Value())
    ensures plus.Value() == 10 * old(plus.Value())
  {
    hide P, Bignum.Value, Bignum.Shape, Bignum.IsClamped;
    numerator.Times10();
    deltaMinus.Times10();
    if deltaMinus != plus {
      plus.Times10();
    }
  }
}
