/** What the shortest and the correctly rounded decimal of a rational number are, without any algorithm. */
module ShortestSpec {
  import opened Arith

  /** The decimals that read back as v = n/d: those between (n - minus)/d and (n + plus)/d, the ends included
      just when the significand of v is even. */
  datatype Interval = Interval(n: int, d: int, minus: int, plus: int, even: bool) {
    /** x/d lies in the interval, all parts having been multiplied by scale. */
    ghost predicate Room(scale: int, x: int) {
      var v := n * scale;
      if even then v - minus * scale <= x <= v + plus * scale else v - minus * scale < x < v + plus * scale
    }

    /** The decimal q / 10^k reads back as v. */
    ghost predicate Fits(q: int, k: nat) {
      Room(Pow(10, k), q * d)
    }

    /** How far q / 10^k is from v, in units of 1/(d * 10^k). */
    ghost function Distance(q: int, k: nat): int {
      Abs(q * d - n * Pow(10, k))
    }

    /** The precondition of the digit loop: the upper end is at most 10, and 10 itself does not read back. */
    ghost predicate BelowTen() {
      0 <= n && 0 < d && 0 < minus && 0 < plus && (if even then n + plus < 10 * d else n + plus <= 10 * d)
    }

    /** The precondition for a non-zero first digit. */
    ghost predicate AtLeastOne() {
      minus < n && if even then d <= n + plus else d < n + plus
    }
  }

  /** The digits of the shortest decimal: q / 10^k fits, nothing with fewer places does, and no other
      decimal with k places that fits is closer; of two equally close ones the even one is taken. */
  ghost predicate IsShortest(iv: Interval, q: int, k: nat) {
    && iv.Fits(q, k)
    && (forall q', k' :: 0 <= k' < k ==> !iv.Fits(q', k'))
    && (forall q' :: iv.Fits(q', k) ==> iv.Distance(q, k) <= iv.Distance(q', k))
    && (forall q' :: iv.Fits(q', k) && q' != q && iv.Distance(q', k) == iv.Distance(q, k) ==> q % 2 == 0)
  }

  /** One step of the digit loop at scale s: q is the integer part and r the remainder. Which integers fit
      is decided by q and q + 1 alone. */
  lemma RoomAround(iv: Interval, s: int, q: int, r: int, x: int)
    requires 0 < s && 0 < iv.d && 0 < iv.minus && 0 < iv.plus
    requires iv.n * s == q * iv.d + r && 0 <= r < iv.d
    ensures iv.Room(s, q * iv.d) <==> if iv.even then r <= iv.minus * s else r < iv.minus * s
    ensures iv.Room(s, (q + 1) * iv.d) <==> if iv.even then iv.d <= r + iv.plus * s else iv.d < r + iv.plus * s
    ensures iv.Room(s, x * iv.d) ==>
      if x <= q then iv.Room(s, q * iv.d) else iv.Room(s, (q + 1) * iv.d)
  {
    var m, p := iv.minus * s, iv.plus * s;
    MulStrict(0, iv.minus, s);
    MulStrict(0, iv.plus, s);
    assert (q + 1) * iv.d == q * iv.d + iv.d;
    if x <= q { MulMono(x, q, iv.d); } else { MulMono(q + 1, x, iv.d); }
  }

  /** If neither neighbour fits at this scale, nothing does. */
  lemma NothingFits(iv: Interval, k: nat, q: int, r: int)
    requires 0 < iv.d && 0 < iv.minus && 0 < iv.plus
    requires iv.n * Pow(10, k) == q * iv.d + r && 0 <= r < iv.d
    requires !iv.Fits(q, k) && !iv.Fits(q + 1, k)
    ensures forall x :: !iv.Fits(x, k)
  {
    forall x ensures !iv.Fits(x, k) {
      RoomAround(iv, Pow(10, k), q, r, x);
    }
  }

  /** The rounding decision of the last digit picks the closest fitting integer. */
  lemma ClosestNeighbor(iv: Interval, k: nat, q: int, r: int, c: int)
    requires 0 < iv.d && 0 < iv.minus && 0 < iv.plus
    requires iv.n * Pow(10, k) == q * iv.d + r && 0 <= r < iv.d
    requires c == q || c == q + 1
    requires iv.Fits(c, k)
    requires iv.Fits(q, k) && iv.Fits(q + 1, k) ==>
      (2 * r < iv.d ==> c == q) && (2 * r > iv.d ==> c == q + 1) && (2 * r == iv.d ==> c % 2 == 0)
    ensures forall x :: iv.Fits(x, k) ==> iv.Distance(c, k) <= iv.Distance(x, k)
    ensures forall x :: iv.Fits(x, k) && x != c && iv.Distance(x, k) == iv.Distance(c, k) ==> c % 2 == 0
  {
    forall x | iv.Fits(x, k)
      ensures iv.Distance(c, k) <= iv.Distance(x, k)
      ensures x != c && iv.Distance(x, k) == iv.Distance(c, k) ==> c % 2 == 0
    {
      RoomAround(iv, Pow(10, k), q, r, x);
      DistanceOf(iv, k, q, r, x);
      DistanceOf(iv, k, q, r, q);
      DistanceOf(iv, k, q, r, q + 1);
    }
  }

  lemma DistanceOf(iv: Interval, k: nat, q: int, r: int, x: int)
    requires 0 < iv.d && iv.n * Pow(10, k) == q * iv.d + r && 0 <= r < iv.d
    ensures x == q ==> iv.Distance(x, k) == r
    ensures x == q + 1 ==> iv.Distance(x, k) == iv.d - r
    ensures x < q ==> iv.Distance(x, k) > r
    ensures x > q + 1 ==> iv.Distance(x, k) > iv.d - r
    ensures x < q ==> iv.Distance(x, k) >= iv.d + r
    ensures x > q + 1 ==> iv.Distance(x, k) >= 2 * iv.d - r
  {
    MultipleApart(iv.d, q, x);
    assert x * iv.d - iv.n * Pow(10, k) == (x * iv.d - q * iv.d) - r;
  }

  lemma MultipleApart(d: int, q: int, x: int)
    requires 0 < d
    ensures x == q + 1 ==> x * d - q * d == d
    ensures x < q ==> x * d - q * d <= -d
    ensures x > q + 1 ==> x * d - q * d >= 2 * d
  {
    if x < q { MulMono(x, q - 1, d); } else if x > q + 1 { MulMono(q + 2, x, d); }
  }

  /** Fewest digits overall: no decimal f / 10^k that reads back as v, whatever its exponent, has fewer
      digits than the shortest one has. */
  lemma FewestDigits(iv: Interval, q: int, length: nat, f: int, k: nat, digits: nat)
    requires iv.BelowTen() && iv.AtLeastOne() && 0 < length && IsShortest(iv, q, length - 1)
    requires iv.Fits(f, k) && f < Pow(10, digits)
    ensures length <= digits
  {
    Pow1(10);
    NonPositive(iv, f, Pow(10, k));
    if digits < length <= k + 1 {
      PowMono(10, digits, k);
      OneFits(iv, f, Pow(10, k));
      assert iv.Fits(1, 0);
    }
  }

  /** If a number below one reads back as v, so does one. */
  lemma OneFits(iv: Interval, f: int, s: int)
    requires iv.BelowTen() && iv.AtLeastOne() && 0 < s && f < s && iv.Room(s, f * iv.d)
    ensures iv.Room(1, 1 * iv.d)
  {
    MulStrict(f, s, iv.d);
    LowEnd(iv.n, iv.minus, iv.d, s, f * iv.d);
  }

  lemma LowEnd(n: int, minus: int, d: int, s: int, x: int)
    requires 0 < s && n * s - minus * s <= x < s * d
    ensures n - minus < d
  {
  }

  lemma NonPositive(iv: Interval, f: int, s: int)
    requires 0 < s && 0 < iv.d && iv.AtLeastOne() && iv.Room(s, f * iv.d)
    ensures 0 < f
  {
  }

  /** The same for a decimal f * 10^e with a positive exponent: it is an integer. */
  lemma FewestDigitsInteger(iv: Interval, q: int, length: nat, f: int, e: nat, digits: nat)
    requires iv.BelowTen() && iv.AtLeastOne() && 0 < length && IsShortest(iv, q, length - 1)
    requires iv.Fits(f * Pow(10, e), 0) && f < Pow(10, digits)
    ensures length <= digits
  {
    Pow1(10);
    NonPositive(iv, f * Pow(10, e), 1);
    if f <= 0 { MulMono(f, 0, Pow(10, e)); }
  }
}
