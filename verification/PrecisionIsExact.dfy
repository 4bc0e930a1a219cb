/** In precision mode, too, the fast path and the exact path write the same digits. */
module PrecisionIsExact {
  import opened Arith
  import opened Decimal
  import opened GrisuIsExact
  import opened StartValues
  import CountedDtoa
  import ExactDtoa
  import FastCounted
  import FastDtoa

  /** What is the rounding of all values near w is closer to any one of them than the next number above it, and at least
      as close as the one below. */
  lemma CloserThanNeighbours(x: real, w: int, E: nat, q: int, k: int)
    requires FastDtoa.Near(x, w) && FastCounted.AllRounded(w, E, q, k)
    ensures FastDtoa.Off(x, E, q, k) < FastDtoa.Off(x, E, q + 1, k)
    ensures FastDtoa.Off(x, E, q, k) <= FastDtoa.Off(x, E, q - 1, k)
  {
    hide FastDtoa.Unit, FastDtoa.Ten;
    var above := (x + w as real + 1.0) / 2.0;
    assert FastCounted.Rounded(x, E, q, k) && FastCounted.Rounded(above, E, q, k);
    FastDtoa.UnitPositive(k);
    NeighbourGaps(x, above, FastDtoa.Unit(k), FastDtoa.Ten(k, E), q);
  }

  lemma NeighbourGaps(x: real, above: real, u: int, t: int, q: int)
    requires x < above && 0 < u
    requires 2.0 * FastDtoa.Gap(x, u, q * t) <= t as real && 2.0 * FastDtoa.Gap(above, u, q * t) <= t as real
    ensures FastDtoa.Gap(x, u, q * t) < FastDtoa.Gap(x, u, (q + 1) * t)
    ensures FastDtoa.Gap(x, u, q * t) <= FastDtoa.Gap(x, u, (q - 1) * t)
  {
    hide FastDtoa.Gap;
    var d := q * t;
    NextMultiples(q, t);
    var y, y' := x * u as real, above * u as real;
    RealScaled(x, above, u as real, y, y');
    GapIs(x, u, d, y);
    GapIs(above, u, d, y');
    GapIs(x, u, d + t, y);
    GapIs(x, u, d - t, y);
    LineGaps(y, y', d, t);
  }

  ghost function Away(d: real): real { if d < 0.0 then -d else d }

  lemma GapIs(x: real, u: int, v: int, y: real)
    requires y == x * u as real
    ensures FastDtoa.Gap(x, u, v) == Away(v as real - y)
  {
  }

  lemma RealScaled(x: real, y: real, u: real, xu: real, yu: real)
    requires x < y && 0.0 < u && xu == x * u && yu == y * u
    ensures xu < yu
  {
    assert 0.0 < (y - x) * u;
  }

  lemma LineGaps(y: real, y': real, d: int, t: int)
    requires y < y' && 2.0 * Away(d as real - y) <= t as real && 2.0 * Away(d as real - y') <= t as real
    ensures Away(d as real - y) < Away((d + t) as real - y)
    ensures Away(d as real - y) <= Away((d - t) as real - y)
  {
  }

  /** A number that is closer to v * 10^mk than its neighbours is v correctly rounded at that place. */
  lemma NearestIsRoundV(f: nat, e: int, mk: int, E: nat, q: int, place: int)
    requires 0 < f
    requires var x := TrueEnd(f, e, false, 0, mk, E);
      && FastDtoa.Off(x, E, q, place) < FastDtoa.Off(x, E, q + 1, place)
      && FastDtoa.Off(x, E, q, place) <= FastDtoa.Off(x, E, q - 1, place)
    ensures q == ExactDtoa.RoundV(f, e, mk - place)
  {
    hide FastDtoa.Off, TrueEnd, SameErrs, End, Den, Num, Err;
    var s := place - mk;
    OffIs(f, e, false, mk, E, q, q + 1, place);
    OffIs(f, e, false, mk, E, q - 1, q, place);
    var n0, d0, n, d := End(f, e, false, 0, -mk), 4 * Den(e, -mk), End(f, e, false, 0, s), 4 * Den(e, s);
    if place >= 0 {
      EndsMove(f, e, false, 0, -mk, place, place);
      SameOrder(n0, d0, n, d, place, 0, q, q + 1);
      SameOrder(n0, d0, n, d, place, 0, q - 1, q);
    } else {
      EndsMove(f, e, false, 0, s, -place, 0);
      SameOrder(n, d, n0, d0, 0, place, q, q + 1);
      SameOrder(n, d, n0, d0, 0, place, q - 1, q);
    }
    EndIsFour(f, e, s);
    NearestIsRounded(Num(f, e, s), Den(e, s), q);
  }

  /** Digits of the fast path are v correctly rounded at their last place. */
  lemma CountedIsRoundV(f: nat, e: int, mk: int, E: nat, w: int, q: int, place: int)
    requires 0 < f && FastDtoa.Near(TrueEnd(f, e, false, 0, mk, E), w) && FastCounted.AllRounded(w, E, q, place)
    ensures q == ExactDtoa.RoundV(f, e, mk - place)
  {
    hide FastDtoa.Off, TrueEnd;
    CloserThanNeighbours(TrueEnd(f, e, false, 0, mk, E), w, E, q, place);
    NearestIsRoundV(f, e, mk, E, q, place);
  }

  lemma EndIsFour(f: nat, e: int, s: int)
    requires 0 < f
    ensures End(f, e, false, 0, s) == 4 * Num(f, e, s) && 0 < Den(e, s)
  {
    hide Num, Den;
    ExactDtoa.NumGrows(f, e, s);
    MulAssoc(4, f, Num(1, e, s));
  }

  lemma NearestIsRounded(n: int, d: int, q: int)
    requires 0 < d
    requires Abs(Err(4 * n, 4 * d, q, 0)) < Abs(Err(4 * n, 4 * d, q + 1, 0))
    requires Abs(Err(4 * n, 4 * d, q, 0)) <= Abs(Err(4 * n, 4 * d, q - 1, 0))
    ensures q == CountedDtoa.RoundHalfUp(n, d)
  {
    hide Err;
    ErrOfInteger(n, d, q);
    ErrOfInteger(n, d, q + 1);
    ErrOfInteger(n, d, q - 1);
    NextMultiples(q, d);
    NearestMultiple(n, d, q, q * d);
  }

  lemma ErrOfInteger(n: int, d: int, q: int)
    ensures Err(4 * n, 4 * d, q, 0) == 4 * (q * d - n)
  {
    Pow1(10);
    MulAssoc(4, d, q);
  }

  lemma NextMultiples(q: int, d: int)
    ensures (q + 1) * d == q * d + d && (q - 1) * d == q * d - d
  {
  }

  /** The multiple x = q * d nearest to n, the upper one of two at the same distance. */
  lemma NearestMultiple(n: int, d: int, q: int, x: int)
    requires 0 < d && x == q * d
    requires Abs(4 * (x - n)) < Abs(4 * (x + d - n)) && Abs(4 * (x - n)) <= Abs(4 * (x - d - n))
    ensures q == CountedDtoa.RoundHalfUp(n, d)
  {
    MulAssoc(2, d, q);
    DivModUnique(2 * n + d, 2 * d, q, 2 * n + d - 2 * x);
  }

  // ---- The leading digit of v and of its approximation

  /** 10^r <= x < 10^(r + 1), x in units of 2^-E. */
  ghost predicate Leads(x: real, E: nat, r: int) {
    FastDtoa.Ten(r, E) as real <= x * FastDtoa.Unit(r) as real < (10 * FastDtoa.Ten(r, E)) as real
  }

  /** The leading digit of v, in the scale of the fast path. */
  lemma TrueLeads(f: nat, e: int, mk: int, E: nat, point: int)
    requires 0 < f
    ensures Leads(TrueEnd(f, e, false, 0, mk, E), E, point - 1 + mk) <==> ExactDtoa.LeadingAt(f, e, point)
  {
    hide TrueEnd, SameErrs, End, Den, Num, Err, FastDtoa.Ten, FastDtoa.Unit;
    var s, r := point - 1, point - 1 + mk;
    EndIsFour(f, e, s);
    OneAndTen(Num(f, e, s), Den(e, s));
    var n0, d0, n, d := End(f, e, false, 0, -mk), 4 * Den(e, -mk), End(f, e, false, 0, s), 4 * Den(e, s);
    if r >= 0 {
      EndsMove(f, e, false, 0, -mk, r, r);
      SameSigns(n0, d0, n, d, r, 0, 1);
      SameSigns(n0, d0, n, d, r, 0, 10);
    } else {
      EndsMove(f, e, false, 0, s, -r, 0);
      SameSigns(n, d, n0, d0, 0, r, 1);
      SameSigns(n, d, n0, d0, 0, r, 10);
    }
    TrueGap(f, e, false, 0, mk, E, 1, r);
    TrueGap(f, e, false, 0, mk, E, 10, r);
    var y := TrueEnd(f, e, false, 0, mk, E) * FastDtoa.Unit(r) as real;
    SignOfProduct((1 * FastDtoa.Ten(r, E)) as real - y, 4 * Den(e, -mk), Pow(2, E), EndErr(f, e, false, 0, -mk, 1, r));
    SignOfProduct((10 * FastDtoa.Ten(r, E)) as real - y, 4 * Den(e, -mk), Pow(2, E),
      EndErr(f, e, false, 0, -mk, 10, r));
  }

  lemma OneAndTen(n: int, d: int)
    ensures Err(4 * n, 4 * d, 1, 0) <= 0 < Err(4 * n, 4 * d, 10, 0) <==> d <= n < 10 * d
  {
    Pow1(10);
  }

  /** The leading digit of the approximation is in front of the point. */
  lemma LastPlaceLeads(w: int, E: nat, count: nat, place: int)
    requires E <= 60 && 0x4000_0000_0000_0000 <= w && 0 < count && FastCounted.LastPlace(w, E, count, place)
    ensures var s := place + count - 1; 0 <= s && FastDtoa.Ten(s, E) <= w < 10 * FastDtoa.Ten(s, E)
  {
    hide Pow;
    var s, two := place + count - 1, Pow(2, E);
    TwoBelow(E);
    Pow1(10);
    PowSucc(10, count - 1);
    if place >= 0 {
      PowAdd(10, count - 1, place);
      MulAssoc(Pow(10, count - 1), Pow(10, place), two);
    } else {
      var u := Pow(10, -place);
      if s < 0 {
        PowMono(10, count, -place);
        MulMono(Pow(10, count), u, two);
        MulMono(two, w, u);
        assert false;
      }
      PowAdd(10, s, -place);
      Unscaled(Pow(10, s), u, two, w);
    }
  }

  lemma Unscaled(x: int, u: int, two: int, w: int)
    requires 0 < u && (x * u) * two <= w * u < 10 * ((x * u) * two)
    ensures x * two <= w < 10 * (x * two)
  {
    assert (x * u) * two == (x * two) * u;
    MulCancel(x * two, w, u);
    MulCancel(w, 10 * (x * two), u);
  }

  lemma TwoBelow(E: nat)
    requires E <= 60
    ensures Pow(2, E) <= 0x1000_0000_0000_0000
  {
    hide Pow;
    Pow2Values();
    PowAdd(2, 28, 32);
    PowMono(2, E, 60);
  }

  /** The value has its leading digit where the approximation has it, but for one case: the approximation is exactly a
      power of ten that the value falls short of. */
  lemma LeadingOfValue(x: real, w: int, E: nat, s: int)
    requires 32 <= E <= 60 && FastDtoa.Near(x, w) && 0x4000_0000_0000_0000 <= w
    requires 0 <= s && FastDtoa.Ten(s, E) <= w < 10 * FastDtoa.Ten(s, E)
    ensures Leads(x, E, s) || (Leads(x, E, s - 1) && w == FastDtoa.Ten(s, E) && x < w as real)
  {
    hide Pow;
    TwoBelow(E);
    Pow1(10);
    if s > 0 {
      PowSucc(10, s - 1);
      MulAssoc(10, Pow(10, s - 1), Pow(2, E));
    }
  }

  /** There the approximation has no digit but a one and zeros, and the fast path rounds it to itself. */
  lemma FastPower(w: int, E: nat, fast: seq<char>, kappa: int, place: int)
    requires FastCounted.Counted(w, E, fast, kappa, place) && 0 <= place + |fast| - 1
    requires w == FastDtoa.Ten(place + |fast| - 1, E)
    ensures kappa == place && DigitsVal(fast) == Pow(10, |fast| - 1)
  {
    hide DigitsVal, Pow, FastDtoa.Ten, FastDtoa.Unit;
    var c := |fast| - 1;
    var q, t, u := DigitsVal(fast) * (if kappa == place then 1 else 10), FastDtoa.Ten(place, E), FastDtoa.Unit(place);
    PowerAtPlace(E, c, place);
    FastDtoa.TenPositive(place, E);
    assert FastCounted.Rounded(w as real, E, q, place);
    ExactlyRounded(w, u, q, t, Pow(10, c));
    Positive(fast);
    MulMono(1, Pow(10, c), 1);
  }

  lemma PowerAtPlace(E: nat, c: nat, place: int)
    requires 0 <= place + c
    ensures FastDtoa.Ten(place + c, E) * FastDtoa.Unit(place) == Pow(10, c) * FastDtoa.Ten(place, E)
  {
    hide Pow;
    Pow1(10);
    if place >= 0 {
      PowAdd(10, c, place);
      MulAssoc(Pow(10, c), Pow(10, place), Pow(2, E));
    } else {
      PowAdd(10, place + c, -place);
      MulAssoc(Pow(10, place + c), Pow(2, E), Pow(10, -place));
      MulAssoc(Pow(10, place + c), Pow(10, -place), Pow(2, E));
    }
  }

  lemma ExactlyRounded(w: int, u: int, q: int, t: int, p: int)
    requires 0 < t && w * u == p * t && 2.0 * FastDtoa.Gap(w as real, u, q * t) <= t as real
    ensures q == p
  {
    assert (w * u) as real == w as real * u as real;
    assert 2 * Abs(q * t - p * t) <= t;
    assert q * t - p * t == (q - p) * t;
    if q < p { MulMono(q - p, -1, t); } else if p < q { MulMono(1, q - p, t); }
  }

  /** The exact path rounds one place lower, and the value falls short of the power by so little
      that it rounds up to it. */
  lemma ExactPower(f: nat, e: int, mk: int, E: nat, w: int, count: nat, place: int)
    requires 0 < f && 32 <= E <= 60 && FastDtoa.Near(TrueEnd(f, e, false, 0, mk, E), w) && 0 < count && 0 <= place
    requires w == FastDtoa.Ten(place + count - 1, E) && TrueEnd(f, e, false, 0, mk, E) < w as real
    ensures ExactDtoa.RoundV(f, e, mk - (place - 1)) == Pow(10, count)
  {
    hide Pow, TrueEnd, FastDtoa.Unit, FastDtoa.Ten;
    var k := place - 1;
    PowerAtPlace(E, count, k);
    FastDtoa.UnitPositive(k);
    SmallUnit(E, k);
    JustBelow(TrueEnd(f, e, false, 0, mk, E), w, FastDtoa.Unit(k), FastDtoa.Ten(k, E), Pow(10, count));
    NearestIsRoundV(f, e, mk, E, Pow(10, count), k);
  }

  lemma SmallUnit(E: nat, k: int)
    requires 32 <= E <= 60 && -1 <= k
    ensures 2 * FastDtoa.Unit(k) <= FastDtoa.Ten(k, E)
  {
    hide Pow;
    FastDtoa.OneBounds(E);
    Pow1(10);
    MulMono(1, Pow(10, Max(k, 0)), Pow(2, E));
  }

  lemma JustBelow(x: real, w: int, u: int, t: int, q: int)
    requires w as real - 1.0 < x < w as real && 0 < u && 2 * u <= t && w * u == q * t
    ensures FastDtoa.Gap(x, u, q * t) < FastDtoa.Gap(x, u, (q + 1) * t)
    ensures FastDtoa.Gap(x, u, q * t) <= FastDtoa.Gap(x, u, (q - 1) * t)
  {
    hide FastDtoa.Gap;
    var d, y := q * t, x * u as real;
    NextMultiples(q, t);
    ScaledBetween(x, w, u, d, y);
    GapIs(x, u, d, y);
    GapIs(x, u, d + t, y);
    GapIs(x, u, d - t, y);
    LineGaps(y, d as real, d, t);
  }

  lemma ScaledBetween(x: real, w: int, u: int, d: int, y: real)
    requires w as real - 1.0 < x < w as real && 0 < u && w * u == d && y == x * u as real
    ensures d as real - u as real < y < d as real
  {
    RealProduct(w, u);
    RealLess(w as real, u as real);
    RealScaled(x, w as real, u as real, y, d as real);
    RealScaled(w as real - 1.0, x, u as real, d as real - u as real, y);
  }

  lemma RealProduct(w: int, u: int)
    ensures w as real * u as real == (w * u) as real
  {
  }

  lemma RealLess(w: real, u: real)
    ensures (w - 1.0) * u == w * u - u
  {
  }

  /** Digits with which the fast path succeeds are the leading digits of v, correctly rounded. */
  lemma CountedIsPrecision(f: nat, e: int, mk: int, E: nat, w: int, fast: seq<char>, kappa: int, place: int)
    returns (point: int)
    requires 0 < f && 32 <= E <= 60 && 0x4000_0000_0000_0000 <= w && FastDtoa.Near(TrueEnd(f, e, false, 0, mk, E), w)
    requires FastCounted.Counted(w, E, fast, kappa, place) && (place < 0 ==> 0 < w % Pow(2, E))
    ensures ExactDtoa.PrecisionAt(f, e, fast, |fast| + (kappa - mk), point)
  {
    hide DigitsVal, TrueEnd, FastCounted.AllRounded, FastCounted.LastPlace, ExactDtoa.RoundV, Pow, ExactDtoa.LeadingAt,
      FastDtoa.Ten, Leads;
    var s, count := place + |fast| - 1, |fast|;
    LastPlaceLeads(w, E, count, place);
    LeadingOfValue(TrueEnd(f, e, false, 0, mk, E), w, E, s);
    Pow1(10);
    if Leads(TrueEnd(f, e, false, 0, mk, E), E, s) {
      point := s + 1 - mk;
      TrueLeads(f, e, mk, E, point);
      CountedIsRoundV(f, e, mk, E, w, DigitsVal(fast) * (if kappa == place then 1 else 10), place);
    } else {
      point := s - mk;
      TrueLeads(f, e, mk, E, point);
      NoFraction(E, s);
      FastPower(w, E, fast, kappa, place);
      ExactPower(f, e, mk, E, w, count, place);
      PowSucc(10, count - 1);
    }
  }

  /** The digits of a precision are determined. */
  lemma PrecisionUnique(f: nat, e: int, s: seq<char>, decimalPoint: int, point: int,
                        s': seq<char>, decimalPoint': int, point': int)
    requires ExactDtoa.PrecisionAt(f, e, s, decimalPoint, point) &&
      ExactDtoa.PrecisionAt(f, e, s', decimalPoint', point')
    requires |s| == |s'|
    ensures s == s' && decimalPoint == decimalPoint'
  {
    hide DigitsVal, ExactDtoa.RoundV, Pow, ExactDtoa.LeadingAt;
    ExactDtoa.LeadingUnique(f, e, point, point');
    Positive(s);
    Positive(s');
    DigitsBound(s);
    DigitsBound(s');
    Pow1(10);
    PowSucc(10, |s| - 1);
    SameDigits(s, s');
  }

  /** In precision mode both paths write the same characters and the same decimal point, whenever the
      fast one succeeds. */
  lemma SamePrecision(f: nat, e: int, mk: int, E: nat, w: int, fast: seq<char>, kappa: int, place: int,
                      exact: seq<char>, decimalPoint: int, point: int)
    requires 0 < f && 32 <= E <= 60 && 0x4000_0000_0000_0000 <= w && FastDtoa.Near(TrueEnd(f, e, false, 0, mk, E), w)
    requires FastCounted.Counted(w, E, fast, kappa, place) && (place < 0 ==> 0 < w % Pow(2, E))
    requires ExactDtoa.PrecisionAt(f, e, exact, decimalPoint, point) && |exact| == |fast|
    ensures fast == exact && |fast| + (kappa - mk) == decimalPoint
  {
    hide TrueEnd, FastCounted.Counted, ExactDtoa.PrecisionAt, Pow;
    var fastPoint := CountedIsPrecision(f, e, mk, E, w, fast, kappa, place);
    PrecisionUnique(f, e, fast, |fast| + (kappa - mk), fastPoint, exact, decimalPoint, point);
  }

  lemma NoFraction(E: nat, s: int)
    requires 0 <= s
    ensures FastDtoa.Ten(s, E) % Pow(2, E) == 0
  {
    hide Pow;
    DivModUnique(FastDtoa.Ten(s, E), Pow(2, E), Pow(10, s), 0);
  }
}
