/** The fast path and the exact path give the same shortest number. */
module GrisuIsExact {
  import opened Arith
  import opened Decimal
  import opened ShortestSpec
  import opened StartValues
  import ExactDtoa
  import FastDtoa

  // ---- A decimal m * 10^p against a ratio, without division

  /** The difference of m * 10^p and n / d, times d and times 10^-p if p is negative. */
  ghost function Err(n: int, d: int, m: int, p: int): int {
    m * Pow(10, Max(p, 0)) * d - n * Pow(10, Max(-p, 0))
  }

  /** Dividing the ratio by ten and the decimal by ten scales the difference by a positive factor. */
  lemma ErrShift(n: int, d: int, n': int, d': int, up: bool, m: int, p: int)
    requires if up then n' == n && d' == 10 * d else n == 10 * n' && d' == d
    ensures var a := Err(n, d, m, p); var b := Err(n', d', m, p - 1);
      if up && p <= 0 then b == 10 * a else if !up && p > 0 then a == 10 * b else a == b
  {
  }

  lemma TenIn(x: int, y: int)
    ensures x * (10 * y) == 10 * (x * y)
  {
  }

  /** The signs of the differences, and how they compare, do not depend on the power of ten both are divided by. */
  ghost predicate SameErrs(n: int, d: int, n': int, d': int, p: int, p': int) {
    exists c, c' :: SameScale(n, d, n', d', p, p', c, c')
  }

  ghost predicate SameScale(n: int, d: int, n': int, d': int, p: int, p': int, c: int, c': int) {
    0 < c && 0 < c' && forall m :: c * Err(n, d, m, p) == c' * Err(n', d', m, p')
  }

  /** v / 10^s against v / 10^(s + n): v is f * 2^e times a small constant. */
  lemma {:induction false} ErrMoves(f: nat, e: int, g: int, h: int, s: int, n: nat, p: int)
    ensures SameErrs(g * Num(f, e, s), h * Den(e, s), g * Num(f, e, s + n), h * Den(e, s + n), p, p - n)
    decreases n
  {
    hide Err, Num, Den;
    if n == 0 {
      assert SameScale(g * Num(f, e, s), h * Den(e, s), g * Num(f, e, s), h * Den(e, s), p, p, 1, 1);
    } else {
      ErrMoves(f, e, g, h, s, n - 1, p);
      var n1, d1 := g * Num(f, e, s + n - 1), h * Den(e, s + n - 1);
      var n2, d2 := g * Num(f, e, s + n), h * Den(e, s + n);
      var c, c' :| SameScale(g * Num(f, e, s), h * Den(e, s), n1, d1, p, p - n + 1, c, c');
      ExactDtoa.PreviousPower(f, e, s + n);
      var up, p1, p2 := s + n > 0, p - n + 1, p - n;
      var a, b := if up && p1 <= 0 then 10 else 1, if !up && p1 > 0 then 10 else 1;
      TenIn(g, Num(f, e, s + n));
      TenIn(h, Den(e, s + n - 1));
      forall m ensures a * Err(n1, d1, m, p1) == b * Err(n2, d2, m, p2) {
        ErrShift(n1, d1, n2, d2, up, m, p1);
      }
      OneMoreStep(g * Num(f, e, s), h * Den(e, s), n1, d1, n2, d2, p, p1, p2, c, c', a, b);
    }
  }

  lemma OneMoreStep(n0: int, d0: int, n1: int, d1: int, n2: int, d2: int, p0: int, p1: int, p2: int,
                    c: int, c': int, a: int, b: int)
    requires SameScale(n0, d0, n1, d1, p0, p1, c, c') && 0 < a && 0 < b
    requires forall m :: a * Err(n1, d1, m, p1) == b * Err(n2, d2, m, p2)
    ensures SameErrs(n0, d0, n2, d2, p0, p2)
  {
    hide Err;
    MulStrict(0, a, c);
    MulStrict(0, b, c');
    forall m ensures (a * c) * Err(n0, d0, m, p0) == (b * c') * Err(n2, d2, m, p2) {
      var x, y, z := Err(n0, d0, m, p0), Err(n1, d1, m, p1), Err(n2, d2, m, p2);
      MulAssoc(a, c, x);
      MulAssoc(a, c', y);
      MulAssoc(c', a, y);
      MulAssoc(c', b, z);
      assert c * x == c' * y && a * y == b * z;
    }
    assert SameScale(n0, d0, n2, d2, p0, p2, a * c, b * c');
  }

  lemma SameSigns(n: int, d: int, n': int, d': int, p: int, p': int, m: int)
    requires SameErrs(n, d, n', d', p, p')
    ensures 0 <= Err(n, d, m, p) <==> 0 <= Err(n', d', m, p')
    ensures 0 < Err(n, d, m, p) <==> 0 < Err(n', d', m, p')
  {
  }

  lemma SameOrder(n: int, d: int, n': int, d': int, p: int, p': int, m: int, q: int)
    requires SameErrs(n, d, n', d', p, p')
    ensures Abs(Err(n, d, m, p)) < Abs(Err(n, d, q, p)) <==> Abs(Err(n', d', m, p')) < Abs(Err(n', d', q, p'))
  {
    hide Err;
    var c, c' :| SameScale(n, d, n', d', p, p', c, c');
    ScaledAbs(c, Err(n, d, m, p), c', Err(n', d', m, p'));
    ScaledAbs(c, Err(n, d, q, p), c', Err(n', d', q, p'));
    MulCancel(Abs(Err(n, d, m, p)), Abs(Err(n, d, q, p)), c);
    MulCancel(Abs(Err(n', d', m, p')), Abs(Err(n', d', q, p')), c');
  }

  lemma ScaledAbs(c: int, x: int, c': int, y: int)
    requires 0 < c && 0 < c' && c * x == c' * y
    ensures c * Abs(x) == c' * Abs(y)
  {
  }

  // ---- The interval of v, at the power of the exact path and at that of the fast path

  /** The numerator of the lower end, the value or the upper end of the interval, over the denominator 4 * Den. */
  ghost function End(f: int, e: int, closer: bool, which: int, s: int): int {
    (4 * f + (if which < 0 then if closer then -1 else -2 else if which > 0 then 2 else 0)) * Num(1, e, s)
  }

  lemma Ends(f: nat, e: int, closer: bool, s: int)
    requires 0 < f
    ensures var iv := ExactDtoa.Exact(f, e, closer, s);
      && iv.n - iv.minus == End(f, e, closer, -1, s) && iv.n == End(f, e, closer, 0, s)
      && iv.n + iv.plus == End(f, e, closer, 1, s) && iv.d == 4 * Den(e, s)
  {
    hide Num, Den;
    ExactDtoa.NumGrows(f, e, s);
    var u := Num(1, e, s);
    assert (4 * f - 1) * u == 4 * (f * u) - u && (4 * f - 2) * u == 4 * (f * u) - 2 * u;
    assert (4 * f + 2) * u == 4 * (f * u) + 2 * u && (4 * f) * u == 4 * (f * u);
  }

  ghost function EndErr(f: int, e: int, closer: bool, which: int, s: int, m: int, p: int): int {
    Err(End(f, e, closer, which, s), 4 * Den(e, s), m, p)
  }

  lemma EndsMove(f: nat, e: int, closer: bool, which: int, s: int, n: nat, p: int)
    ensures SameErrs(End(f, e, closer, which, s), 4 * Den(e, s),
                     End(f, e, closer, which, s + n), 4 * Den(e, s + n), p, p - n)
  {
    hide Num, Den, SameErrs;
    ErrMoves(1, e, 4 * f + (if which < 0 then if closer then -1 else -2 else if which > 0 then 2 else 0), 4, s, n, p);
  }

  /** Reading back as v, and the distance from v, in terms of differences. */
  lemma FitsIs(f: nat, e: int, closer: bool, s: int, m: int, j: nat)
    requires 0 < f
    ensures var iv := ExactDtoa.Exact(f, e, closer, s);
      && (iv.Fits(m, j) <==> if f % 2 == 0
          then 0 <= EndErr(f, e, closer, -1, s, m, 0 - j) && 0 >= EndErr(f, e, closer, 1, s, m, 0 - j)
          else 0 < EndErr(f, e, closer, -1, s, m, 0 - j) && 0 > EndErr(f, e, closer, 1, s, m, 0 - j))
      && iv.Distance(m, j) == Abs(EndErr(f, e, closer, 0, s, m, 0 - j))
  {
    hide Num, Den, Pow;
    Ends(f, e, closer, s);
    Pow1(10);
    var iv, x := ExactDtoa.Exact(f, e, closer, s), Pow(10, j);
    assert iv.n * x - iv.minus * x == (iv.n - iv.minus) * x;
    assert iv.n * x + iv.plus * x == (iv.n + iv.plus) * x;
  }

  // ---- The same for the scaled reals of the fast path

  /** v * 10^mk, or an end of its interval, in units of 2^-E. */
  ghost function TrueEnd(f: int, e: int, closer: bool, which: int, mk: int, E: nat): real {
    (End(f, e, closer, which, -mk) * Pow(2, E)) as real / (4 * Den(e, -mk)) as real
  }

  /** The gap between m * 10^p and the true value is the integer difference, scaled. */
  lemma TrueGap(f: nat, e: int, closer: bool, which: int, mk: int, E: nat, m: int, p: int)
    ensures var g := (m * FastDtoa.Ten(p, E)) as real - TrueEnd(f, e, closer, which, mk, E) * FastDtoa.Unit(p) as real;
      g * (4 * Den(e, -mk)) as real == Pow(2, E) as real * EndErr(f, e, closer, which, -mk, m, p) as real
  {
    hide Den, Pow, End;
    RatioGap(End(f, e, closer, which, -mk), 4 * Den(e, -mk), Pow(2, E), m, Pow(10, Max(p, 0)), Pow(10, Max(-p, 0)));
  }

  lemma RatioGap(n: int, d: int, s: int, m: int, t: int, u: int)
    requires 0 < d
    ensures ((m * (t * s)) as real - (n * s) as real / d as real * u as real) * d as real ==
      s as real * (m * t * d - n * u) as real
  {
  }

  lemma SignOfProduct(g: real, d: int, s: int, x: int)
    requires 0 < d && 0 < s && g * d as real == s as real * x as real
    ensures 0.0 <= g <==> 0 <= x
    ensures 0.0 < g <==> 0 < x
  {
  }

  lemma TouchesIs(f: nat, e: int, closer: bool, mk: int, E: nat, m: int, p: int)
    ensures var lo, hi := TrueEnd(f, e, closer, -1, mk, E), TrueEnd(f, e, closer, 1, mk, E);
      && (FastDtoa.Touches(lo, hi, E, m, p) <==>
          0 <= EndErr(f, e, closer, -1, -mk, m, p) && 0 >= EndErr(f, e, closer, 1, -mk, m, p))
      && (FastDtoa.Fits(lo, hi, E, m, p) <==>
          0 < EndErr(f, e, closer, -1, -mk, m, p) && 0 > EndErr(f, e, closer, 1, -mk, m, p))
  {
    hide TrueEnd, EndErr, Den, Pow, FastDtoa.Unit, FastDtoa.Ten;
    var lo, hi := TrueEnd(f, e, closer, -1, mk, E), TrueEnd(f, e, closer, 1, mk, E);
    var v, u, d, s := (m * FastDtoa.Ten(p, E)) as real, FastDtoa.Unit(p) as real, 4 * Den(e, -mk), Pow(2, E);
    TrueGap(f, e, closer, -1, mk, E, m, p);
    TrueGap(f, e, closer, 1, mk, E, m, p);
    SignOfProduct(v - lo * u, d, s, EndErr(f, e, closer, -1, -mk, m, p));
    SignOfProduct(v - hi * u, d, s, EndErr(f, e, closer, 1, -mk, m, p));
  }

  lemma OffIs(f: nat, e: int, closer: bool, mk: int, E: nat, q: int, m: int, p: int)
    ensures var x := TrueEnd(f, e, closer, 0, mk, E);
      FastDtoa.Off(x, E, q, p) < FastDtoa.Off(x, E, m, p) <==>
      Abs(EndErr(f, e, closer, 0, -mk, q, p)) < Abs(EndErr(f, e, closer, 0, -mk, m, p))
  {
    hide TrueEnd, EndErr, Den, Pow, FastDtoa.Unit, FastDtoa.Ten;
    var x := TrueEnd(f, e, closer, 0, mk, E);
    OffScaled(f, e, closer, mk, E, q, p);
    OffScaled(f, e, closer, mk, E, m, p);
    var a, b := FastDtoa.Off(x, E, q, p), FastDtoa.Off(x, E, m, p);
    var i, j := Abs(EndErr(f, e, closer, 0, -mk, q, p)), Abs(EndErr(f, e, closer, 0, -mk, m, p));
    var d, s := (4 * Den(e, -mk)) as real, Pow(2, E) as real;
    SameCompare(a, b, d, s, i, j);
  }

  lemma SameCompare(a: real, b: real, d: real, s: real, i: int, j: int)
    requires 0.0 < d && 0.0 < s && a * d == s * i as real && b * d == s * j as real
    ensures a < b <==> i < j
  {
  }

  lemma OffScaled(f: nat, e: int, closer: bool, mk: int, E: nat, m: int, p: int)
    ensures FastDtoa.Off(TrueEnd(f, e, closer, 0, mk, E), E, m, p) * (4 * Den(e, -mk)) as real ==
            Pow(2, E) as real * Abs(EndErr(f, e, closer, 0, -mk, m, p)) as real
  {
    hide TrueEnd, EndErr, Den, Pow, FastDtoa.Unit, FastDtoa.Ten;
    TrueGap(f, e, closer, 0, mk, E, m, p);
    var g := (m * FastDtoa.Ten(p, E)) as real - TrueEnd(f, e, closer, 0, mk, E) * FastDtoa.Unit(p) as real;
    var d, x := 4 * Den(e, -mk), EndErr(f, e, closer, 0, -mk, m, p);
    SignOfProduct(g, d, Pow(2, E), x);
    assert (0.0 - g) * d as real == 0.0 - g * d as real;
    assert Pow(2, E) as real * (0 - x) as real == 0.0 - Pow(2, E) as real * x as real;
  }

  // ---- The two paths agree

  /** Which decimals read back, and which of two is closer, is the same question at both powers: the decimal
      m * 10^p of the fast path is m / 10^j in the exact path at 10^t, with p == t + mk - j. */
  lemma SameQuestion(f: nat, e: int, closer: bool, mk: int, E: nat, t: int, m: int, j: nat)
    requires 0 < f && 0 <= t + mk
    ensures var lo, hi := TrueEnd(f, e, closer, -1, mk, E), TrueEnd(f, e, closer, 1, mk, E);
      var iv, p := ExactDtoa.Exact(f, e, closer, t), t + mk - j;
      && (FastDtoa.Fits(lo, hi, E, m, p) ==> iv.Fits(m, j))
      && (iv.Fits(m, j) ==> FastDtoa.Touches(lo, hi, E, m, p))
  {
    hide FastDtoa.Fits, FastDtoa.Touches, Interval.Fits, ExactDtoa.Exact, SameErrs, End, Den;
    var p := t + mk - j;
    TouchesIs(f, e, closer, mk, E, m, p);
    FitsIs(f, e, closer, t, m, j);
    EndsMove(f, e, closer, -1, -mk, t + mk, p);
    EndsMove(f, e, closer, 1, -mk, t + mk, p);
    SameSigns(End(f, e, closer, -1, -mk), 4 * Den(e, -mk), End(f, e, closer, -1, t), 4 * Den(e, t), p, 0 - j, m);
    SameSigns(End(f, e, closer, 1, -mk), 4 * Den(e, -mk), End(f, e, closer, 1, t), 4 * Den(e, t), p, 0 - j, m);
  }

  lemma SameCloser(f: nat, e: int, closer: bool, mk: int, E: nat, t: int, q: int, m: int, j: nat)
    requires 0 < f && 0 <= t + mk
    ensures var x, iv, p := TrueEnd(f, e, closer, 0, mk, E), ExactDtoa.Exact(f, e, closer, t), t + mk - j;
      FastDtoa.Off(x, E, q, p) < FastDtoa.Off(x, E, m, p) <==> iv.Distance(q, j) < iv.Distance(m, j)
  {
    hide FastDtoa.Off, Interval.Distance, ExactDtoa.Exact, SameErrs, End, Den;
    var p := t + mk - j;
    OffIs(f, e, closer, mk, E, q, m, p);
    FitsIs(f, e, closer, t, q, j);
    FitsIs(f, e, closer, t, m, j);
    EndsMove(f, e, closer, 0, -mk, t + mk, p);
    SameOrder(End(f, e, closer, 0, -mk), 4 * Den(e, -mk), End(f, e, closer, 0, t), 4 * Den(e, t), p, 0 - j, q, m);
  }

  /** Whenever the fast path succeeds on approximations of v * 10^mk and its boundaries that are less than one unit
      off, its digits and decimal exponent are those of the exact path. */
  lemma FastIsExact(f: nat, e: int, closer: bool, mk: int, E: nat, low: int, w: int, high: int, q: int, k: int,
                    t: int, q': int, j: nat)
    requires 0 < f && 0 <= t + mk
    requires FastDtoa.Near(TrueEnd(f, e, closer, -1, mk, E), low)
    requires FastDtoa.Near(TrueEnd(f, e, closer, 0, mk, E), w)
    requires FastDtoa.Near(TrueEnd(f, e, closer, 1, mk, E), high)
    requires FastDtoa.AllShortest(low, w, high, E, q, k)
    requires var iv := ExactDtoa.Exact(f, e, closer, t); iv.BelowTen() && iv.AtLeastOne() && IsShortest(iv, q', j)
    ensures q == q' && k - mk == t - j
  {
    hide FastDtoa.Fits, FastDtoa.Touches, FastDtoa.Off, Interval.Fits, Interval.Distance, TrueEnd;
    var lo, x, hi := TrueEnd(f, e, closer, -1, mk, E), TrueEnd(f, e, closer, 0, mk, E), TrueEnd(f, e, closer, 1, mk, E);
    var iv, p := ExactDtoa.Exact(f, e, closer, t), t + mk - j;
    assert FastDtoa.Shortest(lo, x, hi, E, q, k);
    SameQuestion(f, e, closer, mk, E, t, q', j);
    assert k >= p;
    if k > p {
      HigherPower(f, e, closer, mk, E, t, q, k, j);
      assert false;
    }
    SameQuestion(f, e, closer, mk, E, t, q, j);
    if q != q' {
      SameCloser(f, e, closer, mk, E, t, q, q', j);
      assert false;
    }
  }

  /** A number of the fast path with a larger power would be a shorter number of the exact path. */
  lemma HigherPower(f: nat, e: int, closer: bool, mk: int, E: nat, t: int, q: int, k: int, j: nat)
    requires 0 < f && 0 <= t + mk && k > t + mk - j
    requires FastDtoa.Fits(TrueEnd(f, e, closer, -1, mk, E), TrueEnd(f, e, closer, 1, mk, E), E, q, k)
    requires ExactDtoa.Exact(f, e, closer, t).BelowTen() && ExactDtoa.Exact(f, e, closer, t).AtLeastOne()
    ensures exists m, i :: 0 <= i < j && ExactDtoa.Exact(f, e, closer, t).Fits(m, i)
  {
    hide FastDtoa.Fits, FastDtoa.Touches, Interval.Fits, TrueEnd, ExactDtoa.Exact;
    var i := t + mk - k;
    if i >= 0 {
      SameQuestion(f, e, closer, mk, E, t, q, i);
    } else {
      IntegerPower(f, e, closer, mk, E, t, q, k);
      TooLarge(ExactDtoa.Exact(f, e, closer, t), q, k - t - mk);
      assert false;
    }
  }

  /** An integer of the exact path. */
  lemma IntegerPower(f: nat, e: int, closer: bool, mk: int, E: nat, t: int, q: int, k: int)
    requires 0 < f && 0 <= t + mk <= k
    requires FastDtoa.Fits(TrueEnd(f, e, closer, -1, mk, E), TrueEnd(f, e, closer, 1, mk, E), E, q, k)
    ensures ExactDtoa.Exact(f, e, closer, t).Fits(q * Pow(10, k - t - mk), 0)
  {
    hide FastDtoa.Fits, FastDtoa.Touches, Interval.Fits, TrueEnd, ExactDtoa.Exact, End, Den, Pow;
    var n := k - t - mk;
    PowAdd(10, n, t + mk);
    MulAssoc(q, Pow(10, n), Pow(10, t + mk));
    TouchesIs(f, e, closer, mk, E, q, k);
    TouchesIs(f, e, closer, mk, E, q * Pow(10, n), t + mk);
    SameQuestion(f, e, closer, mk, E, t, q * Pow(10, n), 0);
  }

  /** Ten and more times the unit does not read back. */
  lemma TooLarge(iv: Interval, q: int, n: nat)
    requires iv.BelowTen() && iv.AtLeastOne() && 0 < n
    ensures !iv.Fits(q * Pow(10, n), 0)
  {
    Pow1(10);
    PowMono(10, 1, n);
    var x := q * Pow(10, n);
    if q <= 0 {
      MulMono(q, 0, Pow(10, n));
      MulMono(x, 0, iv.d);
    } else {
      MulMono(1, q, Pow(10, n));
      MulMono(10, x, iv.d);
    }
  }

  /** The scaled value is above one, so the power used for scaling does not exceed that of the leading digit. */
  lemma PowerOrder(f: nat, e: int, closer: bool, mk: int, E: nat, high: int, t: int)
    requires 0 < f && E <= 60 && 0x4000_0000_0000_0000 <= high
    requires FastDtoa.Near(TrueEnd(f, e, closer, 1, mk, E), high)
    requires ExactDtoa.Exact(f, e, closer, t).BelowTen()
    ensures 0 <= t + mk
  {
    hide TrueEnd, Den, Pow, End, SameErrs;
    if t + mk < 0 {
      var n := -mk - t;
      var N, D := End(f, e, closer, 1, -mk), 4 * Den(e, -mk);
      Ends(f, e, closer, t);
      Pow1(10);
      assert 0 <= Err(End(f, e, closer, 1, t), 4 * Den(e, t), 10, 0);
      EndsMove(f, e, closer, 1, t, n, 0);
      SameSigns(End(f, e, closer, 1, t), 4 * Den(e, t), N, D, 0, 0 - n, 10);
      AboveOne(f, e, closer, mk, E, high);
      PowMono(10, 1, n);
      MulMono(10, Pow(10, n), N);
      assert false;
    }
  }

  lemma AboveOne(f: nat, e: int, closer: bool, mk: int, E: nat, high: int)
    requires E <= 60 && 0x4000_0000_0000_0000 <= high
    requires FastDtoa.Near(TrueEnd(f, e, closer, 1, mk, E), high)
    ensures 4 * Den(e, -mk) < End(f, e, closer, 1, -mk)
  {
    hide TrueEnd, Den, Pow, End;
    TrueGap(f, e, closer, 1, mk, E, 1, 0);
    Pow1(10);
    Pow2Values();
    PowMono(2, E, 60);
    PowAdd(2, 28, 32);
    var g := (1 * FastDtoa.Ten(0, E)) as real - TrueEnd(f, e, closer, 1, mk, E) * FastDtoa.Unit(0) as real;
    assert g < 0.0;
    SignOfProduct(g, 4 * Den(e, -mk), Pow(2, E), EndErr(f, e, closer, 1, -mk, 1, 0));
  }

  /** A digit string without leading zeros is determined by its value. */
  lemma {:induction false} SameDigits(s: seq<char>, s': seq<char>)
    requires AllDigits(s) && AllDigits(s') && 0 < |s| && 0 < |s'| && s[0] != '0' && s'[0] != '0'
    requires DigitsVal(s) == DigitsVal(s')
    ensures s == s'
    decreases |s|
  {
    var r, r', c, c' := s[..|s| - 1], s'[..|s'| - 1], s[|s| - 1], s'[|s'| - 1];
    assert IsDigit(c) && IsDigit(c');
    assert DigitsVal(s) == 10 * DigitsVal(r) + DigitOf(c) && DigitsVal(s') == 10 * DigitsVal(r') + DigitOf(c');
    assert DigitsVal(r) == DigitsVal(r') && c == c';
    if |s| > 1 && |s'| > 1 {
      SameDigits(r, r');
      assert s == r + [c] && s' == r' + [c'];
    } else if |s| > 1 {
      Positive(r);
      assert false;
    } else if |s'| > 1 {
      Positive(r');
      assert false;
    }
  }

  /** FastDtoa and BignumDtoa write the same characters and the same decimal point, whenever FastDtoa succeeds. */
  lemma SameOutput(f: nat, e: int, closer: bool, mk: int, E: nat, low: int, w: int, high: int,
                   fast: seq<char>, kappa: int, exact: seq<char>, decimalPoint: int)
    requires 0 < f && FastDtoa.Boundaries(low, w, high, E)
    requires FastDtoa.Near(TrueEnd(f, e, closer, -1, mk, E), low)
    requires FastDtoa.Near(TrueEnd(f, e, closer, 0, mk, E), w)
    requires FastDtoa.Near(TrueEnd(f, e, closer, 1, mk, E), high)
    requires 0 < |fast| && AllDigits(fast) && fast[0] != '0'
    requires FastDtoa.AllShortest(low, w, high, E, DigitsVal(fast), kappa)
    requires 0 < |exact| && AllDigits(exact) && exact[0] != '0'
    requires ExactDtoa.Exact(f, e, closer, decimalPoint - 1).BelowTen()
    requires ExactDtoa.Exact(f, e, closer, decimalPoint - 1).AtLeastOne()
    requires IsShortest(ExactDtoa.Exact(f, e, closer, decimalPoint - 1), DigitsVal(exact), |exact| - 1)
    ensures fast == exact && |fast| + (kappa - mk) == decimalPoint
  {
    hide DigitsVal, TrueEnd, IsShortest, FastDtoa.AllShortest, ExactDtoa.Exact;
    PowerOrder(f, e, closer, mk, E, high, decimalPoint - 1);
    FastIsExact(f, e, closer, mk, E, low, w, high, DigitsVal(fast), kappa, decimalPoint - 1,
      DigitsVal(exact), |exact| - 1);
    SameDigits(fast, exact);
  }

  /** Digits with which the fast path succeeds are the shortest ones of the exact interval at their own power. */
  lemma FastIsShortest(f: nat, e: int, closer: bool, mk: int, E: nat, low: int, w: int, high: int,
                       fast: seq<char>, kappa: int)
    requires 0 < f
    requires FastDtoa.Near(TrueEnd(f, e, closer, -1, mk, E), low)
    requires FastDtoa.Near(TrueEnd(f, e, closer, 0, mk, E), w)
    requires FastDtoa.Near(TrueEnd(f, e, closer, 1, mk, E), high)
    requires 0 < |fast| && AllDigits(fast) && fast[0] != '0' && 1 <= |fast| + kappa
    requires FastDtoa.AllShortest(low, w, high, E, DigitsVal(fast), kappa)
    ensures var iv := ExactDtoa.Exact(f, e, closer, |fast| + kappa - mk - 1);
      iv.BelowTen() && iv.AtLeastOne() && IsShortest(iv, DigitsVal(fast), |fast| - 1)
  {
    hide FastDtoa.Fits, FastDtoa.Touches, FastDtoa.Off, Interval.Fits, Interval.Distance, TrueEnd,
      Num, Den, DigitsVal, Pow;
    var lo, x, hi := TrueEnd(f, e, closer, -1, mk, E), TrueEnd(f, e, closer, 0, mk, E), TrueEnd(f, e, closer, 1, mk, E);
    var q, j, t := DigitsVal(fast), |fast| - 1, |fast| + kappa - mk - 1;
    var iv := ExactDtoa.Exact(f, e, closer, t);
    assert FastDtoa.Shortest(lo, x, hi, E, q, kappa);
    SameQuestion(f, e, closer, mk, E, t, q, j);
    forall q', k' | 0 <= k' < j ensures !iv.Fits(q', k') {
      SameQuestion(f, e, closer, mk, E, t, q', k');
    }
    forall q' | iv.Fits(q', j) && q' != q ensures iv.Distance(q, j) < iv.Distance(q', j) {
      SameQuestion(f, e, closer, mk, E, t, q', j);
      SameCloser(f, e, closer, mk, E, t, q, q', j);
    }
    SameQuestion(f, e, closer, mk, E, t, 10, 0);
    TouchesNextPower(lo, hi, E, t + mk);
    Positive(fast);
    DigitsBound(fast);
    ExactDtoa.NumGrows(f, e, t);
    PowSucc(10, j);
    FirstDigitAtTop(iv, q, j);
  }

  lemma TouchesNextPower(lo: real, hi: real, E: nat, p: int)
    requires 0 <= p
    ensures FastDtoa.Touches(lo, hi, E, 10, p) <==> FastDtoa.Touches(lo, hi, E, 1, p + 1)
  {
  }

  /** A fitting number of j + 1 digits and a ten that does not fit put the interval between one and ten. */
  lemma FirstDigitAtTop(iv: Interval, q: int, j: nat)
    requires 0 < iv.minus < iv.n && 0 < iv.d && 0 < iv.plus
    requires iv.Fits(q, j) && !iv.Fits(10, 0) && Pow(10, j) <= q < 10 * Pow(10, j)
    ensures iv.BelowTen() && iv.AtLeastOne()
  {
    hide Pow;
    Pow1(10);
    TopArith(iv.n, iv.minus, iv.plus, iv.d, Pow(10, j), q * iv.d, q);
    assert !iv.Room(1, 10 * iv.d);
  }

  lemma TopArith(n: int, minus: int, plus: int, d: int, s: int, x: int, q: int)
    requires 0 < d && x == q * d && s <= q < 10 * s && n * s - minus * s <= x <= n * s + plus * s
    ensures n - minus < 10 * d && d <= n + plus && (x < n * s + plus * s ==> d < n + plus)
  {
  }

  // ---- What the scaled boundaries of a double are like

  /** The ends and the value are small multiples of a quarter unit in the last place. */
  lemma EndsAreMultiples(f: nat, e: int, closer: bool, mk: int, E: nat) returns (c: real)
    ensures 0.0 < c
    ensures TrueEnd(f, e, closer, -1, mk, E) == (4 * f - if closer then 1 else 2) as real * c
    ensures TrueEnd(f, e, closer, 0, mk, E) == (4 * f) as real * c
    ensures TrueEnd(f, e, closer, 1, mk, E) == (4 * f + 2) as real * c
  {
    hide Num, Den, Pow;
    ExactDtoa.NumGrows(1, e, -mk);
    var u, s, d := Num(1, e, -mk), Pow(2, E), 4 * Den(e, -mk);
    MulStrict(0, u, s);
    c := (u * s) as real / d as real;
    PositiveRatio((u * s) as real, d as real);
    MultipleOfRatio(4 * f - if closer then 1 else 2, u, s, d);
    MultipleOfRatio(4 * f, u, s, d);
    MultipleOfRatio(4 * f + 2, u, s, d);
  }

  lemma PositiveRatio(x: real, y: real)
    requires 0.0 < x && 0.0 < y
    ensures 0.0 < x / y
  {
  }

  lemma MultipleOfRatio(m: int, u: int, s: int, d: int)
    requires 0 < d
    ensures (m * u * s) as real / d as real == m as real * ((u * s) as real / d as real)
  {
    MulAssoc(m, u, s);
    assert (m * (u * s)) as real == m as real * (u * s) as real;
    RatioOfProduct(m as real, (u * s) as real, d as real);
  }

  lemma RatioOfProduct(m: real, x: real, d: real)
    requires 0.0 < d
    ensures (m * x) / d == m * (x / d)
  {
    var r := x / d;
    assert r * d == x;
    assert (m * r) * d == m * x;
  }

  /** Being less than one unit off is all that has to be asked of the scaled boundaries of a double. */
  lemma BoundariesFollow(f: nat, e: int, closer: bool, mk: int, E: nat, low: int, w: int, high: int)
    requires 0 < f < 0x20_0000_0000_0000 && (closer ==> f <= 0x10_0000_0000_0000)
    requires 32 <= E <= 60 && 0x4000_0000_0000_0000 <= high < 0xffff_ffff_ffff_ffff
    requires FastDtoa.Near(TrueEnd(f, e, closer, -1, mk, E), low)
    requires FastDtoa.Near(TrueEnd(f, e, closer, 0, mk, E), w)
    requires FastDtoa.Near(TrueEnd(f, e, closer, 1, mk, E), high)
    ensures FastDtoa.Boundaries(low, w, high, E)
  {
    hide TrueEnd, Pow;
    var c := EndsAreMultiples(f, e, closer, mk, E);
    ExactDtoa.TenTo16();
    UnitIsLarge(f, c, high);
    SpreadOut(f, if closer then 1 else 2, c, low, w, high);
  }

  lemma UnitIsLarge(f: nat, c: real, high: int)
    requires 0 < f < 0x20_0000_0000_0000 && 0x4000_0000_0000_0000 <= high
    requires high as real - 1.0 < (4 * f + 2) as real * c
    ensures 100.0 < c
  {
    var m := (4 * f + 2) as real;
    assert m * (c - 100.0) == m * c - 100.0 * m;
    PositiveFactor(m, c - 100.0);
  }

  lemma PositiveFactor(m: real, d: real)
    requires 0.0 < m && 0.0 < m * d
    ensures 0.0 < d
  {
  }

  lemma SpreadOut(f: nat, minus: int, c: real, low: int, w: int, high: int)
    requires 0 < f < 0x20_0000_0000_0000 && (minus == 2 || (minus == 1 && f <= 0x10_0000_0000_0000)) && 100.0 < c
    requires FastDtoa.Near((4 * f - minus) as real * c, low) && FastDtoa.Near((4 * f) as real * c, w)
    requires FastDtoa.Near((4 * f + 2) as real * c, high)
    ensures 1 <= low < w < high && high + 1 <= (high - low + 2) * 10_000_000_000_000_000
  {
    var x := (4 * f) as real * c;
    assert (4 * f - minus) as real * c == x - minus as real * c;
    assert (4 * f + 2) as real * c == x + 2.0 * c;
    assert 4.0 * c <= x by { assert 0.0 <= (4 * f - 4) as real * c; }
    var g := (minus + 2) * 10_000_000_000_000_000;
    assert 0.0 <= (g - 1 - (4 * f + 2)) as real * c;
    assert (4 * f + 2) as real * c + c <= g as real * c;
  }
}
