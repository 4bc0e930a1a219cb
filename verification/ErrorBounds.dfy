/** Numbers of 64 bits with an error counted in eighths of a unit, and what shifts and products make of them. */
module ErrorBounds {
  import opened Arith

  // ---- Powers of two and ten as reals

  ghost function Power(b: nat, e: int): real
    requires 0 < b
  {
    if e >= 0 then Pow(b, e) as real else 1.0 / Pow(b, -e) as real
  }

  ghost function Two(e: int): real { Power(2, e) }

  /** A power against its positive and its negative part. */
  lemma PowerParts(b: nat, e: int)
    requires 0 < b
    ensures 0.0 < Power(b, e) && IsRatio(Power(b, e), Pow(b, Max(-e, 0)), Pow(b, Max(e, 0)))
  {
    hide Pow;
    Pow1(b);
    if e < 0 { RealInverse(Pow(b, -e) as real); }
  }

  lemma RealInverse(x: real)
    requires 0.0 < x
    ensures 0.0 < 1.0 / x && 1.0 / x * x == 1.0
  {
  }

  lemma PowerAdd(b: nat, m: int, n: int)
    requires 0 < b
    ensures Power(b, m + n) == Power(b, m) * Power(b, n)
  {
    hide Power, Pow, Triple, IsRatio;
    PowerParts(b, m);
    PowerParts(b, n);
    PowerParts(b, m + n);
    PartsProduct(b, m, n);
    PowerProduct(Power(b, m), Power(b, n), Power(b, m + n), Pow(b, Max(-m, 0)), Pow(b, Max(-n, 0)),
                 Pow(b, Max(-m - n, 0)), Pow(b, Max(m, 0)), Pow(b, Max(n, 0)), Pow(b, Max(m + n, 0)));
  }

  ghost function Triple(a: int, b: int, c: int): int { a * b * c }

  /** x is a' / a, with positive a. */
  ghost predicate IsRatio(x: real, a: int, a': int) {
    0 < a && x * a as real == a' as real
  }

  lemma PartsProduct(b: nat, m: int, n: int)
    requires 0 < b
    ensures Triple(Pow(b, Max(m, 0)), Pow(b, Max(n, 0)), Pow(b, Max(-m - n, 0))) ==
            Triple(Pow(b, Max(-m, 0)), Pow(b, Max(-n, 0)), Pow(b, Max(m + n, 0)))
  {
    hide Pow;
    PowAdd(b, Max(m, 0), Max(n, 0));
    PowAdd(b, Max(m, 0) + Max(n, 0), Max(-m - n, 0));
    PowAdd(b, Max(-m, 0), Max(-n, 0));
    PowAdd(b, Max(-m, 0) + Max(-n, 0), Max(m + n, 0));
  }

  lemma PowerProduct(x: real, y: real, z: real, a: int, c: int, s: int, a': int, c': int, s': int)
    requires IsRatio(x, a, a') && IsRatio(y, c, c') && IsRatio(z, s, s') && Triple(a', c', s) == Triple(a, c, s')
    ensures z == x * y
  {
    var p, q, r := a as real, c as real, s as real;
    RealTriple(a', c', s);
    RealTriple(a, c, s');
    RealSameProduct(x, y, z, p, q, r);
  }

  lemma RealTriple(a: int, b: int, c: int)
    ensures (a * b * c) as real == a as real * b as real * c as real
  {
    RealProduct(a, b);
    RealProduct(a * b, c);
  }

  lemma RealProduct(a: int, b: int)
    ensures (a * b) as real == a as real * b as real
  {
  }

  lemma RealSameProduct(x: real, y: real, z: real, p: real, q: real, r: real)
    requires 0.0 < p && 0.0 < q && 0.0 < r && (x * p) * (y * q) * r == p * q * (z * r)
    ensures z == x * y
  {
    var s := p * q * r;
    RealPositive(p, q);
    RealPositive(p * q, r);
    assert (x * p) * (y * q) * r == (x * y) * s && p * q * (z * r) == z * s;
    RealCancel(x * y, z, s);
  }

  lemma RealPositive(x: real, y: real)
    requires 0.0 < x && 0.0 < y
    ensures 0.0 < x * y
  {
  }

  lemma RealCancel(x: real, y: real, s: real)
    requires 0.0 < s && x * s == y * s
    ensures x == y
  {
    if x < y { RealPositive(y - x, s); } else if y < x { RealPositive(x - y, s); }
  }

  lemma RealLess(x: real, y: real, s: real)
    requires 0.0 < s
    ensures x < y <==> x * s < y * s
    ensures x <= y <==> x * s <= y * s
  {
    if x < y { RealPositive(y - x, s); } else if y < x { RealPositive(x - y, s); }
  }

  lemma RealMono(x: real, y: real, s: real)
    requires x <= y && 0.0 <= s
    ensures x * s <= y * s && s * x <= s * y
  {
    if x < y && 0.0 < s { RealPositive(y - x, s); }
  }

  // ---- Numbers with an error

  /** v is f * 2^e up to error eighths of a unit, the ends included. */
  ghost predicate Close(v: real, f: int, e: int, error: int) {
    (8 * f - error) as real * Two(e) <= 8.0 * v <= (8 * f + error) as real * Two(e)
  }

  ghost predicate Closer(v: real, f: int, e: int, error: int) {
    (8 * f - error) as real * Two(e) < 8.0 * v < (8 * f + error) as real * Two(e)
  }

  /** Shifting the significand left does not change the number; the error is counted in smaller units. */
  lemma Shifted(v: real, f: int, e: int, error: int, k: nat)
    ensures Close(v, f, e, error) <==> Close(v, f * Pow(2, k), e - k, error * Pow(2, k))
    ensures Closer(v, f, e, error) <==> Closer(v, f * Pow(2, k), e - k, error * Pow(2, k))
  {
    hide Pow, Power;
    PowerAdd(2, e - k, k);
    var p := Pow(2, k);
    TwoIs(k);
    ShiftedBound(8 * f - error, p, Two(e - k));
    ShiftedBound(8 * f + error, p, Two(e - k));
    assert (8 * f - error) * p == 8 * (f * p) - error * p && (8 * f + error) * p == 8 * (f * p) + error * p;
  }

  lemma TwoIs(k: nat)
    ensures Two(k) == Pow(2, k) as real
  {
  }

  lemma ShiftedBound(x: int, p: int, t: real)
    ensures (x * p) as real * t == x as real * (t * p as real)
  {
    RealProduct(x, p);
    RealAssoc(x as real, p as real, t);
  }

  lemma RealAssoc(x: real, y: real, z: real)
    ensures (x * y) * z == x * (z * y) && (x * y) * z == x * (y * z)
  {
  }

  // ---- Multiplication

  /** The rounded product of two significands. */
  ghost predicate IsProduct(p: int, f: int, g: int) {
    p * 0x1_0000_0000_0000_0000 - 0x8000_0000_0000_0000 <= f * g < p * 0x1_0000_0000_0000_0000 + 0x8000_0000_0000_0000
  }

  lemma RoundedIsProduct(p: int, f: int, g: int)
    requires p == (f * g + 0x8000_0000_0000_0000) / 0x1_0000_0000_0000_0000
    ensures IsProduct(p, f, g)
  {
    DivMod(f * g + 0x8000_0000_0000_0000, 0x1_0000_0000_0000_0000);
  }

  lemma UpperProduct(v: real, x: real, t: real, w: real, y: real, u: real)
    requires 0.0 <= w && v <= x * t && w <= y * u && 0.0 <= x * t
    ensures v * w <= (x * y) * (t * u)
  {
    RealMono(v, x * t, w);
    RealMono(w, y * u, x * t);
    RealFour(x, t, y, u);
  }

  lemma LowerProduct(v: real, x: real, t: real, w: real, y: real, u: real)
    requires 0.0 <= w && x * t <= v && y * u <= w && 0.0 <= x * t
    ensures (x * y) * (t * u) <= v * w
  {
    RealMono(x * t, v, w);
    RealMono(y * u, w, x * t);
    RealFour(x, t, y, u);
  }

  lemma RealFour(x: real, t: real, y: real, u: real)
    ensures (x * t) * (y * u) == (x * y) * (t * u)
  {
  }

  lemma UnitsMultiply(e: int, e': int)
    ensures 0.0 < Two(e) && 0.0 < Two(e') && 0.0 < Two(e) * Two(e')
    ensures Two(e + e' + 64) == Two(e) * Two(e') * 18446744073709551616.0
  {
    hide Power;
    PowerParts(2, e);
    PowerParts(2, e');
    PowerAdd(2, e, e');
    PowerAdd(2, e + e', 64);
    WordIsPower();
    RealPositive(Two(e), Two(e'));
  }

  /** Upper bounds in units of 2^e and 2^e' give one in units of 2^(e + e' + 64), c being a common factor. */
  lemma ProductUpper(v: real, x: int, e: int, w: real, y: int, e': int, c: int, z: int)
    requires 0.0 <= w && 0 <= x && v <= x as real * Two(e) && w <= y as real * Two(e')
    ensures var b, target := c * (z * 0x1_0000_0000_0000_0000), c as real * (z as real * Two(e + e' + 64));
      (x * y <= b ==> v * w <= target) && (x * y < b ==> v * w < target)
  {
    hide Power;
    UnitsMultiply(e, e');
    var t, u := Two(e), Two(e');
    RealMono(0.0, x as real, t);
    UpperProduct(v, x as real, t, w, y as real, u);
    RealProduct(x, y);
    WordProduct(c, z, t * u);
    CompareUpper(v * w, x * y, c * (z * 0x1_0000_0000_0000_0000), t * u, c as real * (z as real * Two(e + e' + 64)));
  }

  lemma ProductLower(v: real, x: int, e: int, w: real, y: int, e': int, c: int, z: int)
    requires 0.0 <= w && 0 <= x && x as real * Two(e) <= v && y as real * Two(e') <= w
    ensures var b, target := c * (z * 0x1_0000_0000_0000_0000), c as real * (z as real * Two(e + e' + 64));
      (b <= x * y ==> target <= v * w) && (b < x * y ==> target < v * w)
  {
    hide Power;
    UnitsMultiply(e, e');
    var t, u := Two(e), Two(e');
    RealMono(0.0, x as real, t);
    LowerProduct(v, x as real, t, w, y as real, u);
    RealProduct(x, y);
    WordProduct(c, z, t * u);
    CompareLower(v * w, x * y, c * (z * 0x1_0000_0000_0000_0000), t * u, c as real * (z as real * Two(e + e' + 64)));
  }

  lemma CompareUpper(vw: real, xy: int, b: int, t: real, target: real)
    requires 0.0 < t && vw <= xy as real * t && target == b as real * t
    ensures (xy <= b ==> vw <= target) && (xy < b ==> vw < target)
  {
    RealLess(xy as real, b as real, t);
  }

  lemma CompareLower(vw: real, xy: int, b: int, t: real, target: real)
    requires 0.0 < t && xy as real * t <= vw && target == b as real * t
    ensures (b <= xy ==> target <= vw) && (b < xy ==> target < vw)
  {
    RealLess(b as real, xy as real, t);
  }

  lemma WordIsPower()
    ensures Two(64) == 18446744073709551616.0
  {
    TwoIs(64);
    Pow2Values();
  }

  lemma WordProduct(c: int, z: int, t: real)
    ensures (c * (z * 0x1_0000_0000_0000_0000)) as real * t == c as real * (z as real * (t * 18446744073709551616.0))
  {
    RealProduct(c, z * 0x1_0000_0000_0000_0000);
    RealProduct(z, 0x1_0000_0000_0000_0000);
    RealFour(c as real, 1.0, z as real * 18446744073709551616.0, t);
  }

  /** A power of ten that is g * 2^e' exactly: half a unit more for rounding the product. */
  lemma MultiplyExact(v: real, f: int, e: int, error: int, w: real, g: int, e': int, p: int, vw: real)
    requires Close(v, f, e, error) && 0 <= error <= 8 * f && w == g as real * Two(e') && vw == v * w
    requires 0 <= g <= 0x1_0000_0000_0000_0000 && IsProduct(p, f, g)
    ensures Close(vw, p, e + e' + 64, error + 4)
  {
    hide Two, IsProduct;
    ExactArith(f, g, error, p);
    EightTimes(v, 8 * f - error, 8 * f + error, e, w, g, e', 8 * p - (error + 4), 8 * p + (error + 4));
  }

  /** The same without an error in number and product. */
  lemma MultiplyWhole(v: real, f: int, e: int, w: real, g: int, e': int, p: int, vw: real)
    requires Close(v, f, e, 0) && 0 <= f && 0 <= g && w == g as real * Two(e') && vw == v * w
    requires f * g == p * 0x1_0000_0000_0000_0000
    ensures Close(vw, p, e + e' + 64, 0)
  {
    hide Two;
    MulAssoc(8, f, g);
    EightTimes(v, 8 * f, 8 * f, e, w, g, e', 8 * p, 8 * p);
  }

  lemma EightTimes(v: real, low: int, high: int, e: int, w: real, g: int, e': int, low': int, high': int)
    requires low as real * Two(e) <= 8.0 * v <= high as real * Two(e) && 0 <= low <= high && 0 <= g
    requires w == g as real * Two(e')
    requires low' * 0x1_0000_0000_0000_0000 <= low * g && high * g <= high' * 0x1_0000_0000_0000_0000
    ensures low' as real * Two(e + e' + 64) <= 8.0 * (v * w) <= high' as real * Two(e + e' + 64)
  {
    hide Two;
    UnitsMultiply(e, e');
    RealMono(0.0, g as real, Two(e'));
    ExactProduct(8.0 * v, low, high, e, w, g, e', low', high');
    EightFold(v, w, 8.0 * v, low' as real * Two(e + e' + 64), high' as real * Two(e + e' + 64));
  }

  lemma EightFold(v: real, w: real, v8: real, low: real, high: real)
    requires v8 == 8.0 * v && low <= v8 * w <= high
    ensures low <= 8.0 * (v * w) <= high
  {
    RealAssoc(8.0, v, w);
  }

  lemma ExactProduct(v: real, low: int, high: int, e: int, w: real, g: int, e': int, low': int, high': int)
    requires low as real * Two(e) <= v <= high as real * Two(e) && 0 <= low <= high
    requires w == g as real * Two(e') && 0.0 <= w
    requires low' * 0x1_0000_0000_0000_0000 <= low * g && high * g <= high' * 0x1_0000_0000_0000_0000
    ensures low' as real * Two(e + e' + 64) <= v * w <= high' as real * Two(e + e' + 64)
  {
    hide Two;
    ProductUpper(v, high, e, w, g, e', 1, high');
    ProductLower(v, low, e, w, g, e', 1, low');
  }

  lemma ExactArith(f: int, g: int, error: int, p: int)
    requires 0 <= error && 0 <= g <= 0x1_0000_0000_0000_0000 && IsProduct(p, f, g)
    ensures (8 * f + error) * g <= (8 * p + error + 4) * 0x1_0000_0000_0000_0000
    ensures (8 * f - error) * g >= (8 * p - error - 4) * 0x1_0000_0000_0000_0000
  {
    MulMono(g, 0x1_0000_0000_0000_0000, error);
    assert (8 * f + error) * g == 8 * (f * g) + error * g && (8 * f - error) * g == 8 * (f * g) - error * g;
  }

  /** A power of ten from the table: half a unit for the power, half a unit for rounding, and one eighth for the
      product of the errors. */
  lemma MultiplyCached(v: real, f: int, e: int, error: int, w: real, g: int, e': int, p: int, vw: real)
    requires Close(v, f, e, error) && 0 <= error <= 8 * f && error <= 1000 && f < 0x1_0000_0000_0000_0000
    requires vw == v * w
    requires (1024 * g - 509) as real * Two(e') <= 1024.0 * w <= (1024 * g + 509) as real * Two(e')
    requires 1 <= g < 0x1_0000_0000_0000_0000 && IsProduct(p, f, g)
    ensures Closer(vw, p, e + e' + 64, error + 8 + if error == 0 then 0 else 1)
  {
    hide Power, IsProduct;
    var error' := error + 8 + if error == 0 then 0 else 1;
    CachedArith(f, g, error, p, error');
    PowerParts(2, e');
    RealMono(0.0, (1024 * g - 509) as real, Two(e'));
    var v8, w1024, s := 8.0 * v, 1024.0 * w, Two(e + e' + 64);
    CachedProduct(v8, f, e, error, w1024, g, e', p, error');
    WithoutFactor(v, w, v8, w1024, (8 * p - error') as real * s, (8 * p + error') as real * s);
  }

  lemma CachedProduct(v: real, f: int, e: int, error: int, w: real, g: int, e': int, p: int, error': int)
    requires (8 * f - error) as real * Two(e) <= v <= (8 * f + error) as real * Two(e)
    requires 0 <= 8 * f - error <= 8 * f + error
    requires (1024 * g - 509) as real * Two(e') <= w <= (1024 * g + 509) as real * Two(e') && 0.0 <= w
    requires (8 * f + error) * (1024 * g + 509) < 1024 * ((8 * p + error') * 0x1_0000_0000_0000_0000)
    requires (8 * f - error) * (1024 * g - 509) > 1024 * ((8 * p - error') * 0x1_0000_0000_0000_0000)
    ensures var s := Two(e + e' + 64);
      1024.0 * ((8 * p - error') as real * s) < v * w < 1024.0 * ((8 * p + error') as real * s)
  {
    hide Two;
    ProductUpper(v, 8 * f + error, e, w, 1024 * g + 509, e', 1024, 8 * p + error');
    ProductLower(v, 8 * f - error, e, w, 1024 * g - 509, e', 1024, 8 * p - error');
  }

  lemma WithoutFactor(v: real, w: real, v8: real, w1024: real, low: real, high: real)
    requires v8 == 8.0 * v && w1024 == 1024.0 * w && 1024.0 * low < v8 * w1024 < 1024.0 * high
    ensures low < 8.0 * (v * w) < high
  {
    RealFactors(v, w, v8, w1024, v * w, v8 * w1024);
  }

  lemma RealFactors(v: real, w: real, v8: real, w1024: real, vw: real, product: real)
    requires v8 == 8.0 * v && w1024 == 1024.0 * w && vw == v * w && product == v8 * w1024
    ensures product == 8192.0 * vw
  {
    RealAssoc(8.0, v, w1024);
    assert v * w1024 == 1024.0 * vw;
  }

  lemma CachedArith(f: int, g: int, error: int, p: int, error': int)
    requires 0 <= f < 0x1_0000_0000_0000_0000 && 0 <= error <= 1000 && 1 <= g < 0x1_0000_0000_0000_0000
    requires IsProduct(p, f, g) && error' == error + 8 + if error == 0 then 0 else 1
    ensures (8 * f + error) * (1024 * g + 509) < 1024 * ((8 * p + error') * 0x1_0000_0000_0000_0000)
    ensures (8 * f - error) * (1024 * g - 509) > 1024 * ((8 * p - error') * 0x1_0000_0000_0000_0000)
  {
    MulMono(g, 0x1_0000_0000_0000_0000, error);
    assert (8 * f + error) * (1024 * g + 509) == 8192 * (f * g) + 4072 * f + 1024 * (error * g) + 509 * error;
    assert (8 * f - error) * (1024 * g - 509) == 8192 * (f * g) - 4072 * f - 1024 * (error * g) + 509 * error;
  }
}
