/** Little-endian sequences of 28-bit bigits and the numbers they denote. The base of the bigits is
    0x1000_0000 = 2^28 throughout. */
module BigitSeq {
  import opened Arith

  /** 2^28 to the n: the weight of bigit n. */
  ghost function P(n: nat): (p: nat)
    ensures p > 0
  {
    if n == 0 then 1 else 0x1000_0000 * P(n - 1)
  }

  /** m * P(e), kept behind a name so that proofs about loops need no nonlinear arithmetic. */
  ghost function Scale(m: int, e: nat): int {
    m * P(e)
  }

  /** A product behind a name, for the same reason. */
  ghost function Times(f: int, x: int): int {
    f * x
  }

  /** The number denoted by the n lowest bigits. */
  ghost function Val(s: seq<int>, n: nat): int
    requires n <= |s|
  {
    if n == 0 then 0 else Val(s, n - 1) + Scale(s[n - 1], n - 1)
  }

  lemma {:induction false} PAdd(m: nat, n: nat)
    ensures P(m + n) == P(m) * P(n)
  {
    if m != 0 {
      PAdd(m - 1, n);
      MulAssoc(0x1000_0000, P(m - 1), P(n));
    }
  }

  lemma {:induction false} PMono(m: nat, n: nat)
    requires m <= n
    ensures P(m) <= P(n)
  {
    PAdd(m, n - m);
    MulMono(1, P(n - m), P(m));
  }

  lemma PSucc(n: nat)
    ensures P(n + 1) == 0x1000_0000 * P(n)
  {
  }

  lemma PStrict(m: nat, n: nat)
    requires m < n
    ensures 0x1000_0000 * P(m) <= P(n)
  {
  }

  /** Weights as powers of two. */
  lemma {:induction false} PIsPow2(n: nat)
    ensures P(n) == Pow(2, 28 * n)
  {
    if n == 0 {
    } else {
      PIsPow2(n - 1);
      PowAdd(2, 28, 28 * (n - 1));
      assert 28 * n == 28 + 28 * (n - 1);
      Pow2Values();
    }
  }

  // ---- Scale and Times

  lemma ScaleFacts(m: int, e: nat)
    ensures Scale(m, 0) == m && Scale(0, e) == 0 && Scale(1, e) == P(e)
    ensures 0 <= m ==> 0 <= Scale(m, e)
    ensures 0 < m ==> P(e) <= Scale(m, e)
  {
  }

  lemma TimesIs(f: int, x: int)
    ensures Times(f, x) == f * x
  {
  }

  lemma TimesFacts(f: int, x: int, y: int)
    ensures Times(f, x + y) == Times(f, x) + Times(f, y)
    ensures Times(f, x - y) == Times(f, x) - Times(f, y)
    ensures Times(f, 0) == 0 && Times(0, x) == 0 && Times(1, x) == x && Times(-1, x) == -x
  {
  }

  lemma ScaleMul(f: int, m: int, e: nat)
    ensures Scale(Times(f, m), e) == Times(f, Scale(m, e))
  {
  }

  lemma ScaleAdd(m: int, d: nat, e: nat)
    ensures Scale(Scale(m, d), e) == Scale(m, d + e)
  {
    PAdd(d, e);
    MulAssoc(m, P(d), P(e));
  }

  lemma ScaleLe(m: int, m': int, e: nat)
    ensures m <= m' <==> Scale(m, e) <= Scale(m', e)
    ensures m < m' <==> Scale(m, e) < Scale(m', e)
  {
    hide P;
    MulCancel(m, m', P(e));
  }

  lemma ScaleSum(a: int, b: int, e: nat)
    ensures Scale(a + b, e) == Scale(a, e) + Scale(b, e)
    ensures Scale(a - b, e) == Scale(a, e) - Scale(b, e)
  {
  }

  /** Splitting a column sum into the bigit that stays and the carry that moves on. */
  lemma ScaleCarry(total: int, q: int, r: int, e: nat)
    requires total == q * 0x1000_0000 + r
    ensures Scale(total, e) == Scale(q, e + 1) + Scale(r, e)
  {
  }

  // ---- Values

  ghost predicate Bigits(s: seq<int>, n: nat)
    requires n <= |s|
  {
    forall k :: 0 <= k < n ==> 0 <= s[k] < 0x1000_0000
  }

  lemma ValStart(s: seq<int>)
    ensures Val(s, 0) == 0
  {
  }

  lemma ValNext(s: seq<int>, n: nat)
    requires n < |s|
    ensures Val(s, n + 1) == Val(s, n) + Scale(s[n], n)
  {
  }

  lemma {:induction false} ValAgree(s: seq<int>, t: seq<int>, n: nat)
    requires n <= |s| && n <= |t|
    requires forall k :: 0 <= k < n ==> s[k] == t[k]
    ensures Val(s, n) == Val(t, n)
  {
    if n != 0 { ValAgree(s, t, n - 1); }
  }

  /** Writing bigit i on top of the i bigits below it. */
  lemma ValUpdate(s: seq<int>, i: nat, d: int)
    requires i < |s|
    ensures Val(s[i := d], i) == Val(s, i)
    ensures Val(s[i := d], i + 1) == Val(s, i) + Scale(d, i)
  {
    ValAgree(s, s[i := d], i);
  }

  lemma {:induction false} ValBound(s: seq<int>, n: nat)
    requires n <= |s| && Bigits(s, n)
    ensures 0 <= Val(s, n) < P(n)
  {
    if n != 0 {
      ValBound(s, n - 1);
      MulMono(s[n - 1] + 1, 0x1000_0000, P(n - 1));
      MulMono(0, s[n - 1], P(n - 1));
    }
  }

  /** The leading bigit brackets the value. */
  lemma ValTop(s: seq<int>, n: nat)
    requires 0 < n <= |s| && Bigits(s, n)
    ensures Scale(s[n - 1], n - 1) <= Val(s, n) < Scale(s[n - 1] + 1, n - 1)
  {
    hide P, Val;
    ValNext(s, n - 1);
    ValBound(s, n - 1);
    ScaleSum(s[n - 1], 1, n - 1);
  }

  lemma {:induction false} ValZeros(s: seq<int>, m: nat, n: nat)
    requires m <= n <= |s|
    requires forall k :: m <= k < n ==> s[k] == 0
    ensures Val(s, n) == Val(s, m)
  {
    if m < n { ValZeros(s, m, n - 1); }
  }

  /** Equal bigits above m add the same amount to both numbers. */
  lemma {:induction false} ValTailAgree(s: seq<int>, t: seq<int>, m: nat, n: nat)
    requires m <= n && n <= |s| && n <= |t|
    requires forall k :: m <= k < n ==> s[k] == t[k]
    ensures Val(s, n) - Val(s, m) == Val(t, n) - Val(t, m)
  {
    if m < n { ValTailAgree(s, t, m, n - 1); }
  }

  /** Moving all bigits up by z positions. */
  lemma {:induction false} ValShift(s: seq<int>, t: seq<int>, z: nat, n: nat)
    requires n <= |s| && n + z <= |t|
    requires forall k :: 0 <= k < z ==> t[k] == 0
    requires forall k :: z <= k < n + z ==> t[k] == s[k - z]
    ensures Val(t, n + z) == Scale(Val(s, n), z)
  {
    if n == 0 {
      ValZeros(t, 0, z);
    } else {
      ValShift(s, t, z, n - 1);
      ScaleAdd(s[n - 1], n - 1, z);
      ScaleSum(Val(s, n - 1), Scale(s[n - 1], n - 1), z);
    }
  }

  /** A number whose leading bigit is not zero has as many bigits as its size says. */
  lemma LengthFromValue(s: seq<int>, u: nat, n: nat)
    requires u <= |s| && Bigits(s, u) && (u == 0 || s[u - 1] != 0) && Val(s, u) < P(n)
    ensures u <= n
  {
    if u > n {
      ValTop(s, u);
      ScaleFacts(s[u - 1], u - 1);
      PMono(n, u - 1);
    }
  }

  // ---- Bigits counted with the hidden zeros of an exponent

  /** Bigit i of the number Val(s, u) * P(e). */
  ghost function Digit(s: seq<int>, u: nat, e: nat, i: nat): int
    requires u <= |s|
  {
    if i < e || u + e <= i then 0 else s[i - e]
  }

  /** The number Val(s, u) * P(e) without its i lowest bigits. */
  ghost function High(s: seq<int>, u: nat, e: nat, i: nat): int
    requires u <= |s|
    decreases u + e - i
  {
    if u + e <= i then 0 else 0x1000_0000 * High(s, u, e, i + 1) + Digit(s, u, e, i)
  }

  lemma HighStep(s: seq<int>, u: nat, e: nat, i: nat)
    requires u <= |s|
    ensures High(s, u, e, i) == 0x1000_0000 * High(s, u, e, i + 1) + Digit(s, u, e, i)
  {
  }

  /** High drops exactly the low bigits. */
  lemma {:induction false} HighSplit(s: seq<int>, u: nat, e: nat, i: nat)
    requires u <= |s| && i <= u + e
    ensures Scale(High(s, u, e, i), i) + Scale(Val(s, Max(0, i - e)), e) == Scale(Val(s, u), e)
    decreases u + e - i
  {
    var k := Max(0, i - e);
    if i == u + e {
      ScaleFacts(0, i);
    } else {
      HighSplit(s, u, e, i + 1);
      ScaleCarry(High(s, u, e, i), High(s, u, e, i + 1), Digit(s, u, e, i), i);
      if e <= i {
        ValNext(s, k);
        ScaleSum(Val(s, k), Scale(s[k], k), e);
        ScaleAdd(s[k], k, e);
      } else {
        ScaleFacts(0, i);
      }
    }
  }

  /** Dropping bigits loses less than one unit of the weight kept, and nothing at all below the exponent. */
  lemma HighBounds(s: seq<int>, u: nat, e: nat, i: nat)
    requires u <= |s| && Bigits(s, u)
    ensures Scale(High(s, u, e, i), i) <= Scale(Val(s, u), e) < Scale(High(s, u, e, i) + 1, i)
    ensures i <= e ==> Scale(High(s, u, e, i), i) == Scale(Val(s, u), e)
  {
    hide P, Val, Scale;
    var h := High(s, u, e, i);
    var k := if u + e <= i then u else Max(0, i - e);
    ScaleSum(h, 1, i);
    ScaleFacts(0, i);
    ScaleFacts(1, i);
    ValBound(s, k);
    ScaleLe(Val(s, k), P(k), e);
    ScaleLe(0, Val(s, k), e);
    ScaleFacts(0, e);
    ScaleFacts(1, k);
    ScaleAdd(1, k, e);
    ScaleFacts(1, k + e);
    if i <= u + e { HighSplit(s, u, e, i); }
    if e <= i { PMono(k + e, i); }
    if i <= e {
      assert Val(s, 0) == 0 by { ValZero(s); }
    }
  }

  lemma ValZero(s: seq<int>)
    ensures Val(s, 0) == 0
  {
  }
}
