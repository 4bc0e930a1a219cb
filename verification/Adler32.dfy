/** Adler-32: the per-byte definition, the loops that put the modulo off, division-free reduction, and combination. */
module Adler32Model {
  import opened Arith

  const BASE := 65521
  const NMAX := 5552

  // ---- The definition of section 9 of RFC 1950

  /** The two sums after the bytes of s, reduced after every byte. */
  function Sums(a: int, b: int, s: seq<byte>): (int, int) {
    if s == [] then (a % 65521, b % 65521)
    else
      var (x, y) := Sums(a, b, s[..|s| - 1]);
      var x' := (x + (s[|s| - 1] as int)) % 65521;
      (x', (y + x') % 65521)
  }

  function Pack(a: int, b: int): int { b * 0x1_0000 + a }

  /** The checksum of s, continuing from a checksum. */
  function Adler(adler: int, s: seq<byte>): int {
    var (a, b) := Sums(adler % 0x1_0000, adler / 0x1_0000, s);
    Pack(a, b)
  }

  ghost predicate IsChecksum(adler: int) {
    0 <= adler && adler % 0x1_0000 < BASE && adler / 0x1_0000 < BASE
  }

  // ---- The same sums without reduction

  function First(a: int, s: seq<byte>): int {
    if s == [] then a else First(a, s[..|s| - 1]) + (s[|s| - 1] as int)
  }

  function Second(a: int, b: int, s: seq<byte>): int {
    if s == [] then b else Second(a, b, s[..|s| - 1]) + First(a, s)
  }

  /** Reduction may be put off to the end. */
  lemma {:induction false} SumsAreReduced(a: int, b: int, s: seq<byte>)
    ensures Sums(a, b, s) == (First(a, s) % 65521, Second(a, b, s) % 65521)
  {
    if s != [] {
      var r := s[..|s| - 1];
      SumsAreReduced(a, b, r);
      ModSum(First(a, r), s[|s| - 1] as int);
      ModSum(Second(a, b, r), First(a, s) % 65521);
      ModSum(First(a, s), Second(a, b, r));
    }
  }

  lemma ModSum(x: int, y: int)
    ensures (x % 65521 + y) % 65521 == (x + y) % 65521
  {
  }

  lemma SumsNext(a: int, b: int, s: seq<byte>, i: nat)
    requires i < |s|
    ensures First(a, s[..i + 1]) == First(a, s[..i]) + (s[i] as int)
    ensures Second(a, b, s[..i + 1]) == Second(a, b, s[..i]) + First(a, s[..i + 1])
  {
    assert s[..i + 1][..i] == s[..i];
  }

  /** Starting elsewhere adds the start to the first sum, and the start once per byte to the second. */
  lemma {:induction false} SumsFrom(a: int, b: int, s: seq<byte>)
    ensures First(a, s) == a - 1 + First(1, s)
    ensures Second(a, b, s) == b + (a - 1) * |s| + Second(1, 0, s)
  {
    if s != [] {
      SumsFrom(a, b, s[..|s| - 1]);
      assert (a - 1) * |s| == (a - 1) * (|s| - 1) + (a - 1);
    } else {
      assert (a - 1) * |s| == 0;
    }
  }

  lemma {:induction false} SumsConcat(a: int, b: int, s: seq<byte>, t: seq<byte>)
    ensures First(a, s + t) == First(First(a, s), t)
    ensures Second(a, b, s + t) == Second(First(a, s), Second(a, b, s), t)
  {
    if t == [] {
      assert s + t == s;
    } else {
      assert (s + t)[..|s + t| - 1] == s + t[..|t| - 1];
      SumsConcat(a, b, s, t[..|t| - 1]);
    }
  }

  // ---- Bounds

  function Triangle(k: nat): nat { if k == 0 then 0 else Triangle(k - 1) + k }

  lemma {:induction false} TriangleIs(k: nat)
    ensures 2 * Triangle(k) == k * (k + 1)
  {
    if k != 0 { TriangleIs(k - 1); }
  }

  lemma {:induction false} TriangleMono(j: nat, k: nat)
    requires j <= k
    ensures Triangle(j) <= Triangle(k)
  {
    if j < k { TriangleMono(j, k - 1); }
  }

  /** After k bytes from sums of 16 bits. */
  ghost predicate Bounded(a: int, b: int, k: nat) {
    0 <= a <= 65535 + 255 * k && 0 <= b <= 65535 * (k + 1) + 255 * Triangle(k)
  }

  /** NMAX bytes fit into 32 bits. */
  lemma Fits(a: int, b: int, k: nat)
    requires Bounded(a, b, k) && k <= NMAX
    ensures a <= 0xffff_ffff && b <= 0xffff_ffff
    ensures k <= 15 ==> a < 2 * BASE && b < 0x1000_0000
  {
    hide Triangle;
    TriangleMono(k, NMAX);
    TriangleIs(NMAX);
    if k <= 15 {
      TriangleMono(k, 15);
      TriangleIs(15);
    }
  }

  // ---- Division-free reduction

  /** 65536 is 15 modulo 65521. */
  function Chop(a: int): int {
    var tmp := a / 0x1_0000;
    a % 0x1_0000 + (tmp * 16 - tmp)
  }

  function Mod28(a0: int): int {
    var a := Chop(a0);
    if a >= 65521 then a - 65521 else a
  }

  function Mod(a: int): int { Mod28(Chop(a)) }

  /** 2^32 is 225 modulo 65521. */
  function Mod63(a0: int): int {
    var tmp := a0 / 0x1_0000_0000;
    var a := a0 % 0x1_0000_0000 + (tmp * 256 - tmp * 32 + tmp);
    var b := Chop(Chop(a));
    if b >= 65521 then b - 65521 else b
  }

  lemma ChopKeeps(a: int)
    requires 0 <= a
    ensures 0 <= Chop(a) && Chop(a) % 65521 == a % 65521
    ensures a < 0x1000_0000 ==> Chop(a) < 2 * 65521
    ensures a < 0x1_0000_0000 ==> Chop(a) < 0x1000_0000
    ensures a < 0x100_0000_0000 ==> Chop(a) < 0x1000_0000
  {
    var tmp := a / 0x1_0000;
    assert a == Chop(a) + 65521 * tmp;
    ModMultiple(Chop(a), tmp);
  }

  lemma ModMultiple(x: int, k: int)
    ensures (x + 65521 * k) % 65521 == x % 65521
  {
  }

  lemma Mod28Is(a: int)
    requires 0 <= a < 0x1000_0000
    ensures Mod28(a) == a % BASE
  {
  }

  lemma ModIs(a: int)
    requires 0 <= a < 0x1_0000_0000
    ensures Mod(a) == a % BASE
  {
    ChopKeeps(a);
    Mod28Is(Chop(a));
  }

  lemma Mod63Is(a: int)
    requires 0 <= a < 0x8000_0000_0000_0000
    ensures Mod63(a) == a % BASE
  {
    var tmp := a / 0x1_0000_0000;
    var b := a % 0x1_0000_0000 + (tmp * 256 - tmp * 32 + tmp);
    assert a == b + 65521 * (65551 * tmp);
    ModMultiple(b, 65551 * tmp);
    ChopKeeps(b);
    ChopKeeps(Chop(b));
  }

  /** The MOD macros, in the two forms they can be compiled to. */
  method Reduce(a: uint32, noDivide: bool) returns (r: uint32)
    ensures r == a % BASE
  {
    if noDivide {
      ModIs(a);
      r := Mod(a);
    } else {
      r := a % BASE;
    }
  }

  // ---- adler32_z

  /** The running sums after i bytes of buf, k of them since the last reduction. */
  ghost predicate Running(a0: int, b0: int, buf: seq<byte>, i: int, k: int, a: int, b: int) {
    && 0 <= k <= i <= |buf| && Bounded(a, b, k)
    && a % 65521 == First(a0, buf[..i]) % 65521 && b % 65521 == Second(a0, b0, buf[..i]) % 65521
  }

  /** DO1. */
  lemma OneByte(a0: int, b0: int, buf: seq<byte>, i: int, k: int, a: int, b: int)
    requires Running(a0, b0, buf, i, k, a, b) && i < |buf|
    ensures var a' := a + (buf[i] as int); Running(a0, b0, buf, i + 1, k + 1, a', b + a')
  {
    SumsNext(a0, b0, buf, i);
    var x := buf[i] as int;
    ByteBound(buf[i]);
    ModSum(a, x);
    ModSum(First(a0, buf[..i]), x);
    ModSum(a + x, b);
    ModSum(First(a0, buf[..i + 1]), b);
    ModSum(b, First(a0, buf[..i + 1]));
    ModSum(Second(a0, b0, buf[..i]), First(a0, buf[..i + 1]));
  }

  lemma ByteBound(x: byte)
    ensures 0 <= x as int <= 255
  {
  }

  /** Reduced sums count as fresh ones; they fit 16 bits. */
  lemma Restart(a0: int, b0: int, buf: seq<byte>, i: int, k: int, a: int, b: int)
    requires Running(a0, b0, buf, i, k, a, b)
    ensures Running(a0, b0, buf, i, 0, a % 65521, b % 65521)
  {
  }

  /** count bytes without a reduction. */
  method AddBytes(a: uint32, b: uint32, buf: seq<byte>, from: nat, count: nat,
                  ghost a0: int, ghost b0: int, ghost k: nat)
    returns (adler: uint32, sum2: uint32)
    requires Running(a0, b0, buf, from, k, a, b) && from + count <= |buf| && k + count <= NMAX
    ensures Running(a0, b0, buf, from + count, k + count, adler, sum2)
  {
    hide Running, Bounded;
    adler, sum2 := a, b;
    for j := 0 to count
      invariant Running(a0, b0, buf, from + j, k + j, adler, sum2)
    {
      OneByte(a0, b0, buf, from + j, k + j, adler, sum2);
      RunningFits(a0, b0, buf, from + j + 1, k + j + 1,
        adler + (buf[from + j] as int), sum2 + (adler + (buf[from + j] as int)));
      adler := adler + (buf[from + j] as int);
      sum2 := sum2 + adler;
    }
  }

  lemma RunningFits(a0: int, b0: int, buf: seq<byte>, i: int, k: int, a: int, b: int)
    requires Running(a0, b0, buf, i, k, a, b) && k <= NMAX
    ensures 0 <= a <= 0xffff_ffff && 0 <= b <= 0xffff_ffff
    ensures k <= 15 ==> a < 2 * BASE && b < 0x1000_0000
  {
    Fits(a, b, k);
  }

  lemma RunningStart(a: int, b: int, buf: seq<byte>)
    requires 0 <= a <= 0xffff && 0 <= b <= 0xffff
    ensures Running(a, b, buf, 0, 0, a, b)
  {
  }

  lemma RunningEnd(a0: int, b0: int, buf: seq<byte>, k: int, a: int, b: int)
    requires Running(a0, b0, buf, |buf|, k, a, b)
    ensures Sums(a0, b0, buf) == (a % BASE, b % BASE)
  {
    assert buf[..|buf|] == buf;
    SumsAreReduced(a0, b0, buf);
  }

  lemma Packed(a: int, b: int)
    requires 0 <= a < BASE && 0 <= b < BASE
    ensures Pack(a, b) % 0x1_0000 == a && Pack(a, b) / 0x1_0000 == b && IsChecksum(Pack(a, b))
    ensures 0 <= Pack(a, b) <= 0xffff_ffff
  {
  }

  /** The sums reached are the checksum, and others are not. */
  lemma PackedIsAdler(adler0: int, buf: seq<byte>, a: int, b: int)
    requires 0 <= a < BASE && 0 <= b <= 0xffff && Sums(adler0 % 0x1_0000, adler0 / 0x1_0000, buf).0 == a
    requires 0 <= Sums(adler0 % 0x1_0000, adler0 / 0x1_0000, buf).1 < BASE
    ensures Pack(a, b) == Adler(adler0, buf) <==> b == Sums(adler0 % 0x1_0000, adler0 / 0x1_0000, buf).1
    ensures b < BASE ==> IsChecksum(Pack(a, b))
    ensures 0 <= Pack(a, b) <= 0xffff_ffff
  {
  }

  /** A single byte needs no division, but one subtraction may not be enough for a second sum that was not reduced. */
  method AdlerByte(a: uint32, b: uint32, buf: seq<byte>) returns (adler: uint32, sum2: uint32)
    requires a <= 0xffff && b <= 0xffff && |buf| == 1
    ensures adler == Sums(a, b, buf).0 < BASE && sum2 <= 0xffff
    ensures if SingleReduces(a, b, buf[0]) then sum2 == Sums(a, b, buf).1 < BASE else BASE <= sum2
  {
    hide Running, Bounded, Sums, First, Second;
    RunningStart(a, b, buf);
    OneByte(a, b, buf, 0, 0, a, b);
    ByteBound(buf[0]);
    adler := a + (buf[0] as int);
    RunningEnd(a, b, buf, 1, adler, b + adler);
    SingleByte(adler, b);
    SumsBound(a, b, buf);
    if adler >= BASE {
      adler := adler - BASE;
    }
    sum2 := b + adler;
    if sum2 >= BASE {
      sum2 := sum2 - BASE;
    }
  }

  /** The second sum after one byte is less than twice the base. */
  predicate SingleReduces(a: int, b: int, x: byte) {
    b + (a + (x as int)) % BASE < 2 * BASE
  }

  lemma SumsBound(a: int, b: int, s: seq<byte>)
    ensures 0 <= Sums(a, b, s).0 < BASE && 0 <= Sums(a, b, s).1 < BASE
  {
  }

  /** Fewer than sixteen bytes: one subtraction, and a reduction of a small number. */
  method AdlerShort(a: uint32, b: uint32, buf: seq<byte>, noDivide: bool) returns (adler: uint32, sum2: uint32)
    requires a <= 0xffff && b <= 0xffff && |buf| < 16
    ensures Sums(a, b, buf) == (adler, sum2) && adler < BASE && sum2 < BASE
  {
    hide Running, Bounded, Sums, First, Second, Mod28;
    RunningStart(a, b, buf);
    adler, sum2 := AddBytes(a, b, buf, 0, |buf|, a, b, 0);
    RunningFits(a, b, buf, |buf|, |buf|, adler, sum2);
    RunningEnd(a, b, buf, |buf|, adler, sum2);
    SingleByte(adler, 0);
    if adler >= BASE {
      adler := adler - BASE;
    }
    Mod28Is(sum2);
    sum2 := if noDivide then Mod28(sum2) else sum2 % BASE;
  }

  /** Blocks of NMAX bytes with one reduction each, then the rest with one more. */
  method AdlerLong(a: uint32, b: uint32, buf: seq<byte>, noDivide: bool) returns (adler: uint32, sum2: uint32)
    requires a <= 0xffff && b <= 0xffff && 16 <= |buf|
    ensures Sums(a, b, buf) == (adler, sum2) && adler < BASE && sum2 < BASE
  {
    hide Running, Bounded, Sums, First, Second;
    adler, sum2 := a, b;
    RunningStart(adler, sum2, buf);
    var i := 0;
    while |buf| - i >= NMAX
      invariant 0 <= i <= |buf| && Running(a, b, buf, i, 0, adler, sum2)
      invariant i > 0 ==> adler < BASE && sum2 < BASE
    {
      var start, n := i, NMAX / 16;
      while n > 0
        invariant 0 <= n <= NMAX / 16 && i == start + 16 * (NMAX / 16 - n) && start + NMAX <= |buf|
        invariant Running(a, b, buf, i, i - start, adler, sum2)
      {
        adler, sum2 := AddBytes(adler, sum2, buf, i, 16, a, b, i - start);
        i := i + 16;
        n := n - 1;
      }
      Restart(a, b, buf, i, NMAX, adler, sum2);
      adler := Reduce(adler, noDivide);
      sum2 := Reduce(sum2, noDivide);
    }
    if i < |buf| {
      adler, sum2 := AdlerRest(adler, sum2, buf, i, noDivide, a, b);
    }
    RunningEnd(a, b, buf, 0, adler, sum2);
  }

  method AdlerRest(a: uint32, b: uint32, buf: seq<byte>, start: nat, noDivide: bool, ghost a0: int, ghost b0: int)
    returns (adler: uint32, sum2: uint32)
    requires start <= |buf| < start + NMAX && Running(a0, b0, buf, start, 0, a, b)
    ensures Running(a0, b0, buf, |buf|, 0, adler, sum2) && adler < BASE && sum2 < BASE
  {
    hide Running;
    adler, sum2 := a, b;
    var i := start;
    while |buf| - i >= 16
      invariant start <= i <= |buf| && Running(a0, b0, buf, i, i - start, adler, sum2)
    {
      adler, sum2 := AddBytes(adler, sum2, buf, i, 16, a0, b0, i - start);
      i := i + 16;
    }
    adler, sum2 := AddBytes(adler, sum2, buf, i, |buf| - i, a0, b0, i - start);
    Restart(a0, b0, buf, |buf|, |buf| - start, adler, sum2);
    adler := Reduce(adler, noDivide);
    sum2 := Reduce(sum2, noDivide);
  }

  /** adler32_z: a single byte, a short buffer, or blocks. The result is the checksum for any starting value, also one
      whose halves are not reduced, unless the one subtraction of the first case leaves the second sum unreduced. */
  method Adler32Z(adler0: uint32, buf: seq<byte>, noDivide: bool) returns (r: uint32)
    ensures r == Adler(adler0, buf) <==> |buf| != 1 || SingleReduces(adler0 % 0x1_0000, adler0 / 0x1_0000, buf[0])
    ensures IsChecksum(adler0) ==> r == Adler(adler0, buf) && IsChecksum(r)
  {
    hide Sums, Pack, Adler;
    var sum2: uint32 := adler0 / 0x1_0000 % 0x1_0000;
    var adler: uint32 := adler0 % 0x1_0000;
    if |buf| == 1 {
      adler, sum2 := AdlerByte(adler, sum2, buf);
      ByteStart(adler0, buf[0]);
    } else if |buf| < 16 {
      adler, sum2 := AdlerShort(adler, sum2, buf, noDivide);
    } else {
      adler, sum2 := AdlerLong(adler, sum2, buf, noDivide);
    }
    SumsBound(adler0 % 0x1_0000, adler0 / 0x1_0000, buf);
    PackedIsAdler(adler0, buf, adler, sum2);
    r := Pack(adler, sum2);
  }

  lemma ByteStart(adler: uint32, x: byte)
    ensures IsChecksum(adler) ==> SingleReduces(adler % 0x1_0000, adler / 0x1_0000, x)
  {
  }

  /** One byte after a starting value whose second sum is not reduced: the result is not what it should be. */
  lemma UnreducedStart()
    ensures !SingleReduces(65520, 65535, 0) && Adler(0xffff_fff0, [0]) == 0x000d_fff0
  {
    hide Sums;
    SumsOne(65520, 65535, 0);
  }

  lemma SumsOne(a: int, b: int, x: byte)
    ensures var y := (a % BASE + (x as int)) % BASE; Sums(a, b, [x]) == (y, (b % BASE + y) % BASE)
  {
    assert [x][..0] == [];
    assert Sums(a, b, []) == (a % 65521, b % 65521);
  }

  lemma SingleByte(x: int, b: int)
    requires 0 <= x < 2 * BASE && 0 <= b <= 0xffff
    ensures var x' := if x >= BASE then x - BASE else x; var y := b + x';
      && x' == x % BASE && y - BASE <= 0xffff
      && (y < 2 * BASE ==> (if y >= BASE then y - BASE else y) == (b + x) % BASE)
  {
  }

  // ---- adler32_combine_

  /** The checksum of a concatenation, from the checksums of the parts and the length of the second. */
  method Adler32Combine(adler1: uint32, adler2: uint32, length: int, noDivide: bool) returns (r: uint32)
    requires IsChecksum(adler1) && IsChecksum(adler2) && length < 0x8000_0000_0000_0000
    ensures length < 0 ==> r == 0xffff_ffff
    ensures length >= 0 ==> r == Combined(adler1, adler2, length)
  {
    hide Pack, Combined, SecondCombined, ProductMod;
    if length < 0 {
      return 0xffff_ffff;
    }
    var a1: uint32, b1: uint32 := adler1 % 0x1_0000, adler1 / 0x1_0000 % 0x1_0000;
    var a2: uint32, b2: uint32 := adler2 % 0x1_0000, adler2 / 0x1_0000 % 0x1_0000;
    var rem: uint32, sum2: uint32 := LengthTimes(length, a1, noDivide);
    CombineArith(a1, b1, a2, b2, length, rem, sum2);
    ProductModBound(rem, a1);
    var sum1: uint32 := a1 + (a2 + BASE - 1);
    sum2 := sum2 + (b1 + b2 + BASE - rem);
    sum1, sum2 := SubtractBase(sum1, sum2);
    CombinedIs(adler1, adler2, length, sum1, sum2);
    Packed(sum1, sum2);
    r := Pack(sum1, sum2);
  }

  function ProductMod(x: int, y: int): int { x * y % 65521 }

  lemma ProductModBound(x: int, y: int)
    ensures 0 <= ProductMod(x, y) < 65521
  {
  }

  /** The length, reduced, and its product with the first sum, reduced. */
  method LengthTimes(length: int, a1: uint32, noDivide: bool) returns (rem: uint32, product: uint32)
    requires 0 <= length < 0x8000_0000_0000_0000 && a1 < BASE
    ensures rem == length % 65521 && product == ProductMod(rem, a1)
  {
    hide Mod63;
    Mod63Is(length);
    rem := if noDivide then Mod63(length) else length % BASE;
    ProductBound(rem, a1);
    product := Reduce(rem * a1, noDivide);
  }

  /** The final subtractions. */
  method SubtractBase(x: uint32, y: uint32) returns (sum1: uint32, sum2: uint32)
    requires x < 3 * BASE && y < 4 * BASE
    ensures sum1 == x % 65521 && sum2 == y % 65521
  {
    sum1, sum2 := x, y;
    if sum1 >= BASE { sum1 := sum1 - BASE; }
    if sum1 >= BASE { sum1 := sum1 - BASE; }
    if sum2 >= 2 * BASE { sum2 := sum2 - 2 * BASE; }
    if sum2 >= BASE { sum2 := sum2 - BASE; }
  }

  function Combined(adler1: int, adler2: int, length: int): int {
    var (a1, b1, a2, b2) := (adler1 % 0x1_0000, adler1 / 0x1_0000, adler2 % 0x1_0000, adler2 / 0x1_0000);
    Pack((a1 + a2 - 1) % 65521, SecondCombined(a1, b1, b2, length))
  }

  function SecondCombined(a1: int, b1: int, b2: int, length: int): int { (b1 + b2 + length * (a1 - 1)) % 65521 }

  lemma CombinedIs(adler1: uint32, adler2: uint32, length: int, x: int, y: int)
    requires var a1, b1, a2, b2 := adler1 % 0x1_0000, adler1 / 0x1_0000, adler2 % 0x1_0000, adler2 / 0x1_0000;
      x == (a1 + a2 - 1) % 65521 && y == SecondCombined(a1, b1, b2, length)
    ensures Combined(adler1, adler2, length) == Pack(x, y)
  {
  }

  lemma ProductBound(x: int, y: int)
    requires 0 <= x < 65521 && 0 <= y < 65521
    ensures 0 <= x * y <= 0xffff_ffff
  {
    MulMono(x, 65520, y);
    MulMono(0, x, y);
  }

  /** The sums before their final subtractions are the combined ones modulo BASE. */
  lemma CombineArith(a1: int, b1: int, a2: int, b2: int, length: int, rem: int, product: int)
    requires 0 <= a1 < BASE && 0 <= b1 < BASE && 0 <= a2 < BASE && 0 <= b2 < BASE
    requires 0 <= length && rem == length % 65521 && product == ProductMod(rem, a1)
    ensures (a1 + a2 + 65520) % 65521 == (a1 + a2 - 1) % 65521
    ensures (product + b1 + b2 + 65521 - rem) % 65521 == SecondCombined(a1, b1, b2, length)
  {
    var q, p := length / 65521, rem * a1 / 65521;
    DivMod(length, 65521);
    DivMod(rem * a1, 65521);
    LengthProduct(a1, length, q, rem);
    ModMultiple(product + b1 + b2 + 65521 - rem, q * (a1 - 1) + p - 1);
  }

  lemma LengthProduct(a1: int, length: int, q: int, rem: int)
    requires length == q * 65521 + rem
    ensures length * (a1 - 1) == 65521 * (q * (a1 - 1)) + rem * a1 - rem
  {
    MulAssoc(65521, q, a1 - 1);
  }

  /** Combining the checksums of two texts gives the checksum of their concatenation. */
  lemma CombineIsConcatenation(s: seq<byte>, t: seq<byte>)
    ensures IsChecksum(Adler(1, s)) && Combined(Adler(1, s), Adler(1, t), |t|) == Adler(1, s + t)
  {
    hide Sums, First, Second, Pack;
    SumsAreReduced(1, 0, s);
    SumsAreReduced(1, 0, t);
    SumsAreReduced(1, 0, s + t);
    SumsConcat(1, 0, s, t);
    SumsFrom(First(1, s), Second(1, 0, s), t);
    var x, y, u, v, n := First(1, s), Second(1, 0, s), First(1, t), Second(1, 0, t), |t|;
    Packed(x % 65521, y % 65521);
    Packed(u % 65521, v % 65521);
    CombinedModulo(x, y, u, v, n);
    assert Adler(1, s) == Pack(x % 65521, y % 65521) && Adler(1, t) == Pack(u % 65521, v % 65521);
  }

  lemma CombinedModulo(x: int, y: int, u: int, v: int, n: int)
    ensures (x % 65521 + u % 65521 - 1) % 65521 == (x - 1 + u) % 65521
    ensures (y % 65521 + v % 65521 + n * (x % 65521 - 1)) % 65521 == (y + (x - 1) * n + v) % 65521
  {
    var qx, qy, qu, qv := x / 65521, y / 65521, u / 65521, v / 65521;
    var rx, ry, ru, rv := x % 65521, y % 65521, u % 65521, v % 65521;
    ModMultiple(rx + ru - 1, qx + qu);
    assert (x - 1) * n == 65521 * (qx * n) + n * (rx - 1) by {
      assert x - 1 == qx * 65521 + (rx - 1);
      assert (qx * 65521) * n == 65521 * (qx * n) by { MulAssoc(65521, qx, n); }
      assert (x - 1) * n == (qx * 65521) * n + (rx - 1) * n;
    }
    ModMultiple(ry + rv + n * (rx - 1), qy + qv + qx * n);
  }

  // ---- What the halves say

  function Total(s: seq<byte>): nat { if s == [] then 0 else s[0] as int + Total(s[1..]) }

  /** Each byte times the number of bytes from it on. */
  function Weighted(s: seq<byte>): nat { if s == [] then 0 else |s| * (s[0] as int) + Weighted(s[1..]) }

  lemma TotalIs(s: seq<byte>)
    requires s != []
    ensures Total(s) == s[0] as int + Total(s[1..]) && Weighted(s) == Product(|s|, s[0] as int) + Weighted(s[1..])
  {
  }

  function Product(n: int, x: int): int { n * x }

  lemma OnceMore(n: int, x: int)
    ensures Product(n + 1, x) == Product(n, x) + x && Product(1, x) == x
  {
  }

  lemma {:induction false} OneByteMore(s: seq<byte>, c: byte)
    ensures Total(s + [c]) == Total(s) + c as int && Weighted(s + [c]) == Weighted(s) + Total(s) + c as int
  {
    hide Product, Total, Weighted;
    TotalIs(s + [c]);
    TotalOfNone();
    OnceMore(|s|, (s + [c])[0] as int);
    if s == [] {
      assert s + [c] == [c] && [c][1..] == [];
    } else {
      OneByteMore(s[1..], c);
      TotalIs(s);
      assert (s + [c])[1..] == s[1..] + [c];
    }
  }

  lemma TotalOfNone()
    ensures Total([]) == 0 && Weighted([]) == 0
  {
  }

  lemma {:induction false} PlainSums(s: seq<byte>)
    ensures First(1, s) == 1 + Total(s) && Second(1, 0, s) == |s| + Weighted(s)
  {
    if s != [] {
      var r, c := s[..|s| - 1], s[|s| - 1];
      PlainSums(r);
      OneByteMore(r, c);
      assert s == r + [c];
    }
  }

  /** One half is the sum of the bytes and one, the other the sum of those sums, as section 9 of RFC 1950 puts it. */
  lemma HalvesMean(s: seq<byte>)
    ensures Adler(1, s) % 0x1_0000 == (1 + Total(s)) % 65521
    ensures Adler(1, s) / 0x1_0000 == (|s| + Weighted(s)) % 65521
  {
    hide Sums, Total, Weighted;
    SumsAreReduced(1, 0, s);
    PlainSums(s);
  }

  /** The text Wikipedia. */
  const LETTERS: seq<byte> := [0x57, 0x69, 0x6b, 0x69, 0x70, 0x65, 0x64, 0x69, 0x61]

  lemma {:induction false} LettersFrom(i: nat, n: nat, total: nat, weighted: nat)
    requires i < |LETTERS| && n == |LETTERS| - i
    requires Total(LETTERS[i + 1..]) == total && Weighted(LETTERS[i + 1..]) == weighted
    ensures Total(LETTERS[i..]) == LETTERS[i] as int + total
    ensures Weighted(LETTERS[i..]) == n * (LETTERS[i] as int) + weighted
  {
    assert LETTERS[i..][1..] == LETTERS[i + 1..];
  }

  lemma LettersAre()
    ensures Total(LETTERS) == 919 && Weighted(LETTERS) == 4573
  {
    hide Total, Weighted;
    TotalOfNone();
    assert LETTERS[9..] == [] && LETTERS[0..] == LETTERS;
    LettersFrom(8, 1, 0, 0);
    LettersFrom(7, 2, 97, 97);
    LettersFrom(6, 3, 202, 307);
    LettersFrom(5, 4, 302, 607);
    LettersFrom(4, 5, 403, 1011);
    LettersFrom(3, 6, 515, 1571);
    LettersFrom(2, 7, 620, 2201);
    LettersFrom(1, 8, 727, 2950);
    LettersFrom(0, 9, 832, 3790);
  }

  lemma CheckValue()
    ensures Adler(1, LETTERS) == 0x11e60398
  {
    hide Adler, Total, Weighted;
    HalvesMean(LETTERS);
    LettersAre();
    DivMod(Adler(1, LETTERS), 0x1_0000);
  }
}
