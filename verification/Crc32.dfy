/** CRC-32: the bit-by-bit definition, its linearity, and what the tables and byte orders rest on. */
module Crc32Model {
  import opened Arith

  // ---- The definition of section 8 of RFC 1952, one bit at a time

  /** Addition of polynomials over GF(2). */
  function Add(a: bv32, b: bv32): bv32 { a ^ b }

  /** The register after one bit: divide by x, adding the polynomial if a one is shifted out. */
  function Step(c: bv32): bv32 { if Odd(c) then Add(0xedb88320, Half(c)) else Half(c) }

  predicate Odd(c: bv32) { c & 1 == 1 }

  function Half(c: bv32): bv32 { c >> 1 }

  function Steps(c: bv32, n: nat): bv32 { if n == 0 then c else Step(Steps(c, n - 1)) }

  function Byte(b: byte): bv32 { b as bv32 }

  /** The register after the bytes of s. */
  function Register(c: bv32, s: seq<byte>): bv32 {
    if s == [] then c else Steps(Add(Register(c, s[..|s| - 1]), Byte(s[|s| - 1])), 8)
  }

  function Not(c: bv32): bv32 { c ^ 0xffffffff }

  /** The checksum of s, continuing from the checksum crc of what came before. */
  function Crc(crc: bv32, s: seq<byte>): bv32 { Not(Register(Not(crc), s)) }

  // ---- Parts of a register

  function Byte0(x: bv32): bv32 { x & 0xff }

  function Byte1(x: bv32): bv32 { (x >> 8) & 0xff }

  function Byte2(x: bv32): bv32 { (x >> 16) & 0xff }

  function Byte3(x: bv32): bv32 { x >> 24 }

  function Down8(x: bv32): bv32 { x >> 8 }

  function Up8(x: bv32): bv32 { x << 8 }

  function Up16(x: bv32): bv32 { x << 16 }

  function Up24(x: bv32): bv32 { x << 24 }

  function Rest(x: bv32): bv32 { x & 0xffffff00 }

  lemma AddFacts(a: bv32, b: bv32, c: bv32)
    ensures Add(a, b) == Add(b, a) && Add(Add(a, b), c) == Add(a, Add(b, c))
    ensures Add(a, a) == 0 && Add(a, 0) == a && Add(0, a) == a
  {
    XorFacts(a, b, c);
  }

  lemma XorFacts(a: bv32, b: bv32, c: bv32)
    ensures a ^ b == b ^ a && (a ^ b) ^ c == a ^ (b ^ c) && a ^ a == 0 && a ^ 0 == a && 0 ^ a == a
  {
  }

  lemma Parts(x: bv32)
    ensures x == Add(Add(Add(Byte0(x), Up8(Byte1(x))), Up16(Byte2(x))), Up24(Byte3(x)))
    ensures x == Add(Byte0(x), Rest(x)) && Rest(x) & 0xff == 0 && Down8(Rest(x)) == Down8(x)
    ensures Byte0(x) <= 0xff && Byte1(x) <= 0xff && Byte2(x) <= 0xff && Byte3(x) <= 0xff
  {
    XorParts(x);
  }

  lemma XorParts(x: bv32)
    ensures x == (((x & 0xff) ^ (((x >> 8) & 0xff) << 8)) ^ (((x >> 16) & 0xff) << 16)) ^ ((x >> 24) << 24)
    ensures x == (x & 0xff) ^ (x & 0xffffff00) && (x & 0xffffff00) & 0xff == 0 && (x & 0xffffff00) >> 8 == x >> 8
    ensures x & 0xff <= 0xff && (x >> 8) & 0xff <= 0xff && (x >> 16) & 0xff <= 0xff && x >> 24 <= 0xff
  {
  }

  lemma UpAndDown(x: bv32)
    requires x <= 0xff
    ensures Down8(Up8(x)) == x && Down8(Up16(x)) == Up8(x) && Down8(Up24(x)) == Up16(x)
    ensures Up8(x) & 0xff == 0 && Up16(x) & 0xff == 0 && Up24(x) & 0xff == 0
  {
  }

  lemma ByteIsSmall(b: byte)
    ensures Byte(b) <= 0xff
  {
  }

  // ---- Linearity

  lemma StepLinear(a: bv32, b: bv32)
    ensures Step(Add(a, b)) == Add(Step(a), Step(b))
  {
    hide Add, Odd, Half;
    OddSum(a, b);
    HalfSum(a, b);
    AddPoly(0xedb88320, Half(a), Half(b));
  }

  lemma OddSum(a: bv32, b: bv32)
    ensures Odd(Add(a, b)) <==> Odd(a) != Odd(b)
  {
    LastBits(a, b);
  }

  lemma LastBits(a: bv32, b: bv32)
    ensures (a ^ b) & 1 == 1 <==> (a & 1 == 1) != (b & 1 == 1)
  {
  }

  lemma HalfSum(a: bv32, b: bv32)
    ensures Half(Add(a, b)) == Add(Half(a), Half(b))
  {
    XorShifts(a, b);
  }

  lemma XorShifts(a: bv32, b: bv32)
    ensures (a ^ b) >> 1 == (a >> 1) ^ (b >> 1)
  {
  }

  lemma AddPoly(p: bv32, x: bv32, y: bv32)
    ensures Add(Add(p, x), Add(p, y)) == Add(x, y)
    ensures Add(Add(p, x), y) == Add(p, Add(x, y)) && Add(x, Add(p, y)) == Add(p, Add(x, y))
  {
    hide Add;
    AddFacts(p, x, Add(p, y));
    AddFacts(x, p, y);
    AddFacts(p, x, y);
    AddFacts(p, p, Add(x, y));
    AddFacts(Add(x, y), 0, 0);
  }

  lemma {:induction false} StepsLinear(a: bv32, b: bv32, n: nat)
    ensures Steps(Add(a, b), n) == Add(Steps(a, n), Steps(b, n))
  {
    hide Step, Add;
    if n != 0 {
      StepsLinear(a, b, n - 1);
      StepLinear(Steps(a, n - 1), Steps(b, n - 1));
    }
  }

  lemma {:induction false} StepsZero(n: nat)
    ensures Steps(0, n) == 0
  {
    if n != 0 { StepsZero(n - 1); }
  }

  lemma {:induction false} StepsAdd(c: bv32, m: nat, n: nat)
    ensures Steps(c, m + n) == Steps(Steps(c, m), n)
  {
    hide Step;
    if n != 0 { StepsAdd(c, m, n - 1); }
  }

  lemma Eight(c: bv32)
    ensures Steps(c, 8) == Step(Step(Step(Step(Step(Step(Step(Step(c))))))))
  {
    hide Step;
    assert Steps(c, 1) == Step(c) by { assert Steps(c, 0) == c; }
    assert Steps(c, 2) == Step(Steps(c, 1));
    assert Steps(c, 3) == Step(Steps(c, 2));
    assert Steps(c, 4) == Step(Steps(c, 3));
    assert Steps(c, 5) == Step(Steps(c, 4));
    assert Steps(c, 6) == Step(Steps(c, 5));
    assert Steps(c, 7) == Step(Steps(c, 6));
  }

  lemma EvenStep(c: bv32)
    ensures c & 1 == 0 ==> Step(c) == Half(c)
  {
  }

  lemma FourHalves(c: bv32)
    ensures Half(Half(Half(Half(c)))) == c >> 4
  {
  }

  lemma FourZeros(c: bv32)
    requires c & 0xf == 0
    ensures c & 1 == 0 && Half(c) & 1 == 0 && Half(Half(c)) & 1 == 0 && Half(Half(Half(c))) & 1 == 0
  {
  }

  lemma EightZeros(c: bv32)
    requires c & 0xff == 0
    ensures c & 0xf == 0 && (c >> 4) & 0xf == 0 && (c >> 4) >> 4 == c >> 8
  {
  }

  lemma LowZeros(c: bv32)
    requires c & 0xff == 0
    ensures c & 1 == 0 && Half(c) & 1 == 0 && Half(Half(c)) & 1 == 0 && Half(Half(Half(c))) & 1 == 0
    ensures var d := Half(Half(Half(Half(c))));
      d & 1 == 0 && Half(d) & 1 == 0 && Half(Half(d)) & 1 == 0 && Half(Half(Half(d))) & 1 == 0
      && Half(Half(Half(Half(d)))) == Down8(c)
  {
    hide Half;
    EightZeros(c);
    FourZeros(c);
    FourHalves(c);
    FourZeros(c >> 4);
    FourHalves(c >> 4);
  }

  /** Eight steps on zeros are a shift. */
  lemma EightShifts(c: bv32)
    requires c & 0xff == 0
    ensures Steps(c, 8) == Down8(c)
  {
    hide Steps, Step, Half, Down8;
    Eight(c);
    LowZeros(c);
    var d := Half(Half(Half(Half(c))));
    EvenStep(c);
    EvenStep(Half(c));
    EvenStep(Half(Half(c)));
    EvenStep(Half(Half(Half(c))));
    EvenStep(d);
    EvenStep(Half(d));
    EvenStep(Half(Half(d)));
    EvenStep(Half(Half(Half(d))));
  }

  /** One byte through the first table. */
  lemma ByteStep(x: bv32)
    ensures Steps(x, 8) == Add(Steps(Byte0(x), 8), Down8(x))
  {
    hide Steps, Step, Add, Byte0, Byte1, Byte2, Byte3, Rest, Down8, Up8, Up16, Up24;
    Parts(x);
    StepsLinear(Byte0(x), Rest(x), 8);
    EightShifts(Rest(x));
  }

  /** A byte shifted up comes down again. */
  lemma ByteDown(x: bv32)
    requires x <= 0xff
    ensures Steps(Up8(x), 8) == x && Steps(Up16(x), 16) == x && Steps(Up24(x), 24) == x
  {
    hide Steps, Step, Down8, Up8, Up16, Up24;
    UpAndDown(x);
    EightShifts(Up8(x));
    EightShifts(Up16(x));
    EightShifts(Up24(x));
    StepsAdd(Up16(x), 8, 8);
    StepsAdd(Up24(x), 8, 16);
  }

  // ---- Four bytes at a time

  /** A 32-bit load in little-endian order. */
  function Little(b0: byte, b1: byte, b2: byte, b3: byte): bv32 {
    Add(Add(Add(Byte(b0), Up8(Byte(b1))), Up16(Byte(b2))), Up24(Byte(b3)))
  }

  lemma AddWord(c: bv32, x0: bv32, x1: bv32, x2: bv32, x3: bv32)
    ensures Add(c, Add(Add(Add(x0, x1), x2), x3)) == Add(Add(Add(Add(c, x0), x1), x2), x3)
  {
    hide Add;
    AddFacts(c, Add(Add(x0, x1), x2), x3);
    AddFacts(c, Add(x0, x1), x2);
    AddFacts(c, x0, x1);
  }

  /** Four bytes through the register are 32 steps on the register with the word added. */
  lemma WordStep(c: bv32, b0: byte, b1: byte, b2: byte, b3: byte)
    ensures Steps(Add(Steps(Add(Steps(Add(Steps(Add(c, Byte(b0)), 8), Byte(b1)), 8), Byte(b2)), 8), Byte(b3)), 8) ==
            Steps(Add(c, Little(b0, b1, b2, b3)), 32)
  {
    hide Steps, Step, Add, Byte, Up8, Up16, Up24;
    var x1, x2, x3 := Byte(b1), Byte(b2), Byte(b3);
    ByteIsSmall(b1);
    ByteIsSmall(b2);
    ByteIsSmall(b3);
    ByteDown(x1);
    ByteDown(x2);
    ByteDown(x3);
    var y0 := Add(c, Byte(b0));
    var y1 := Add(y0, Up8(x1));
    var y2 := Add(y1, Up16(x2));
    StepsLinear(y0, Up8(x1), 8);
    StepsAdd(y1, 8, 8);
    StepsLinear(y1, Up16(x2), 16);
    StepsAdd(y2, 16, 8);
    StepsLinear(y2, Up24(x3), 24);
    StepsAdd(Add(y2, Up24(x3)), 24, 8);
    AddWord(c, Byte(b0), Up8(x1), Up16(x2), Up24(x3));
  }

  /** The four bytes of a register can be taken separately, each with the zeros that follow it. */
  lemma WordSplit(x: bv32)
    ensures Steps(x, 32) ==
      Add(Add(Add(Steps(Byte0(x), 32), Steps(Byte1(x), 24)), Steps(Byte2(x), 16)), Steps(Byte3(x), 8))
  {
    hide Steps, Step, Add, Byte0, Byte1, Byte2, Byte3, Rest, Down8, Up8, Up16, Up24;
    Parts(x);
    var x0, x1, x2, x3 := Byte0(x), Byte1(x), Byte2(x), Byte3(x);
    ByteDown(x1);
    ByteDown(x2);
    ByteDown(x3);
    StepsAdd(Up8(x1), 8, 24);
    StepsAdd(Up16(x2), 16, 16);
    StepsAdd(Up24(x3), 24, 8);
    StepsLinear(x0, Up8(x1), 32);
    StepsLinear(Add(x0, Up8(x1)), Up16(x2), 32);
    StepsLinear(Add(Add(x0, Up8(x1)), Up16(x2)), Up24(x3), 32);
  }

  // ---- Byte order

  /** ZSWAP32. */
  function Swap(q: bv32): bv32 {
    ((q >> 24) & 0xff) + ((q >> 8) & 0xff00) + ((q & 0xff00) << 8) + ((q & 0xff) << 24)
  }

  lemma SwapIs(q: bv32)
    ensures Swap(q) == (q >> 24) | ((q >> 8) & 0xff00) | ((q & 0xff00) << 8) | (q << 24)
  {
  }

  lemma SwapTwice(a: bv32)
    ensures Swap(Swap(a)) == a
  {
  }

  lemma SwapLinear(a: bv32, b: bv32)
    ensures Swap(Add(a, b)) == Add(Swap(a), Swap(b))
  {
  }

  lemma SwapBytes(a: bv32)
    ensures Byte0(Swap(a)) == Byte3(a) && Byte1(Swap(a)) == Byte2(a)
    ensures Byte2(Swap(a)) == Byte1(a) && Byte3(Swap(a)) == Byte0(a)
  {
  }

  lemma SwapShift(a: bv32)
    ensures Swap(Down8(a)) == Up8(Swap(a)) && Swap(Not(a)) == Not(Swap(a))
  {
  }

  lemma SwapLoad(b0: byte, b1: byte, b2: byte, b3: byte)
    ensures Swap(Little(b0, b1, b2, b3)) == Little(b3, b2, b1, b0)
  {
    hide Swap, Little;
    LittleIs(b0, b1, b2, b3);
    LittleIs(b3, b2, b1, b0);
    SwapIs(Little(b0, b1, b2, b3));
    OrLoad(b0, b1, b2, b3);
  }

  lemma LittleIs(b0: byte, b1: byte, b2: byte, b3: byte)
    ensures Little(b0, b1, b2, b3) ==
      (((b0 as bv32) ^ ((b1 as bv32) << 8)) ^ ((b2 as bv32) << 16)) ^ ((b3 as bv32) << 24)
  {
  }

  lemma OrLoad(b0: byte, b1: byte, b2: byte, b3: byte)
    ensures var x := (((b0 as bv32) ^ ((b1 as bv32) << 8)) ^ ((b2 as bv32) << 16)) ^ ((b3 as bv32) << 24);
      (x >> 24) | ((x >> 8) & 0xff00) | ((x & 0xff00) << 8) | (x << 24) ==
      (((b3 as bv32) ^ ((b2 as bv32) << 8)) ^ ((b1 as bv32) << 16)) ^ ((b0 as bv32) << 24)
  {
  }

  // ---- The tables

  /** z_crc_t crc_table[8][256]: table k holds the register after each byte and k more zero bytes; the upper four
      tables are the lower four in the other byte order. */
  class CrcTables {
    const table: array2<bv32>

    ghost predicate Made()
      reads table
    {
      && table.Length0 == 8 && table.Length1 == 256
      && (forall k, n :: 0 <= k < 4 && 0 <= n < 256 ==> table[k, n] == Entry(k, n))
      && (forall k, n :: 4 <= k < 8 && 0 <= n < 256 ==> table[k, n] == Swap(Entry(k - 4, n)))
    }

    /** make_crc_table. */
    constructor ()
      ensures Made() && fresh(table)
    {
      table := new bv32[8, 256]((i, j) => 0);
      new;
      MakeFirst();
      MakeOthers();
    }

    /** The register after every byte, one bit at a time. */
    method MakeFirst()
      requires table.Length0 == 8 && table.Length1 == 256
      modifies table
      ensures forall n :: 0 <= n < 256 ==> table[0, n] == Entry(0, n)
    {
      hide Steps, Step;
      var poly := Polynomial();
      for n := 0 to 256
        invariant forall i :: 0 <= i < n ==> table[0, i] == Entry(0, i)
      {
        var c := n as bv32;
        StepsNext(c, 0);
        for k := 0 to 8
          modifies {}
          invariant c == Steps(n as bv32, k)
        {
          StepIs(c, poly);
          StepsNext(n as bv32, k);
          c := if c & 1 != 0 then Add(poly, c >> 1) else c >> 1;
        }
        table[0, n] := c;
      }
    }

    /** Each byte followed by one, two and three zeros, and the byte reversals. */
    method MakeOthers()
      requires table.Length0 == 8 && table.Length1 == 256
      requires forall n :: 0 <= n < 256 ==> table[0, n] == Entry(0, n)
      modifies table
      ensures Made()
    {
      hide Swap, Entry;
      for n := 0 to 256
        invariant forall i :: 0 <= i < 256 ==> table[0, i] == Entry(0, i)
        invariant forall i :: 0 <= i < n ==> RowMade(i)
      {
        label Before:
        MakeRow(n);
        forall i | 0 <= i < n ensures RowMade(i) {
          assert old@Before(RowMade(i));
        }
      }
      forall k, n | 0 <= k < 4 && 0 <= n < 256
        ensures table[k, n] == Entry(k, n) && table[k + 4, n] == Swap(Entry(k, n))
      {
        assert RowMade(n);
        if k == 0 {} else if k == 1 {} else if k == 2 {} else {}
      }
      forall k, n | 4 <= k < 8 && 0 <= n < 256 ensures table[k, n] == Swap(Entry(k - 4, n)) {
        assert table[(k - 4) + 4, n] == Swap(Entry(k - 4, n));
      }
    }

    /** Entry n of all tables. */
    ghost predicate RowMade(n: int)
      requires table.Length0 == 8 && table.Length1 == 256 && 0 <= n < 256
      reads table
    {
      && table[0, n] == Entry(0, n) && table[1, n] == Entry(1, n)
      && table[2, n] == Entry(2, n) && table[3, n] == Entry(3, n)
      && table[4, n] == Swap(Entry(0, n)) && table[5, n] == Swap(Entry(1, n))
      && table[6, n] == Swap(Entry(2, n)) && table[7, n] == Swap(Entry(3, n))
    }

    method MakeRow(n: int)
      requires table.Length0 == 8 && table.Length1 == 256 && 0 <= n < 256
      requires forall i :: 0 <= i < 256 ==> table[0, i] == Entry(0, i)
      modifies table
      ensures RowMade(n) && forall k, i :: 0 <= k < 8 && 0 <= i < 256 && i != n ==> table[k, i] == old(table[k, i])
    {
      hide Swap, Entry, Add, Byte0, Down8;
      var c := table[0, n];
      table[4, n] := Swap(c);
      for k := 1 to 4
        invariant c == Entry(k - 1, n)
        invariant forall j, i :: 0 <= j < 8 && 0 <= i < 256 && i != n ==> table[j, i] == old(table[j, i])
        invariant forall j :: 0 <= j < k ==> table[j, n] == Entry(j, n)
        invariant forall j :: 4 <= j < k + 4 ==> table[j, n] == Swap(Entry(j - 4, n))
      {
        NextEntry(k, n, c);
        c := Add(table[0, Byte0(c) as int], Down8(c));
        PutBoth(k, n, c);
      }
    }

    /** Entry n of table k, and byte-swapped in table k + 4. */
    method PutBoth(k: int, n: int, c: bv32)
      requires table.Length0 == 8 && table.Length1 == 256 && 0 <= n < 256 && 0 <= k < 4
      modifies table
      ensures table[k, n] == c && table[k + 4, n] == Swap(c)
      ensures forall j, i :: 0 <= j < 8 && 0 <= i < 256 && (i != n || (j != k && j != k + 4)) ==>
        table[j, i] == old(table[j, i])
    {
      hide Swap;
      table[k, n] := c;
      table[k + 4, n] := Swap(c);
    }

    // ---- The loops

    /** DO1. */
    method OneByte(c: bv32, b: byte) returns (r: bv32)
      requires Made()
      ensures r == Steps(Add(c, Byte(b)), 8)
    {
      hide Steps, Step, Add, Byte, Byte0, Down8;
      ByteIndex(c, b);
      ByteStep(Add(c, Byte(b)));
      r := Add(table[0, Byte0(Add(c, Byte(b))) as int], Down8(c));
    }

    /** crc32_z without the four-byte loops: eight bytes at a time, then one. */
    method Crc32Bytes(crc: bv32, buf: seq<byte>) returns (r: bv32)
      requires Made()
      ensures r == Crc(crc, buf)
    {
      hide Register, Steps, Add, Byte;
      var c := Not(crc);
      var i := 0;
      RegisterNone(c, buf);
      while |buf| - i >= 8
        invariant 0 <= i <= |buf| && c == Register(Not(crc), buf[..i])
      {
        var start := i;
        while i < start + 8
          invariant start <= i <= start + 8 <= |buf| && c == Register(Not(crc), buf[..i])
        {
          RegisterByte(Not(crc), buf, i);
          c := OneByte(c, buf[i]);
          i := i + 1;
        }
      }
      while i < |buf|
        invariant 0 <= i <= |buf| && c == Register(Not(crc), buf[..i])
      {
        RegisterByte(Not(crc), buf, i);
        c := OneByte(c, buf[i]);
        i := i + 1;
      }
      assert buf[..|buf|] == buf;
      r := Not(c);
    }

    /** DOLIT4. */
    method LittleWord(c0: bv32, b0: byte, b1: byte, b2: byte, b3: byte) returns (c: bv32)
      requires Made()
      ensures c == Steps(Add(c0, Little(b0, b1, b2, b3)), 32)
    {
      hide Steps, Step, Add, Little, Byte0, Byte1, Byte2, Byte3;
      c := Add(c0, Little(b0, b1, b2, b3));
      WordSplit(c);
      WordIndices(c);
      c := Add(Add(Add(table[3, Byte0(c) as int], table[2, Byte1(c) as int]), table[1, Byte2(c) as int]),
        table[0, Byte3(c) as int]);
    }

    /** crc32_little: bytes up to a four-byte boundary, then 32 bytes, then four, then one at a time. */
    method Crc32Little(crc: bv32, buf: seq<byte>, address: nat) returns (r: bv32)
      requires Made()
      ensures r == Crc(crc, buf)
    {
      hide Register, Steps, Add, Byte, Little;
      var c := Not(crc);
      var i := 0;
      RegisterNone(c, buf);
      while i < |buf| && (address + i) % 4 != 0
        invariant 0 <= i <= |buf| && c == Register(Not(crc), buf[..i])
      {
        RegisterByte(Not(crc), buf, i);
        c := OneByte(c, buf[i]);
        i := i + 1;
      }
      while |buf| - i >= 32
        invariant 0 <= i <= |buf| && c == Register(Not(crc), buf[..i])
      {
        var start := i;
        while i < start + 32
          invariant start <= i <= start + 32 <= |buf| && (i - start) % 4 == 0 && c == Register(Not(crc), buf[..i])
        {
          RegisterWord(Not(crc), buf, i);
          c := LittleWord(c, buf[i], buf[i + 1], buf[i + 2], buf[i + 3]);
          i := i + 4;
        }
      }
      while |buf| - i >= 4
        invariant 0 <= i <= |buf| && c == Register(Not(crc), buf[..i])
      {
        RegisterWord(Not(crc), buf, i);
        c := LittleWord(c, buf[i], buf[i + 1], buf[i + 2], buf[i + 3]);
        i := i + 4;
      }
      while i < |buf|
        invariant 0 <= i <= |buf| && c == Register(Not(crc), buf[..i])
      {
        RegisterByte(Not(crc), buf, i);
        c := OneByte(c, buf[i]);
        i := i + 1;
      }
      assert buf[..|buf|] == buf;
      r := Not(c);
    }

    /** The byte step of crc32_big, on a register in the other byte order. */
    method OneByteBig(c: bv32, b: byte, ghost little: bv32) returns (r: bv32)
      requires Made() && c == Swap(little)
      ensures r == Swap(Steps(Add(little, Byte(b)), 8))
    {
      hide Steps, Step, Add, Byte, Byte0, Byte3, Down8, Up8, Swap;
      ByteIndex(little, b);
      ByteStep(Add(little, Byte(b)));
      SwapBytes(little);
      SwapShift(little);
      BigIndex(little, b);
      SwapLinear(Steps(Byte0(Add(little, Byte(b))), 8), Down8(little));
      r := Add(table[4, Add(Byte3(c), Byte(b)) as int], Up8(c));
    }

    /** DOBIG4: a big-endian load and the swapped tables. */
    method BigWord(c0: bv32, b0: byte, b1: byte, b2: byte, b3: byte, ghost little: bv32) returns (c: bv32)
      requires Made() && c0 == Swap(little)
      ensures c == Swap(Steps(Add(little, Little(b0, b1, b2, b3)), 32))
    {
      hide Steps, Step, Add, Little, Byte0, Byte1, Byte2, Byte3, Swap;
      SwapLoad(b0, b1, b2, b3);
      SwapLinear(little, Little(b0, b1, b2, b3));
      c := Add(c0, Little(b3, b2, b1, b0));
      ghost var x := Add(little, Little(b0, b1, b2, b3));
      assert c == Swap(x);
      WordSplit(x);
      WordIndices(x);
      WordIndices(c);
      SwapBytes(x);
      SwapFour(Steps(Byte0(x), 32), Steps(Byte1(x), 24), Steps(Byte2(x), 16), Steps(Byte3(x), 8));
      c := Add(Add(Add(table[4, Byte0(c) as int], table[5, Byte1(c) as int]), table[6, Byte2(c) as int]),
        table[7, Byte3(c) as int]);
    }

    /** crc32_big. */
    method Crc32Big(crc: bv32, buf: seq<byte>, address: nat) returns (r: bv32)
      requires Made()
      ensures r == Crc(crc, buf)
    {
      hide Register, Steps, Add, Byte, Little, Swap, Not;
      var c := Not(Swap(crc));
      SwapShift(crc);
      var i := 0;
      RegisterNone(Not(crc), buf);
      while i < |buf| && (address + i) % 4 != 0
        invariant 0 <= i <= |buf| && c == Swap(Register(Not(crc), buf[..i]))
      {
        RegisterByte(Not(crc), buf, i);
        c := OneByteBig(c, buf[i], Register(Not(crc), buf[..i]));
        i := i + 1;
      }
      while |buf| - i >= 32
        invariant 0 <= i <= |buf| && c == Swap(Register(Not(crc), buf[..i]))
      {
        var start := i;
        while i < start + 32
          invariant start <= i <= start + 32 <= |buf| && (i - start) % 4 == 0 && c == Swap(Register(Not(crc), buf[..i]))
        {
          RegisterWord(Not(crc), buf, i);
          c := BigWord(c, buf[i], buf[i + 1], buf[i + 2], buf[i + 3], Register(Not(crc), buf[..i]));
          i := i + 4;
        }
      }
      while |buf| - i >= 4
        invariant 0 <= i <= |buf| && c == Swap(Register(Not(crc), buf[..i]))
      {
        RegisterWord(Not(crc), buf, i);
        c := BigWord(c, buf[i], buf[i + 1], buf[i + 2], buf[i + 3], Register(Not(crc), buf[..i]));
        i := i + 4;
      }
      while i < |buf|
        invariant 0 <= i <= |buf| && c == Swap(Register(Not(crc), buf[..i]))
      {
        RegisterByte(Not(crc), buf, i);
        c := OneByteBig(c, buf[i], Register(Not(crc), buf[..i]));
        i := i + 1;
      }
      assert buf[..|buf|] == buf;
      SwapShift(Register(Not(crc), buf));
      SwapTwice(Not(Register(Not(crc), buf)));
      r := Swap(Not(c));
    }

    /** crc32_z: the byte order of the machine decides which loop runs. */
    method Crc32Z(crc: bv32, buf: seq<byte>, address: nat, fourBytes: bool, littleEndian: bool) returns (r: bv32)
      requires Made()
      ensures r == Crc(crc, buf)
    {
      if fourBytes {
        if littleEndian {
          r := Crc32Little(crc, buf, address);
        } else {
          r := Crc32Big(crc, buf, address);
        }
      } else {
        r := Crc32Bytes(crc, buf);
      }
    }
  }

  lemma RegisterNone(c: bv32, s: seq<byte>)
    ensures Register(c, s[..0]) == c
  {
  }

  lemma RegisterByte(c: bv32, s: seq<byte>, i: nat)
    requires i < |s|
    ensures Register(c, s[..i + 1]) == Steps(Add(Register(c, s[..i]), Byte(s[i])), 8)
  {
    hide Steps, Add, Byte;
    assert s[..i + 1][..i] == s[..i];
  }

  lemma RegisterWord(c: bv32, s: seq<byte>, i: nat)
    requires i + 4 <= |s|
    ensures Register(c, s[..i + 4]) == Steps(Add(Register(c, s[..i]), Little(s[i], s[i + 1], s[i + 2], s[i + 3])), 32)
  {
    hide Steps, Add, Byte, Little, Register;
    RegisterByte(c, s, i);
    RegisterByte(c, s, i + 1);
    RegisterByte(c, s, i + 2);
    RegisterByte(c, s, i + 3);
    WordStep(Register(c, s[..i]), s[i], s[i + 1], s[i + 2], s[i + 3]);
  }

  lemma ByteIndex(c: bv32, b: byte)
    ensures Down8(Add(c, Byte(b))) == Down8(c)
    ensures 0 <= Byte0(Add(c, Byte(b))) as int < 256 &&
      (Byte0(Add(c, Byte(b))) as int) as bv32 == Byte0(Add(c, Byte(b)))
  {
  }

  lemma BigIndex(c: bv32, b: byte)
    ensures Byte0(Add(c, Byte(b))) == Add(Byte0(c), Byte(b))
  {
  }

  lemma WordIndices(c: bv32)
    ensures 0 <= Byte0(c) as int < 256 && (Byte0(c) as int) as bv32 == Byte0(c)
    ensures 0 <= Byte1(c) as int < 256 && (Byte1(c) as int) as bv32 == Byte1(c)
    ensures 0 <= Byte2(c) as int < 256 && (Byte2(c) as int) as bv32 == Byte2(c)
    ensures 0 <= Byte3(c) as int < 256 && (Byte3(c) as int) as bv32 == Byte3(c)
  {
  }

  lemma SwapFour(a: bv32, b: bv32, c: bv32, d: bv32)
    ensures Swap(Add(Add(Add(a, b), c), d)) == Add(Add(Add(Swap(d), Swap(c)), Swap(b)), Swap(a))
  {
    hide Swap, Add;
    SwapLinear(a, b);
    SwapLinear(Add(a, b), c);
    SwapLinear(Add(Add(a, b), c), d);
    var w, x, y, z := Swap(a), Swap(b), Swap(c), Swap(d);
    AddFacts(w, x, 0);
    AddFacts(Add(x, w), y, 0);
    AddFacts(Add(Add(w, x), y), z, 0);
    AddFacts(z, y, Add(x, w));
    AddFacts(Add(z, y), x, w);
  }

  function Entry(k: int, n: int): bv32
    requires 0 <= k && 0 <= n < 256
  {
    Steps(n as bv32, 8 * (k + 1))
  }

  lemma StepsNext(c: bv32, k: nat)
    ensures Steps(c, 0) == c && Steps(c, k + 1) == Step(Steps(c, k))
  {
  }

  lemma StepIs(c: bv32, poly: bv32)
    requires poly == 0xedb88320
    ensures Step(c) == if c & 1 != 0 then Add(poly, c >> 1) else c >> 1
  {
  }

  /** One more zero byte, through the first table. */
  lemma NextEntry(k: int, n: int, c: bv32)
    requires 1 <= k < 4 && 0 <= n < 256 && c == Entry(k - 1, n)
    ensures 0 <= Byte0(c) as int < 256
    ensures Entry(k, n) == Add(Entry(0, Byte0(c) as int), Down8(c))
  {
    hide Steps, Step, Add, Byte0, Down8;
    StepsAdd(n as bv32, 8 * k, 8);
    ByteStep(c);
    LowIndex(c);
  }

  lemma LowIndex(c: bv32)
    ensures 0 <= Byte0(c) as int < 256 && (Byte0(c) as int) as bv32 == Byte0(c)
  {
  }

  /** x^32+x^26+x^23+x^22+x^16+x^12+x^11+x^10+x^8+x^7+x^5+x^4+x^2+x+1, without its first term. */
  const TERMS: seq<nat> := [0, 1, 2, 4, 5, 7, 8, 10, 11, 12, 16, 22, 23, 26]

  /** The bit of a power, the lowest power in the most significant bit. */
  function Term(power: nat): bv32
    requires power <= 31
  {
    (1 as bv32) << (31 - power)
  }

  /** The exclusive-or pattern of the first n terms. */
  function Pattern(n: nat): bv32
    requires n <= 14
  {
    if n == 0 then 0 else Pattern(n - 1) | Term(TERMS[n - 1])
  }

  lemma TermsAre()
    ensures Term(0) == 0x80000000 && Term(1) == 0x40000000 && Term(2) == 0x20000000 && Term(4) == 0x8000000
    ensures Term(5) == 0x4000000 && Term(7) == 0x1000000 && Term(8) == 0x800000 && Term(10) == 0x200000
    ensures Term(11) == 0x100000 && Term(12) == 0x80000 && Term(16) == 0x8000 && Term(22) == 0x200
    ensures Term(23) == 0x100 && Term(26) == 0x20
  {
  }

  lemma PatternIsPoly()
    ensures Pattern(14) == 0xedb88320
  {
    hide Term, Pattern;
    TermsAre();
    PatternNext(0, 0x80000000, 0x80000000);
    PatternNext(1, 0x40000000, 0xc0000000);
    PatternNext(2, 0x20000000, 0xe0000000);
    PatternNext(3, 0x8000000, 0xe8000000);
    PatternNext(4, 0x4000000, 0xec000000);
    PatternNext(5, 0x1000000, 0xed000000);
    PatternNext(6, 0x800000, 0xed800000);
    PatternNext(7, 0x200000, 0xeda00000);
    PatternNext(8, 0x100000, 0xedb00000);
    PatternNext(9, 0x80000, 0xedb80000);
    PatternNext(10, 0x8000, 0xedb88000);
    PatternNext(11, 0x200, 0xedb88200);
    PatternNext(12, 0x100, 0xedb88300);
    PatternNext(13, 0x20, 0xedb88320);
  }

  lemma PatternNext(n: nat, term: bv32, sum: bv32)
    requires n < 14 && Term(TERMS[n]) == term
    ensures Pattern(0) == 0
    ensures Pattern(n) | term == sum ==> Pattern(n + 1) == sum
  {
  }

  /** The polynomial from its terms. */
  method Polynomial() returns (poly: bv32)
    ensures poly == 0xedb88320
  {
    hide Pattern, Term;
    poly := 0;
    PatternNext(0, Term(0), 0);
    for n := 0 to |TERMS|
      invariant poly == Pattern(n)
    {
      PatternNext(n, Term(TERMS[n]), poly | Term(TERMS[n]));
      poly := poly | Term(TERMS[n]);
    }
    PatternIsPoly();
  }

  // ---- The checksum of a concatenation

  /** The register is affine: after s, registers that differ by d still differ by d, moved on by the bits of s. */
  lemma {:induction false} RegisterAffine(c: bv32, d: bv32, s: seq<byte>)
    ensures Register(Add(c, d), s) == Add(Register(c, s), Steps(d, 8 * |s|))
  {
    hide Steps, Step, Add, Byte;
    if s == [] {
      StepsNext(d, 0);
    } else {
      var r, b := s[..|s| - 1], Byte(s[|s| - 1]);
      RegisterAffine(c, d, r);
      var x, y := Register(c, r), Steps(d, 8 * |r|);
      AddFacts(x, y, b);
      AddFacts(x, b, y);
      AddFacts(b, y, 0);
      StepsLinear(Add(x, b), y, 8);
      StepsAdd(d, 8 * |r|, 8);
    }
  }

  lemma {:induction false} RegisterConcat(c: bv32, s: seq<byte>, t: seq<byte>)
    ensures Register(c, s + t) == Register(Register(c, s), t)
  {
    hide Steps, Add, Byte;
    if t == [] {
      assert s + t == s;
    } else {
      var t' := t[..|t| - 1];
      assert (s + t)[..|s + t| - 1] == s + t';
      RegisterConcat(c, s, t');
    }
  }

  lemma NotFacts(c: bv32)
    ensures Not(Not(c)) == c && Not(c) == Add(c, 0xffffffff)
  {
  }

  /** The checksum of a concatenation from those of its parts: len2 zero bytes moved through the first one. */
  lemma CrcOfConcatenation(a: seq<byte>, b: seq<byte>)
    ensures Crc(0, a + b) == Add(Steps(Crc(0, a), 8 * |b|), Crc(0, b))
  {
    hide Steps, Add, Byte, Register, Not;
    var ones := Not(0);
    var x := Register(ones, a);
    RegisterConcat(ones, a, b);
    NotFacts(x);
    NotFacts(Register(x, b));
    NotFacts(Register(ones, b));
    NotFacts(0);
    AddFacts(0xffffffff, 0, 0);
    var d, r := Not(x), Register(ones, b);
    AddFacts(x, ones, 0);
    AddFacts(ones, ones, x);
    assert x == Add(ones, d);
    RegisterAffine(ones, d, b);
    var moved := Steps(d, 8 * |b|);
    AddFacts(r, moved, ones);
    AddFacts(moved, ones, 0);
    AddFacts(r, ones, moved);
    AddFacts(Add(r, ones), moved, 0);
  }

  // ---- Operators on registers as matrices over GF(2)

  const GF2_DIM := 32

  function Twice(vec: bv32): bv32 { vec << 1 }

  function Bit(i: nat): bv32 { if i == 0 then 1 else Twice(Bit(i - 1)) }

  /** The rows selected by the bits of vec, added up, from row i on. */
  function Product(mat: seq<bv32>, vec: bv32, i: nat): bv32
    requires |mat| == 32
    decreases 32 - i
  {
    if vec == 0 || i >= 32 then 0 else Add(if Odd(vec) then mat[i] else 0, Product(mat, Half(vec), i + 1))
  }

  /** Row i is what becomes of bit i after n steps. */
  ghost predicate Represents(mat: seq<bv32>, n: nat) {
    |mat| == 32 && forall i :: 0 <= i < 32 ==> mat[i] == Steps(Bit(i), n)
  }

  /** The number of bits of a vector, up to its highest one. */
  function Bits(vec: bv32): nat
    decreases vec
  {
    if vec == 0 then 0 else HalfIsLess(vec); 1 + Bits(Half(vec))
  }

  lemma HalfIsLess(vec: bv32)
    requires vec != 0
    ensures Half(vec) < vec
  {
  }

  function Nibble(vec: bv32): bv32 { vec >> 4 }

  lemma Shifts(vec: bv32)
    ensures Half(Half(Half(Half(vec)))) == Nibble(vec)
    ensures Nibble(Nibble(Nibble(Nibble(Nibble(Nibble(Nibble(Nibble(vec)))))))) == 0
  {
  }

  lemma BitsOf(vec: bv32)
    ensures Bits(vec) <= 1 + Bits(Half(vec)) && Bits(0) == 0
  {
  }

  lemma BitsOfNibble(vec: bv32)
    ensures Bits(vec) <= 4 + Bits(Nibble(vec))
  {
    hide Bits, Half, Nibble;
    BitsOf(vec);
    BitsOf(Half(vec));
    BitsOf(Half(Half(vec)));
    BitsOf(Half(Half(Half(vec))));
    Shifts(vec);
  }

  lemma AtMost32Bits(vec: bv32)
    ensures Bits(vec) <= 32
  {
    hide Bits, Half, Nibble;
    var b := Nibble(Nibble(Nibble(Nibble(vec))));
    BitsOfNibble(vec);
    BitsOfNibble(Nibble(vec));
    BitsOfNibble(Nibble(Nibble(vec)));
    BitsOfNibble(Nibble(Nibble(Nibble(vec))));
    BitsOfNibble(b);
    BitsOfNibble(Nibble(b));
    BitsOfNibble(Nibble(Nibble(b)));
    BitsOfNibble(Nibble(Nibble(Nibble(b))));
    Shifts(vec);
    BitsOf(0);
  }

  /** gf2_matrix_times. */
  method MatrixTimes(mat: array<bv32>, vec0: bv32) returns (sum: bv32)
    requires mat.Length == GF2_DIM
    ensures sum == Product(mat[..], vec0, 0)
  {
    hide Add, Odd, Half;
    sum := 0;
    var vec, i := vec0, 0;
    AtMost32Bits(vec);
    AddFacts(Product(mat[..], vec0, 0), 0, 0);
    while vec != 0
      invariant i + Bits(vec) <= 32
      invariant Add(sum, Product(mat[..], vec, i)) == Product(mat[..], vec0, 0)
      decreases 32 - i
    {
      ghost var row, rest := if Odd(vec) then mat[i] else 0, Product(mat[..], Half(vec), i + 1);
      AddFacts(sum, row, rest);
      AddFacts(sum, 0, 0);
      if Odd(vec) {
        sum := Add(sum, mat[i]);
      }
      vec := Half(vec);
      i := i + 1;
    }
    AddFacts(sum, 0, 0);
  }

  /** Doubling i times. */
  function Raised(vec: bv32, i: nat): bv32 { if i == 0 then vec else Twice(Raised(vec, i - 1)) }

  lemma {:induction false} RaisedFacts(a: bv32, b: bv32, i: nat)
    ensures Raised(Add(a, b), i) == Add(Raised(a, i), Raised(b, i))
    ensures Raised(Twice(a), i) == Raised(a, i + 1) && Raised(0, i) == 0 && Raised(1, i) == Bit(i)
  {
    hide Add, Twice;
    TwiceFacts(0, 0);
    if i != 0 {
      RaisedFacts(a, b, i - 1);
      TwiceFacts(Raised(a, i - 1), Raised(b, i - 1));
    }
  }

  lemma TwiceFacts(a: bv32, b: bv32)
    ensures Twice(Add(a, b)) == Add(Twice(a), Twice(b)) && Twice(0) == 0
  {
  }

  lemma LowBit(vec: bv32)
    ensures vec == Add(if Odd(vec) then 1 else 0, Twice(Half(vec)))
  {
  }

  /** A matrix that represents n steps applies them to any vector. */
  lemma {:induction false} ProductIsSteps(mat: seq<bv32>, vec: bv32, i: nat, n: nat)
    requires Represents(mat, n) && i + Bits(vec) <= 32
    ensures Product(mat, vec, i) == Steps(Raised(vec, i), n)
    decreases 32 - i
  {
    hide Add, Odd, Half, Twice, Steps, Raised;
    StepsZero(n);
    RaisedFacts(0, 0, i);
    if vec != 0 {
      var low, half := if Odd(vec) then 1 else 0, Half(vec);
      ProductIsSteps(mat, half, i + 1, n);
      LowBit(vec);
      RaisedFacts(low, Twice(half), i);
      RaisedFacts(half, 0, i);
      StepsLinear(Raised(low, i), Raised(half, i + 1), n);
    }
  }

  /** gf2_matrix_square: twice the steps. */
  method MatrixSquare(square: array<bv32>, mat: array<bv32>, ghost n: nat)
    requires square != mat && square.Length == GF2_DIM && mat.Length == GF2_DIM && Represents(mat[..], n)
    modifies square
    ensures Represents(square[..], 2 * n)
  {
    hide Steps, Product;
    for k := 0 to GF2_DIM
      invariant forall i :: 0 <= i < k ==> square[i] == Steps(Bit(i), 2 * n)
      invariant Represents(mat[..], n)
    {
      assert mat[k] == mat[..][k] == Steps(Bit(k), n);
      AtMost32Bits(mat[k]);
      ProductIsSteps(mat[..], mat[k], 0, n);
      RaisedNone(mat[k]);
      StepsAdd(Bit(k), n, n);
      square[k] := MatrixTimes(mat, mat[k]);
    }
  }

  lemma RaisedNone(vec: bv32)
    ensures Raised(vec, 0) == vec
  {
  }

  lemma BitOf(i: nat)
    ensures Bit(0) == 1 && Bit(i + 1) == Twice(Bit(i))
  {
  }

  lemma FourBits(i: nat, x: bv32)
    requires Bit(i) == x && x <= 0x10000000
    ensures Bit(i + 1) == x << 1 && Bit(i + 2) == x << 2 && Bit(i + 3) == x << 3 && Bit(i + 4) == x << 4
  {
  }

  /** Bits below the highest one have room above them. */
  lemma BitBelow(i: nat)
    requires i <= 30
    ensures Bit(i) <= 0x40000000
  {
    hide Bit;
    BitOf(0);
    FourBits(0, 1);
    FourBits(4, 0x10);
    FourBits(8, 0x100);
    FourBits(12, 0x1000);
    FourBits(16, 0x10000);
    FourBits(20, 0x100000);
    FourBits(24, 0x1000000);
    FourBits(28, 0x10000000);
    var a := i / 4 * 4;
    if a == 0 { BelowFour(a, i, 1); } else if a == 4 { BelowFour(a, i, 0x10); }
    else if a == 8 { BelowFour(a, i, 0x100); }
    else if a == 12 { BelowFour(a, i, 0x1000); } else if a == 16 { BelowFour(a, i, 0x10000); }
    else if a == 20 { BelowFour(a, i, 0x100000); } else if a == 24 { BelowFour(a, i, 0x1000000); }
    else { BelowFour(a, i, 0x10000000); }
  }

  lemma BelowFour(a: nat, i: nat, x: bv32)
    requires a <= i <= a + 3 && Bit(a) == x && x <= 0x10000000 && (x == 0x10000000 ==> i <= a + 2)
    requires x in {1, 0x10, 0x100, 0x1000, 0x10000, 0x100000, 0x1000000, 0x10000000}
    ensures Bit(i) <= 0x40000000
  {
    hide Bit;
    FourBits(a, x);
    if i == a {} else if i == a + 1 {} else if i == a + 2 {} else {}
  }

  /** One step moves a bit to the place below, and the lowest one becomes the polynomial. */
  lemma StepOfBit(i: nat)
    requires i < 32
    ensures Steps(Bit(i), 1) == if i == 0 then 0xedb88320 else Bit(i - 1)
  {
    hide Step, Steps, Twice;
    StepsNext(Bit(i), 0);
    if i == 0 {
      StepOfOne();
    } else {
      BitBelow(i - 1);
      BitOf(i - 1);
      StepOfTwice(Bit(i - 1));
    }
  }

  lemma StepOfOne()
    ensures Step(1) == 0xedb88320
  {
  }

  lemma StepOfTwice(x: bv32)
    requires x <= 0x40000000
    ensures Step(Twice(x)) == x
  {
  }

  /** The operator for one zero bit, as crc32_combine_ sets it up. */
  method OneZeroBit(odd: array<bv32>)
    requires odd.Length == GF2_DIM
    modifies odd
    ensures Represents(odd[..], 1)
  {
    hide Steps, Bit, Twice;
    odd[0] := 0xedb88320;
    StepOfBit(0);
    var row: bv32 := 1;
    BitOf(0);
    for n := 1 to GF2_DIM
      invariant row == Bit(n - 1)
      invariant forall i :: 0 <= i < n ==> odd[i] == Steps(Bit(i), 1)
    {
      StepOfBit(n);
      BitOf(n - 1);
      odd[n] := row;
      row := Twice(row);
    }
  }

  /** One application of an operator. */
  method Apply(mat: array<bv32>, crc: bv32, ghost n: nat) returns (r: bv32)
    requires mat.Length == GF2_DIM && Represents(mat[..], n)
    ensures r == Steps(crc, n)
  {
    hide Steps, Product;
    AtMost32Bits(crc);
    ProductIsSteps(mat[..], crc, 0, n);
    RaisedNone(crc);
    r := MatrixTimes(mat, crc);
  }

  /** crc32_combine_: exponentiation by len2 bytes, squaring even and odd alternately. */
  method Crc32Combine(crc: bv32, crc2: bv32, length: int) returns (r: bv32)
    ensures length > 0 ==> r == Add(Steps(crc, 8 * length), crc2)
    ensures length <= 0 ==> r == crc
  {
    hide Steps, Add, Represents;
    if length <= 0 {
      return crc;
    }
    var even, odd := new bv32[GF2_DIM], new bv32[GF2_DIM];
    OneZeroBit(odd);
    MatrixSquare(even, odd, 1);
    MatrixSquare(odd, even, 2);
    var crc1, len2 := crc, length;
    ghost var m := 4;
    while true
      invariant len2 > 0 && 0 < m && Represents(odd[..], m)
      invariant Steps(crc1, 2 * m * len2) == Steps(crc, 8 * length)
      decreases len2
    {
      MatrixSquare(even, odd, m);
      Halved(crc1, 2 * m, len2);
      if len2 % 2 == 1 {
        crc1 := Apply(even, crc1, 2 * m);
      }
      len2 := len2 / 2;
      if len2 == 0 { break; }
      MatrixSquare(odd, even, 2 * m);
      Halved(crc1, 4 * m, len2);
      if len2 % 2 == 1 {
        crc1 := Apply(odd, crc1, 4 * m);
      }
      len2 := len2 / 2;
      m := 4 * m;
      if len2 == 0 { break; }
    }
    assert crc1 == Steps(crc, 8 * length);
    r := Add(crc1, crc2);
  }

  /** One bit of the exponent. */
  lemma Halved(c: bv32, n: nat, len: nat)
    ensures 0 <= n * len && 0 <= (2 * n) * (len / 2)
    ensures Steps(c, n * len) == Steps(if len % 2 == 1 then Steps(c, n) else c, (2 * n) * (len / 2))
    ensures len / 2 == 0 ==> (2 * n) * (len / 2) == 0 && forall x :: Steps(x, 0) == x
  {
    hide Step;
    var h := len / 2;
    assert (2 * n) * h == n * (2 * h) by { TwiceN(n, h); }
    if len % 2 == 1 {
      assert n * len == n + n * (2 * h) by { assert len == 2 * h + 1; OnceMore(n, 2 * h); }
      StepsAdd(c, n, n * (2 * h));
    }
  }

  lemma TwiceN(n: nat, h: nat)
    ensures (2 * n) * h == n * (2 * h) && 0 <= (2 * n) * h
  {
  }

  lemma OnceMore(n: nat, x: nat)
    ensures n * (x + 1) == n + n * x && 0 <= n * (x + 1)
  {
  }

  /** Combining the checksums of two texts, as Crc32Combine does, gives the checksum of their concatenation. */
  lemma CombineIsConcatenation(a: seq<byte>, b: seq<byte>)
    ensures (if |b| > 0 then Add(Steps(Crc(0, a), 8 * |b|), Crc(0, b)) else Crc(0, a)) == Crc(0, a + b)
  {
    hide Add, Steps, Crc;
    if |b| > 0 { CrcOfConcatenation(a, b); } else { assert a + b == a; }
  }
}
