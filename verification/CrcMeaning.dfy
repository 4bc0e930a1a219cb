/** What the checksum of Crc32 is good for, in terms that do not repeat its definition. */
module Crc32Meaning {
  import opened Arith
  import opened Crc32Model

  // ---- No step loses anything

  lemma StepKernel(c: bv32)
    requires Step(c) == 0
    ensures c == 0
  {
    hide Add, Odd, Half;
    KernelBits(c);
    if Odd(c) { AddIs(0xedb88320, Half(c)); }
  }

  lemma KernelBits(c: bv32)
    ensures Half(c) <= 0x7fffffff && (!Odd(c) && Half(c) == 0 ==> c == 0)
  {
  }

  lemma AddIs(a: bv32, b: bv32)
    ensures Add(a, b) == 0 <==> a == b
  {
    hide Add;
    AddFacts(a, b, b);
    AddFacts(a, b, 0);
    AddFacts(b, 0, 0);
  }

  lemma {:induction false} StepsKernel(c: bv32, n: nat)
    requires Steps(c, n) == 0
    ensures c == 0
  {
    hide Step;
    if n != 0 {
      StepKernel(Steps(c, n - 1));
      StepsKernel(c, n - 1);
    }
  }

  lemma StepsInjective(a: bv32, b: bv32, n: nat)
    requires Steps(a, n) == Steps(b, n)
    ensures a == b
  {
    hide Steps, Add;
    StepsLinear(a, b, n);
    AddIs(Steps(a, n), Steps(b, n));
    StepsKernel(Add(a, b), n);
    AddIs(a, b);
  }

  /** Different registers stay different. */
  lemma RegisterInjective(c: bv32, d: bv32, s: seq<byte>)
    requires Register(c, s) == Register(d, s)
    ensures c == d
  {
    hide Register, Steps, Add;
    AddFacts(c, c, d);
    AddFacts(c, d, 0);
    AddFacts(d, 0, 0);
    assert Add(c, Add(c, d)) == d;
    RegisterAffine(c, Add(c, d), s);
    var moved := Steps(Add(c, d), 8 * |s|);
    AddFacts(Register(c, s), Register(c, s), moved);
    AddFacts(moved, 0, 0);
    StepsKernel(Add(c, d), 8 * |s|);
    AddIs(c, d);
  }

  // ---- Bursts

  lemma FourBytes(c: bv32, x: seq<byte>)
    requires |x| == 4
    ensures Register(c, x) == Steps(Add(c, Little(x[0], x[1], x[2], x[3])), 32)
  {
    hide Steps, Add, Little;
    RegisterNone(c, x);
    RegisterWord(c, x, 0);
    assert x[..4] == x;
  }

  lemma LittleInjective(a0: byte, a1: byte, a2: byte, a3: byte, b0: byte, b1: byte, b2: byte, b3: byte)
    requires Little(a0, a1, a2, a3) == Little(b0, b1, b2, b3)
    ensures a0 == b0 && a1 == b1 && a2 == b2 && a3 == b3
  {
    hide Little;
    LittleIs(a0, a1, a2, a3);
    LittleIs(b0, b1, b2, b3);
    XorLoad(a0, a1, a2, a3);
    XorLoad(b0, b1, b2, b3);
  }

  lemma XorLoad(b0: byte, b1: byte, b2: byte, b3: byte)
    ensures var x := (((b0 as bv32) ^ ((b1 as bv32) << 8)) ^ ((b2 as bv32) << 16)) ^ ((b3 as bv32) << 24);
      && (x & 0xff) as bv8 == b0 && ((x >> 8) & 0xff) as bv8 == b1
      && ((x >> 16) & 0xff) as bv8 == b2 && (x >> 24) as bv8 == b3
  {
  }

  lemma FourDiffer(c: bv32, x: seq<byte>, y: seq<byte>)
    requires |x| == |y| == 4 && Register(c, x) == Register(c, y)
    ensures x == y
  {
    hide Register, Steps, Add, Little;
    FourBytes(c, x);
    FourBytes(c, y);
    var wx, wy := Little(x[0], x[1], x[2], x[3]), Little(y[0], y[1], y[2], y[3]);
    StepsInjective(Add(c, wx), Add(c, wy), 32);
    Cancel(c, wx, wy);
    LittleInjective(x[0], x[1], x[2], x[3], y[0], y[1], y[2], y[3]);
  }

  lemma Cancel(c: bv32, a: bv32, b: bv32)
    requires Add(c, a) == Add(c, b)
    ensures a == b
  {
  }

  lemma UpToFourDiffer(c: bv32, x: seq<byte>, y: seq<byte>)
    requires |x| == |y| <= 4 && Register(c, x) == Register(c, y)
    ensures x == y
  {
    hide Register;
    var zeros := seq(4 - |x|, i => 0 as byte);
    RegisterConcat(c, x, zeros);
    RegisterConcat(c, y, zeros);
    FourDiffer(c, x + zeros, y + zeros);
    assert (x + zeros)[..|x|] == x && (y + zeros)[..|y|] == y;
  }

  /** Texts of the same length that differ in a burst of at most four bytes have different checksums. */
  lemma BurstsAreDetected(crc: bv32, a: seq<byte>, x: seq<byte>, y: seq<byte>, b: seq<byte>)
    requires |x| == |y| <= 4
    ensures Crc(crc, a + x + b) == Crc(crc, a + y + b) <==> x == y
  {
    hide Register, Not;
    var c := Not(crc);
    RegisterConcat(c, a, x);
    RegisterConcat(c, a, y);
    RegisterConcat(c, a + x, b);
    RegisterConcat(c, a + y, b);
    if Crc(crc, a + x + b) == Crc(crc, a + y + b) {
      NotFacts(Register(c, a + x + b));
      NotFacts(Register(c, a + y + b));
      RegisterInjective(Register(c, a + x), Register(c, a + y), b);
      UpToFourDiffer(Register(c, a), x, y);
    }
  }

  /** Zeros in front of a text are not lost, as the register does not start with zero. */
  lemma LeadingZeroCounts(s: seq<byte>)
    ensures Crc(0, [0] + s) != Crc(0, s)
  {
    hide Register, Steps, Not;
    var ones := Not(0);
    RegisterConcat(ones, [0], s);
    OneZeroByte();
    FirstEight();
    if Crc(0, [0] + s) == Crc(0, s) {
      NotFacts(Register(ones, [0] + s));
      NotFacts(Register(ones, s));
      RegisterInjective(Register(ones, [0]), ones, s);
    }
  }

  lemma OneZeroByte()
    ensures Register(Not(0), [0]) == 0x2dfd1072
  {
    hide Register, Steps, Add;
    RegisterNone(0xffffffff, [0]);
    RegisterByte(0xffffffff, [0], 0);
    assert [0 as byte][..1] == [0];
    FirstEight();
  }

  // ---- The checksum behind its text

  lemma FirstEight()
    ensures Not(0) == 0xffffffff && Add(0xffffffff, Byte(0)) == 0xffffffff
    ensures Steps(0xffffffff, 8) == 0x2dfd1072
  {
    hide Steps;
    Eight(0xffffffff);
  }

  lemma SecondEight()
    ensures Steps(0x2dfd1072, 8) == 0xbe26ed00
  {
    hide Steps;
    Eight(0x2dfd1072);
  }

  lemma ThirdEight()
    ensures Steps(0xbe26ed00, 8) == 0xbe26ed
  {
    hide Steps;
    Eight(0xbe26ed00);
  }

  lemma FourthEight()
    ensures Steps(0xbe26ed, 8) == 0xdebb20e3
  {
    hide Steps;
    Eight(0xbe26ed);
  }

  lemma OnesAfter32()
    ensures Steps(0xffffffff, 32) == 0xdebb20e3
  {
    hide Steps;
    FirstEight();
    SecondEight();
    ThirdEight();
    FourthEight();
    StepsAdd(0xffffffff, 8, 8);
    StepsAdd(0xffffffff, 16, 8);
    StepsAdd(0xffffffff, 24, 8);
  }

  /** A checksum as it is stored, lowest byte first. */
  function Stored(crc: bv32): seq<byte> {
    [(crc & 0xff) as bv8, ((crc >> 8) & 0xff) as bv8, ((crc >> 16) & 0xff) as bv8, (crc >> 24) as bv8]
  }

  lemma StoredIs(crc: bv32)
    ensures var s := Stored(crc); |s| == 4 && Little(s[0], s[1], s[2], s[3]) == crc
  {
  }

  /** Whatever the text, a text followed by its checksum has always the same checksum. */
  lemma Residue(crc: bv32, s: seq<byte>)
    ensures Crc(crc, s + Stored(Crc(crc, s))) == 0x2144df1c
  {
    hide Register, Steps, Not, Add, Little, Stored;
    var c, t := Not(crc), Stored(Crc(crc, s));
    var r := Register(c, s);
    RegisterConcat(c, s, t);
    StoredIs(Not(r));
    FourBytes(r, t);
    NotFacts(r);
    AddFacts(r, r, 0xffffffff);
    AddFacts(0xffffffff, 0, 0);
    assert Add(r, Not(r)) == 0xffffffff;
    OnesAfter32();
    NotIs(0xdebb20e3);
  }

  lemma NotIs(c: bv32)
    ensures Not(0xdebb20e3) == 0x2144df1c
  {
  }

  /** Only its own checksum does that. */
  lemma OnlyItsOwn(crc: bv32, s: seq<byte>, x: bv32)
    ensures Crc(crc, s + Stored(x)) == 0x2144df1c <==> x == Crc(crc, s)
  {
    hide Crc, Stored;
    var y := Crc(crc, s);
    StoredIs(x);
    StoredIs(y);
    Residue(crc, s);
    BurstsAreDetected(crc, s, Stored(x), Stored(y), []);
    assert s + Stored(x) + [] == s + Stored(x) && s + Stored(y) + [] == s + Stored(y);
  }

  // ---- A value to check against

  const DIGITS: seq<byte> := [0x31, 0x32, 0x33, 0x34, 0x35, 0x36, 0x37, 0x38, 0x39]

  /** One byte more through the register. */
  lemma NextDigit(i: nat, b: byte, c: bv32, r: bv32)
    requires i < |DIGITS| && DIGITS[i] == b && Register(0xffffffff, DIGITS[..i]) == c
    requires Step(Step(Step(Step(Step(Step(Step(Step(Add(c, Byte(b)))))))))) == r
    ensures Register(0xffffffff, DIGITS[..i + 1]) == r
  {
    hide Step, Steps, Add, Register;
    RegisterByte(0xffffffff, DIGITS, i);
    Eight(Add(c, Byte(b)));
  }

  lemma Digit1()
    ensures Register(0xffffffff, DIGITS[..1]) == 0x7c231048
  {
    hide Register, Steps;
    RegisterNone(0xffffffff, DIGITS);
    NextDigit(0, 0x31, 0xffffffff, 0x7c231048);
  }

  lemma Digit2()
    ensures Register(0xffffffff, DIGITS[..2]) == 0xb0acbb32
  {
    hide Register, Steps;
    Digit1();
    NextDigit(1, 0x32, 0x7c231048, 0xb0acbb32);
  }

  lemma Digit3()
    ensures Register(0xffffffff, DIGITS[..3]) == 0x77b79c2d
  {
    hide Register, Steps;
    Digit2();
    NextDigit(2, 0x33, 0xb0acbb32, 0x77b79c2d);
  }

  lemma Digit4()
    ensures Register(0xffffffff, DIGITS[..4]) == 0x641c1f5c
  {
    hide Register, Steps;
    Digit3();
    NextDigit(3, 0x34, 0x77b79c2d, 0x641c1f5c);
  }

  lemma Digit5()
    ensures Register(0xffffffff, DIGITS[..5]) == 0x340ac5e3
  {
    hide Register, Steps;
    Digit4();
    NextDigit(4, 0x35, 0x641c1f5c, 0x340ac5e3);
  }

  lemma Digit6()
    ensures Register(0xffffffff, DIGITS[..6]) == 0xf68d2c9e
  {
    hide Register, Steps;
    Digit5();
    NextDigit(5, 0x36, 0x340ac5e3, 0xf68d2c9e);
  }

  lemma Digit7()
    ensures Register(0xffffffff, DIGITS[..7]) == 0xaffc9660
  {
    hide Register, Steps;
    Digit6();
    NextDigit(6, 0x37, 0xf68d2c9e, 0xaffc9660);
  }

  lemma Digit8()
    ensures Register(0xffffffff, DIGITS[..8]) == 0x651f2550
  {
    hide Register, Steps;
    Digit7();
    NextDigit(7, 0x38, 0xaffc9660, 0x651f2550);
  }

  lemma Digit9()
    ensures Register(0xffffffff, DIGITS[..9]) == 0x340bc6d9
  {
    hide Register, Steps;
    Digit8();
    NextDigit(8, 0x39, 0x651f2550, 0x340bc6d9);
  }

  /** The checksum of the text 123456789, as in the catalogue of such checksums. */
  lemma CheckValue()
    ensures Crc(0, DIGITS) == 0xcbf43926
  {
    hide Register;
    Digit9();
    assert DIGITS[..9] == DIGITS;
    FirstEight();
    LastNot();
  }

  lemma LastNot()
    ensures Not(0x340bc6d9) == 0xcbf43926
  {
  }
}
