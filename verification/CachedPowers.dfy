/** The table of powers of ten in 64 bits, and the proof that each entry is less than half a unit off. */
module CachedPowers {
  import opened Arith
  import opened StartValues
  import ExactDtoa

  datatype CachedPower = CachedPower(significand: uint64, binaryExponent: int, decimalExponent: int)

  const CACHED_POWERS: seq<CachedPower> := [
    CachedPower(0xfa8f_d5a0_081c_0288, -1220, -348),
    CachedPower(0xbaae_e17f_a23e_bf76, -1193, -340),
    CachedPower(0x8b16_fb20_3055_ac76, -1166, -332),
    CachedPower(0xcf42_894a_5dce_35ea, -1140, -324),
    CachedPower(0x9a6b_b0aa_5565_3b2d, -1113, -316),
    CachedPower(0xe61a_cf03_3d1a_45df, -1087, -308),
    CachedPower(0xab70_fe17_c79a_c6ca, -1060, -300),
    CachedPower(0xff77_b1fc_bebc_dc4f, -1034, -292),
    CachedPower(0xbe56_91ef_416b_d60c, -1007, -284),
    CachedPower(0x8dd0_1fad_907f_fc3c, -980, -276),
    CachedPower(0xd351_5c28_3155_9a83, -954, -268),
    CachedPower(0x9d71_ac8f_ada6_c9b5, -927, -260),
    CachedPower(0xea9c_2277_23ee_8bcb, -901, -252),
    CachedPower(0xaecc_4991_4078_536d, -874, -244),
    CachedPower(0x823c_1279_5db6_ce57, -847, -236),
    CachedPower(0xc210_9436_4dfb_5637, -821, -228),
    CachedPower(0x9096_ea6f_3848_984f, -794, -220),
    CachedPower(0xd774_85cb_2582_3ac7, -768, -212),
    CachedPower(0xa086_cfcd_97bf_97f4, -741, -204),
    CachedPower(0xef34_0a98_172a_ace5, -715, -196),
    CachedPower(0xb238_67fb_2a35_b28e, -688, -188),
    CachedPower(0x84c8_d4df_d2c6_3f3b, -661, -180),
    CachedPower(0xc5dd_4427_1ad3_cdba, -635, -172),
    CachedPower(0x936b_9fce_bb25_c996, -608, -164),
    CachedPower(0xdbac_6c24_7d62_a584, -582, -156),
    CachedPower(0xa3ab_6658_0d5f_daf6, -555, -148),
    CachedPower(0xf3e2_f893_dec3_f126, -529, -140),
    CachedPower(0xb5b5_ada8_aaff_80b8, -502, -132),
    CachedPower(0x8762_5f05_6c7c_4a8b, -475, -124)
  ] + [
    CachedPower(0xc9bc_ff60_34c1_3053, -449, -116),
    CachedPower(0x964e_858c_91ba_2655, -422, -108),
    CachedPower(0xdff9_7724_7029_7ebd, -396, -100),
    CachedPower(0xa6df_bd9f_b8e5_b88f, -369, -92),
    CachedPower(0xf8a9_5fcf_8874_7d94, -343, -84),
    CachedPower(0xb944_7093_8fa8_9bcf, -316, -76),
    CachedPower(0x8a08_f0f8_bf0f_156b, -289, -68),
    CachedPower(0xcdb0_2555_6531_31b6, -263, -60),
    CachedPower(0x993f_e2c6_d07b_7fac, -236, -52),
    CachedPower(0xe45c_10c4_2a2b_3b06, -210, -44),
    CachedPower(0xaa24_2499_6973_92d3, -183, -36),
    CachedPower(0xfd87_b5f2_8300_ca0e, -157, -28),
    CachedPower(0xbce5_0864_9211_1aeb, -130, -20),
    CachedPower(0x8cbc_cc09_6f50_88cc, -103, -12),
    CachedPower(0xd1b7_1758_e219_652c, -77, -4),
    CachedPower(0x9c40_0000_0000_0000, -50, 4),
    CachedPower(0xe8d4_a510_0000_0000, -24, 12),
    CachedPower(0xad78_ebc5_ac62_0000, 3, 20),
    CachedPower(0x813f_3978_f894_0984, 30, 28),
    CachedPower(0xc097_ce7b_c907_15b3, 56, 36),
    CachedPower(0x8f7e_32ce_7bea_5c70, 83, 44),
    CachedPower(0xd5d2_38a4_abe9_8068, 109, 52),
    CachedPower(0x9f4f_2726_179a_2245, 136, 60),
    CachedPower(0xed63_a231_d4c4_fb27, 162, 68),
    CachedPower(0xb0de_6538_8cc8_ada8, 189, 76),
    CachedPower(0x83c7_088e_1aab_65db, 216, 84),
    CachedPower(0xc45d_1df9_4271_1d9a, 242, 92),
    CachedPower(0x924d_692c_a61b_e758, 269, 100),
    CachedPower(0xda01_ee64_1a70_8dea, 295, 108)
  ] + [
    CachedPower(0xa26d_a399_9aef_774a, 322, 116),
    CachedPower(0xf209_787b_b47d_6b85, 348, 124),
    CachedPower(0xb454_e4a1_79dd_1877, 375, 132),
    CachedPower(0x865b_8692_5b9b_c5c2, 402, 140),
    CachedPower(0xc835_53c5_c896_5d3d, 428, 148),
    CachedPower(0x952a_b45c_fa97_a0b3, 455, 156),
    CachedPower(0xde46_9fbd_99a0_5fe3, 481, 164),
    CachedPower(0xa59b_c234_db39_8c25, 508, 172),
    CachedPower(0xf6c6_9a72_a398_9f5c, 534, 180),
    CachedPower(0xb7dc_bf53_54e9_bece, 561, 188),
    CachedPower(0x88fc_f317_f222_41e2, 588, 196),
    CachedPower(0xcc20_ce9b_d35c_78a5, 614, 204),
    CachedPower(0x9816_5af3_7b21_53df, 641, 212),
    CachedPower(0xe2a0_b5dc_971f_303a, 667, 220),
    CachedPower(0xa8d9_d153_5ce3_b396, 694, 228),
    CachedPower(0xfb9b_7cd9_a4a7_443c, 720, 236),
    CachedPower(0xbb76_4c4c_a7a4_4410, 747, 244),
    CachedPower(0x8bab_8eef_b640_9c1a, 774, 252),
    CachedPower(0xd01f_ef10_a657_842c, 800, 260),
    CachedPower(0x9b10_a4e5_e991_3129, 827, 268),
    CachedPower(0xe710_9bfb_a19c_0c9d, 853, 276),
    CachedPower(0xac28_20d9_623b_f429, 880, 284),
    CachedPower(0x8044_4b5e_7aa7_cf85, 907, 292),
    CachedPower(0xbf21_e440_03ac_dd2d, 933, 300),
    CachedPower(0x8e67_9c2f_5e44_ff8f, 960, 308),
    CachedPower(0xd433_179d_9c8c_b841, 986, 316),
    CachedPower(0x9e19_db92_b4e3_1ba9, 1013, 324),
    CachedPower(0xeb96_bf6e_badf_77d9, 1039, 332),
    CachedPower(0xaf87_023b_9bf0_ee6b, 1066, 340)
  ]

  const CACHED_POWERS_OFFSET := 348
  const D_1_LOG2_10 := 0.30102999566398114

  /** The significand is normalized and less than half a unit off 10^k / 2^e: at most 509/1024 of one. */
  ghost predicate IsPower(c: CachedPower) {
    var n, d := Num(1, c.binaryExponent, c.decimalExponent), Den(c.binaryExponent, c.decimalExponent);
    && 0x8000_0000_0000_0000 <= c.significand
    && (1024 * c.significand - 509) * n <= 1024 * d <= (1024 * c.significand + 509) * n
  }

  lemma HalfUnit(c: CachedPower)
    requires IsPower(c)
    ensures var n, d := Num(1, c.binaryExponent, c.decimalExponent), Den(c.binaryExponent, c.decimalExponent);
      (2 * c.significand - 1) * n <= 2 * d <= (2 * c.significand + 1) * n
  {
    hide Num, Den;
    var n := Num(1, c.binaryExponent, c.decimalExponent);
    MulMono(512 * (2 * c.significand - 1), 1024 * c.significand - 509, n);
    MulMono(1024 * c.significand + 509, 512 * (2 * c.significand + 1), n);
    MulAssoc(512, 2 * c.significand - 1, n);
    MulAssoc(512, 2 * c.significand + 1, n);
  }

  // ---- Powers of ten between multiples of powers of two

  /** lo * 2^e <= 10^k <= hi * 2^e. */
  ghost predicate Between(lo: int, hi: int, e: int, k: int) {
    lo * Num(1, e, k) <= Den(e, k) <= hi * Num(1, e, k)
  }

  /** 10^k / 2^e changes by 10^n / 2^d. */
  lemma RatioMoves(e: int, k: int, d: nat, n: nat)
    ensures Den(e + d, k + n) * Num(1, e, k) * Pow(2, d) == Den(e, k) * Num(1, e + d, k + n) * Pow(10, n)
    ensures 0 < Num(1, e, k) && 0 < Num(1, e + d, k + n)
  {
    hide Pow, Num, Den;
    ExactDtoa.NumGrows(1, e, k);
    ExactDtoa.NumGrows(1, e + d, k + n);
    RatioParts(e, k);
    RatioParts(e + d, k + n);
    ExactDtoa.TenPowers(k, n);
    TwoPowers(e, d);
    RatioArith(Pow(2, Max(e, 0)), Pow(2, Max(-e, 0)), Pow(2, Max(e + d, 0)), Pow(2, Max(-e - d, 0)), Pow(2, d),
               Pow(10, Max(k, 0)), Pow(10, Max(-k, 0)), Pow(10, Max(k + n, 0)), Pow(10, Max(-k - n, 0)), Pow(10, n));
  }

  lemma RatioParts(e: int, k: int)
    ensures Num(1, e, k) == Pow(2, Max(e, 0)) * Pow(10, Max(-k, 0))
    ensures Den(e, k) == Pow(2, Max(-e, 0)) * Pow(10, Max(k, 0))
  {
  }

  lemma TwoPowers(e: int, d: nat)
    ensures Pow(2, Max(-e - d, 0)) * Pow(2, Max(e, 0)) * Pow(2, d) == Pow(2, Max(-e, 0)) * Pow(2, Max(e + d, 0))
  {
    hide Pow;
    PowAdd(2, Max(-e - d, 0), Max(e, 0));
    PowAdd(2, Max(-e - d, 0) + Max(e, 0), d);
    PowAdd(2, Max(-e, 0), Max(e + d, 0));
  }

  lemma RatioArith(x: int, y: int, x': int, y': int, two: int, t: int, u: int, t': int, u': int, ten: int)
    requires y' * x * two == y * x' && u * t' == ten * (u' * t)
    ensures (y' * t') * (x * u) * two == (y * t) * (x' * u') * ten
  {
    assert (y' * t') * (x * u) * two == (y' * x * two) * (u * t');
    assert (y * t) * (x' * u') * ten == (y * x') * (ten * (u' * t));
  }

  /** Bounds on the ratio d / n carry over to d' / n'. */
  lemma BoundsMove(n: int, d: int, n': int, d': int, s: int, t: int, lo: int, hi: int, lo': int, hi': int)
    requires 0 < n && 0 < n' && 0 < s && 0 < t && d' * n * s == d * n' * t
    requires lo * n <= d <= hi * n && lo' * s <= lo * t && hi * t <= hi' * s
    ensures lo' * n' <= d' <= hi' * n'
  {
    BoundMoves(n, d, n', d', s, t, lo, lo');
    BoundMoves(n, 0 - d, n', 0 - d', s, t, 0 - hi, 0 - hi') by {
      assert (0 - d') * n * s == 0 - d' * n * s && (0 - d) * n' * t == 0 - d * n' * t;
    }
  }

  lemma BoundMoves(n: int, d: int, n': int, d': int, s: int, t: int, lo: int, lo': int)
    requires 0 < n && 0 < n' && 0 < s && 0 < t && d' * n * s == d * n' * t && lo * n <= d && lo' * s <= lo * t
    ensures lo' * n' <= d'
  {
    MulStrict(0, n, s);
    MulStrict(0, n, n');
    MulStrict(0, n', t);
    MulMono(lo' * s, lo * t, n * n');
    MulMono(lo * n, d, n' * t);
    assert (lo' * n') * (n * s) == (lo' * s) * (n * n');
    assert (lo * t) * (n * n') == (lo * n) * (n' * t);
    assert d' * (n * s) == d * (n' * t);
    MulCancel(lo' * n', d', n * s);
  }

  // ---- The entries

  /** An entry of the table with a power of ten enclosed in 96 bits, r to r + w units of 2^-32 above it. */
  ghost predicate Enclosed(c: int, r: int, w: int, e: int, k: int) {
    Between(c * 0x1_0000_0000 + r, c * 0x1_0000_0000 + r + w, e - 32, k)
  }

  /** Eight powers of ten up, with d powers of two. */
  lemma Up(d: nat, c: int, r: int, w: int, c': uint64, r': int, w': int, e': int, k': int)
    requires Enclosed(c, r, w, e' - d, k' - 8) && (d == 26 || d == 27) && 0x8000_0000_0000_0000 <= c'
    requires var lo, lo' := c * 0x1_0000_0000 + r, c' * 0x1_0000_0000 + r';
      var s := if d == 26 then 0x400_0000 else 0x800_0000;
      lo' * s <= lo * 100_000_000 && (lo + w) * 100_000_000 <= (lo' + w') * s
    requires -0x7f40_0000 <= r' && r' + w' <= 0x7f40_0000
    ensures Enclosed(c', r', w', e', k') && IsPower(CachedPower(c', e', k'))
  {
    hide Num, Den, Pow;
    EightSteps();
    RatioMoves(e' - d - 32, k' - 8, d, 8);
    var e, k, lo, lo' := e' - d - 32, k' - 8, c * 0x1_0000_0000 + r, c' * 0x1_0000_0000 + r';
    BoundsMove(Num(1, e, k), Den(e, k), Num(1, e' - 32, k'), Den(e' - 32, k'), Pow(2, d), Pow(10, 8),
               lo, lo + w, lo', lo' + w');
    Rounded(c', r', w', e', k');
  }

  /** Eight powers of ten down. */
  lemma Down(d: nat, c: int, r: int, w: int, c': uint64, r': int, w': int, e': int, k': int)
    requires Enclosed(c, r, w, e' + d, k' + 8) && (d == 26 || d == 27) && 0x8000_0000_0000_0000 <= c'
    requires var lo, lo' := c * 0x1_0000_0000 + r, c' * 0x1_0000_0000 + r';
      var s := if d == 26 then 0x400_0000 else 0x800_0000;
      lo' * 100_000_000 <= lo * s && (lo + w) * s <= (lo' + w') * 100_000_000
    requires -0x7f40_0000 <= r' && r' + w' <= 0x7f40_0000
    ensures Enclosed(c', r', w', e', k') && IsPower(CachedPower(c', e', k'))
  {
    hide Num, Den, Pow;
    EightSteps();
    RatioMoves(e' - 32, k', d, 8);
    var e, k, lo, lo' := e' + d - 32, k' + 8, c * 0x1_0000_0000 + r, c' * 0x1_0000_0000 + r';
    BoundsMove(Num(1, e, k), Den(e, k), Num(1, e' - 32, k'), Den(e' - 32, k'), Pow(10, 8), Pow(2, d),
               lo, lo + w, lo', lo' + w');
    Rounded(c', r', w', e', k');
  }

  lemma EightSteps()
    ensures Pow(10, 8) == 100_000_000 && Pow(2, 26) == 0x400_0000 && Pow(2, 27) == 0x800_0000
    ensures Pow(2, 32) == 0x1_0000_0000 && Pow(10, 0) == 1
  {
    hide Pow;
    Pow1(10);
    Pow2Values();
    PowAdd(10, 1, 1);
    PowAdd(10, 2, 2);
    PowAdd(10, 4, 4);
    PowSucc(2, 27);
    PowSucc(2, 26);
  }

  lemma Rounded(c: uint64, r: int, w: int, e: int, k: int)
    requires Enclosed(c, r, w, e, k) && 0x8000_0000_0000_0000 <= c && -0x7f40_0000 <= r && r + w <= 0x7f40_0000
    ensures IsPower(CachedPower(c, e, k))
  {
    hide Num, Den, Pow;
    EightSteps();
    RatioMoves(e - 32, k, 32, 0);
    var n, d, n', d', lo := Num(1, e - 32, k), Den(e - 32, k), Num(1, e, k), Den(e, k), c * 0x1_0000_0000 + r;
    assert (1024 * d') * n * 0x1_0000_0000 == (1024 * d) * n' * 1;
    assert (1024 * lo) * n <= 1024 * d <= (1024 * (lo + w)) * n;
    BoundsMove(n, 1024 * d, n', 1024 * d', 0x1_0000_0000, 1, 1024 * lo, 1024 * (lo + w),
               1024 * c - 509, 1024 * c + 509);
  }

  /** 10^4 is exact. */
  lemma Middle()
    ensures Enclosed(0x9c40_0000_0000_0000, 0, 0, -50, 4) && IsPower(CachedPower(0x9c40_0000_0000_0000, -50, 4))
  {
    hide Pow;
    FourAndEightyTwo();
    Rounded(0x9c40_0000_0000_0000, 0, 0, -50, 4);
  }

  lemma FourAndEightyTwo()
    ensures Pow(10, 4) == 10_000 && Pow(10, 0) == 1 && Pow(2, 0) == 1 && Pow(2, 82) == 0x4_0000_0000_0000_0000_0000
  {
    hide Pow;
    Pow1(10);
    Pow1(2);
    Pow2Values();
    PowAdd(10, 1, 1);
    PowAdd(10, 2, 2);
    PowAdd(2, 64, 16);
    PowSucc(2, 80);
    PowSucc(2, 81);
  }

  lemma Entries()
    ensures |CACHED_POWERS| == 87
  {
  }

  lemma Upward()
    ensures forall i {:trigger CACHED_POWERS[i]} :: 44 <= i <= 65 && i < |CACHED_POWERS| ==> IsPower(CACHED_POWERS[i])
    ensures Enclosed(0xa59b_c234_db39_8c25, 1140504956, 16, 508, 172)
  {
    hide IsPower, Enclosed;
    Middle();
    Up(26, 0x9c40_0000_0000_0000, 0, 0, 0xe8d4_a510_0000_0000, 0, 0, -24, 12);
    Up(27, 0xe8d4_a510_0000_0000, 0, 0, 0xad78_ebc5_ac62_0000, 0, 0, 3, 20);
    Up(27, 0xad78_ebc5_ac62_0000, 0, 0, 0x813f_3978_f894_0984, 1073741824, 0, 30, 28);
    Up(26, 0x813f_3978_f894_0984, 1073741824, 0, 0xc097_ce7b_c907_15b3, 1268715520, 0, 56, 36);
    Up(27, 0xc097_ce7b_c907_15b3, 1268715520, 0, 0x8f7e_32ce_7bea_5c70, -461242333, 1, 83, 44);
    Up(26, 0x8f7e_32ce_7bea_5c70, -461242333, 1, 0xd5d2_38a4_abe9_8068, 1923387460, 3, 109, 52);
    Up(27, 0xd5d2_38a4_abe9_8068, 1923387460, 3, 0x9f4f_2726_179a_2245, 30892608, 4, 136, 60);
    Up(26, 0x9f4f_2726_179a_2245, 30892608, 4, 0xed63_a231_d4c4_fb27, 1286056613, 7, 162, 68);
    Up(27, 0xed63_a231_d4c4_fb27, 1286056613, 7, 0xb0de_6538_8cc8_ada8, 992322908, 6, 189, 76);
    Up(27, 0xb0de_6538_8cc8_ada8, 992322908, 6, 0x83c7_088e_1aab_65db, 2032560068, 5, 216, 84);
    Up(26, 0x83c7_088e_1aab_65db, 2032560068, 5, 0xc45d_1df9_4271_1d9a, 1000722616, 9, 242, 92);
    Up(27, 0xc45d_1df9_4271_1d9a, 1000722616, 9, 0x924d_692c_a61b_e758, 1497114146, 8, 269, 100);
    Up(26, 0x924d_692c_a61b_e758, 1497114146, 8, 0xda01_ee64_1a70_8dea, -401707199, 13, 295, 108);
    Up(27, 0xda01_ee64_1a70_8dea, -401707199, 13, 0xa26d_a399_9aef_774a, -474063315, 11, 322, 116);
    Up(26, 0xa26d_a399_9aef_774a, -474063315, 11, 0xf209_787b_b47d_6b85, -1066955692, 18, 348, 124);
    Up(27, 0xf209_787b_b47d_6b85, -1066955692, 18, 0xb454_e4a1_79dd_1877, 700104254, 14, 375, 132);
    Up(27, 0xb454_e4a1_79dd_1877, 700104254, 14, 0x865b_8692_5b9b_c5c2, 193602445, 11, 402, 140);
    Up(26, 0x865b_8692_5b9b_c5c2, 193602445, 11, 0xc835_53c5_c896_5d3d, 1871872652, 17, 428, 148);
    Up(27, 0xc835_53c5_c896_5d3d, 1871872652, 17, 0x952a_b45c_fa97_a0b3, -577480082, 13, 455, 156);
    Up(26, 0x952a_b45c_fa97_a0b3, -577480082, 13, 0xde46_9fbd_99a0_5fe3, 1875533701, 20, 481, 164);
    Up(27, 0xde46_9fbd_99a0_5fe3, 1875533701, 20, 0xa59b_c234_db39_8c25, 1140504956, 16, 508, 172);
  }

  lemma HighPowers()
    ensures forall i {:trigger CACHED_POWERS[i]} :: 66 <= i <= 86 && i < |CACHED_POWERS| ==> IsPower(CACHED_POWERS[i])
  {
    hide IsPower, Enclosed;
    Upward();
    Up(26, 0xa59b_c234_db39_8c25, 1140504956, 16, 0xf6c6_9a72_a398_9f5c, -1968352109, 25, 534, 180);
    Up(27, 0xf6c6_9a72_a398_9f5c, -1968352109, 25, 0xb7dc_bf53_54e9_bece, 202501476, 20, 561, 188);
    Up(27, 0xb7dc_bf53_54e9_bece, 202501476, 20, 0x88fc_f317_f222_41e2, 1142942940, 16, 588, 196);
    Up(26, 0x88fc_f317_f222_41e2, 1142942940, 16, 0xcc20_ce9b_d35c_78a5, 837550978, 25, 614, 204);
    Up(27, 0xcc20_ce9b_d35c_78a5, 837550978, 25, 0x9816_5af3_7b21_53df, -1015907798, 20, 641, 212);
    Up(26, 0x9816_5af3_7b21_53df, -1015907798, 20, 0xe2a0_b5dc_971f_303a, 776253014, 31, 667, 220);
    Up(27, 0xe2a0_b5dc_971f_303a, 776253014, 31, 0xa8d9_d153_5ce3_b396, 2132294044, 24, 694, 228);
    Up(26, 0xa8d9_d153_5ce3_b396, 2132294044, 24, 0xfb9b_7cd9_a4a7_443c, 379076830, 36, 720, 236);
    Up(27, 0xfb9b_7cd9_a4a7_443c, 379076830, 36, 0xbb76_4c4c_a7a4_4410, -1653794105, 28, 747, 244);
    Up(27, 0xbb76_4c4c_a7a4_4410, -1653794105, 28, 0x8bab_8eef_b640_9c1a, 449874348, 22, 774, 252);
    Up(26, 0x8bab_8eef_b640_9c1a, 449874348, 22, 0xd01f_ef10_a657_842c, 757822809, 34, 800, 260);
    Up(27, 0xd01f_ef10_a657_842c, 757822809, 34, 0x9b10_a4e5_e991_3129, -897781081, 26, 827, 268);
    Up(26, 0x9b10_a4e5_e991_3129, -897781081, 26, 0xe710_9bfb_a19c_0c9d, 214241875, 40, 853, 276);
    Up(27, 0xe710_9bfb_a19c_0c9d, 214241875, 40, 0xac28_20d9_623b_f429, 1415792107, 31, 880, 284);
    Up(27, 0xac28_20d9_623b_f429, 1415792107, 31, 0x8044_4b5e_7aa7_cf85, 2038485336, 24, 907, 292);
    Up(26, 0x8044_4b5e_7aa7_cf85, 2038485336, 24, 0xbf21_e440_03ac_dd2d, -532215214, 37, 933, 300);
    Up(27, 0xbf21_e440_03ac_dd2d, -532215214, 37, 0x8e67_9c2f_5e44_ff8f, 1460603357, 28, 960, 308);
    Up(26, 0x8e67_9c2f_5e44_ff8f, 1460603357, 28, 0xd433_179d_9c8c_b841, 1604716158, 43, 986, 316);
    Up(27, 0xd433_179d_9c8c_b841, 1604716158, 43, 0x9e19_db92_b4e3_1ba9, 1812439731, 33, 1013, 324);
    Up(26, 0x9e19_db92_b4e3_1ba9, 1812439731, 33, 0xeb96_bf6e_badf_77d9, -467903558, 50, 1039, 332);
    Up(27, 0xeb96_bf6e_badf_77d9, -467903558, 50, 0xaf87_023b_9bf0_ee6b, -342905494, 39, 1066, 340);
  }

  lemma Downward()
    ensures forall i {:trigger CACHED_POWERS[i]} :: 22 <= i <= 43 && i < |CACHED_POWERS| ==> IsPower(CACHED_POWERS[i])
    ensures Enclosed(0xc5dd_4427_1ad3_cdba, 1089466840, 22, -635, -172)
  {
    hide IsPower, Enclosed;
    Middle();
    Down(27, 0x9c40_0000_0000_0000, 0, 0, 0xd1b7_1758_e219_652c, -742170349, 1, -77, -4);
    Down(26, 0xd1b7_1758_e219_652c, -742170349, 1, 0x8cbc_cc09_6f50_88cc, -113277001, 1, -103, -12);
    Down(27, 0x8cbc_cc09_6f50_88cc, -113277001, 1, 0xbce5_0864_9211_1aeb, -1997227236, 2, -130, -20);
    Down(27, 0xbce5_0864_9211_1aeb, -1997227236, 2, 0xfd87_b5f2_8300_ca0e, -1949655699, 3, -157, -28);
    Down(26, 0xfd87_b5f2_8300_ca0e, -1949655699, 3, 0xaa24_2499_6973_92d3, -572191791, 3, -183, -36);
    Down(27, 0xaa24_2499_6973_92d3, -572191791, 3, 0xe45c_10c4_2a2b_3b06, -1934058884, 5, -210, -44);
    Down(26, 0xe45c_10c4_2a2b_3b06, -1934058884, 5, 0x993f_e2c6_d07b_7fac, -448354302, 4, -236, -52);
    Down(27, 0x993f_e2c6_d07b_7fac, -448354302, 4, 0xcdb0_2555_6531_31b6, 932377616, 7, -263, -60);
    Down(26, 0xcdb0_2555_6531_31b6, 932377616, 7, 0x8a08_f0f8_bf0f_156b, 462331593, 6, -289, -68);
    Down(27, 0x8a08_f0f8_bf0f_156b, 462331593, 6, 0xb944_7093_8fa8_9bcf, -133635061, 9, -316, -76);
    Down(27, 0xb944_7093_8fa8_9bcf, -133635061, 9, 0xf8a9_5fcf_8874_7d94, 1973701726, 13, -343, -84);
    Down(26, 0xf8a9_5fcf_8874_7d94, 1973701726, 13, 0xa6df_bd9f_b8e5_b88f, -884159156, 10, -369, -92);
    Down(27, 0xa6df_bd9f_b8e5_b88f, -884159156, 10, 0xdff9_7724_7029_7ebd, 1501068838, 14, -396, -100);
    Down(26, 0xdff9_7724_7029_7ebd, 1501068838, 14, 0x964e_858c_91ba_2655, 980027381, 10, -422, -108);
    Down(27, 0x964e_858c_91ba_2655, 980027381, 10, 0xc9bc_ff60_34c1_3053, -58084466, 15, -449, -116);
    Down(26, 0xc9bc_ff60_34c1_3053, -58084466, 15, 0x8762_5f05_6c7c_4a8b, 289873107, 11, -475, -124);
    Down(27, 0x8762_5f05_6c7c_4a8b, 289873107, 11, 0xb5b5_ada8_aaff_80b8, 226597260, 15, -502, -132);
    Down(27, 0xb5b5_ada8_aaff_80b8, 226597260, 15, 0xf3e2_f893_dec3_f126, 1518984091, 21, -529, -140);
    Down(26, 0xf3e2_f893_dec3_f126, 1518984091, 21, 0xa3ab_6658_0d5f_daf6, -1052876598, 16, -555, -148);
    Down(27, 0xa3ab_6658_0d5f_daf6, -1052876598, 16, 0xdbac_6c24_7d62_a584, -549062851, 23, -582, -156);
    Down(26, 0xdbac_6c24_7d62_a584, -549062851, 23, 0x936b_9fce_bb25_c996, -894366254, 16, -608, -164);
    Down(27, 0x936b_9fce_bb25_c996, -894366254, 16, 0xc5dd_4427_1ad3_cdba, 1089466840, 22, -635, -172);
  }

  lemma LowPowers()
    ensures forall i {:trigger CACHED_POWERS[i]} :: 0 <= i <= 21 && i < |CACHED_POWERS| ==> IsPower(CACHED_POWERS[i])
  {
    hide IsPower, Enclosed;
    Downward();
    Down(26, 0xc5dd_4427_1ad3_cdba, 1089466840, 22, 0x84c8_d4df_d2c6_3f3b, 703388141, 16, -661, -180);
    Down(27, 0x84c8_d4df_d2c6_3f3b, 703388141, 16, 0xb238_67fb_2a35_b28e, -375496304, 23, -688, -188);
    Down(27, 0xb238_67fb_2a35_b28e, -375496304, 23, 0xef34_0a98_172a_ace5, -2030335645, 32, -715, -196);
    Down(26, 0xef34_0a98_172a_ace5, -2030335645, 32, 0xa086_cfcd_97bf_97f4, -2132237307, 22, -741, -204);
    Down(27, 0xa086_cfcd_97bf_97f4, -2132237307, 22, 0xd774_85cb_2582_3ac7, 2103652998, 30, -768, -212);
    Down(26, 0xd774_85cb_2582_3ac7, 2103652998, 30, 0x9096_ea6f_3848_984f, 1072747199, 21, -794, -220);
    Down(27, 0x9096_ea6f_3848_984f, 1072747199, 21, 0xc210_9436_4dfb_5637, -1738992145, 29, -821, -228);
    Down(26, 0xc210_9436_4dfb_5637, -1738992145, 29, 0x823c_1279_5db6_ce57, 1992637696, 20, -847, -236);
    Down(27, 0x823c_1279_5db6_ce57, 1992637696, 20, 0xaecc_4991_4078_536d, 1492838891, 28, -874, -244);
    Down(27, 0xaecc_4991_4078_536d, 1492838891, 28, 0xea9c_2277_23ee_8bcb, 1180571032, 39, -901, -252);
    Down(26, 0xea9c_2277_23ee_8bcb, 1180571032, 39, 0x9d71_ac8f_ada6_c9b5, 1870086071, 27, -927, -260);
    Down(27, 0x9d71_ac8f_ada6_c9b5, 1870086071, 27, 0xd351_5c28_3155_9a83, 224025396, 37, -954, -268);
    Down(26, 0xd351_5c28_3155_9a83, 224025396, 37, 0x8dd0_1fad_907f_fc3c, -1371691058, 26, -980, -276);
    Down(27, 0x8dd0_1fad_907f_fc3c, -1371691058, 26, 0xbe56_91ef_416b_d60c, 600610908, 36, -1007, -284);
    Down(27, 0xbe56_91ef_416b_d60c, 600610908, 36, 0xff77_b1fc_bebc_dc4f, 636020870, 50, -1034, -292);
    Down(26, 0xff77_b1fc_bebc_dc4f, 636020870, 50, 0xab70_fe17_c79a_c6ca, 1841128187, 35, -1060, -300);
    Down(27, 0xab70_fe17_c79a_c6ca, 1841128187, 35, 0xe61a_cf03_3d1a_45df, 1874404466, 48, -1087, -308);
    Down(26, 0xe61a_cf03_3d1a_45df, 1874404466, 48, 0x9a6b_b0aa_5565_3b2d, 1202860986, 34, -1113, -316);
    Down(27, 0x9a6b_b0aa_5565_3b2d, 1202860986, 34, 0xcf42_894a_5dce_35ea, 1376144536, 46, -1140, -324);
    Down(26, 0xcf42_894a_5dce_35ea, 1376144536, 46, 0x8b16_fb20_3055_ac76, 1278987074, 32, -1166, -332);
    Down(27, 0x8b16_fb20_3055_ac76, 1278987074, 32, 0xbaae_e17f_a23e_bf76, 1568259293, 44, -1193, -340);
    Down(27, 0xbaae_e17f_a23e_bf76, 1568259293, 44, 0xfa8f_d5a0_081c_0288, 389204048, 60, -1220, -348);
  }

  // ---- The index

  /** The binary exponent of a power of ten is the floor of its logarithm, by margins that rounding cannot reach. */
  ghost predicate IsAligned(i: int, c: CachedPower) {
    var k, e := c.decimalExponent, c.binaryExponent;
    && k == 8 * i - CACHED_POWERS_OFFSET
    && (e + 64) as real * D_1_LOG2_10 > k as real + 0.0005
    && (e + 34) as real * D_1_LOG2_10 + 8.001 < k as real
  }

  lemma Aligned(i: int)
    requires 0 <= i < |CACHED_POWERS|
    ensures IsAligned(i, CACHED_POWERS[i])
  {
    if i < 15 { FirstAligned(i); } else if i < 30 { SecondAligned(i); } else if i < 44 { ThirdAligned(i); }
    else if i < 58 { FourthAligned(i); } else if i < 72 { FifthAligned(i); } else { SixthAligned(i); }
  }

  lemma FirstAligned(i: int)
    requires 0 <= i < 15
    ensures i < |CACHED_POWERS| && IsAligned(i, CACHED_POWERS[i])
  {
  }

  lemma SecondAligned(i: int)
    requires 15 <= i < 30
    ensures i < |CACHED_POWERS| && IsAligned(i, CACHED_POWERS[i])
  {
  }

  lemma ThirdAligned(i: int)
    requires 30 <= i < 44
    ensures i < |CACHED_POWERS| && IsAligned(i, CACHED_POWERS[i])
  {
  }

  lemma FourthAligned(i: int)
    requires 44 <= i < 58
    ensures i < |CACHED_POWERS| && IsAligned(i, CACHED_POWERS[i])
  {
  }

  lemma FifthAligned(i: int)
    requires 58 <= i < 72
    ensures i < |CACHED_POWERS| && IsAligned(i, CACHED_POWERS[i])
  {
  }

  lemma SixthAligned(i: int)
    requires 72 <= i < |CACHED_POWERS|
    ensures i < |CACHED_POWERS| && IsAligned(i, CACHED_POWERS[i])
  {
  }

  lemma Entry(i: int)
    requires 0 <= i < 87
    ensures |CACHED_POWERS| == 87 && IsPower(CACHED_POWERS[i]) && IsAligned(i, CACHED_POWERS[i])
    ensures CACHED_POWERS[i].decimalExponent == 8 * i - CACHED_POWERS_OFFSET
  {
    hide IsPower, Enclosed;
    Entries();
    Upward();
    HighPowers();
    Downward();
    LowPowers();
    Aligned(i);
  }

  /** The number the source computes with ceil, where the product is off by noise. */
  function Ceiling(x: real): int { -(-x).Floor }

  /** A power of ten that moves a number with 64 bits into a range of exponents at least 28 wide, whatever the
      rounding of the floating-point product. */
  method GetCachedPowerForBinaryExponentRange(minExponent: int, maxExponent: int, noise: real)
    returns (power: CachedPower)
    requires -1100 <= minExponent <= 1040 && minExponent + 28 <= maxExponent && -0.0005 < noise < 0.0005
    ensures power in CACHED_POWERS && IsPower(power)
    ensures minExponent <= power.binaryExponent <= maxExponent
  {
    hide IsPower;
    var k := Ceiling((minExponent + 63) as real * D_1_LOG2_10 + noise);
    var index := (CACHED_POWERS_OFFSET + k - 1) / 8 + 1;
    Entry(index);
    power := CACHED_POWERS[index];
    InRange(minExponent, noise, k, index, power);
  }

  const DECIMAL_EXPONENT_DISTANCE := 8

  /** The largest power of the table up to a decimal exponent. */
  method GetCachedPowerForDecimalExponent(requestedExponent: int) returns (power: CachedPower)
    requires -348 <= requestedExponent < 348
    ensures power in CACHED_POWERS && IsPower(power)
    ensures power.decimalExponent <= requestedExponent < power.decimalExponent + DECIMAL_EXPONENT_DISTANCE
    ensures requestedExponent == -342 ==> power == CachedPower(0xfa8f_d5a0_081c_0288, -1220, -348)
  {
    hide CACHED_POWERS, IsPower, IsAligned;
    var index := (requestedExponent + CACHED_POWERS_OFFSET) / DECIMAL_EXPONENT_DISTANCE;
    Entry(index);
    FirstEntry();
    power := CACHED_POWERS[index];
  }

  lemma FirstEntry()
    ensures 0 < |CACHED_POWERS| && CACHED_POWERS[0] == CachedPower(0xfa8f_d5a0_081c_0288, -1220, -348)
  {
  }

  lemma InRange(minExponent: int, noise: real, k: int, index: int, c: CachedPower)
    requires -0.0005 < noise < 0.0005 && IsAligned(index, c) && index == (CACHED_POWERS_OFFSET + k - 1) / 8 + 1
    requires k == Ceiling((minExponent + 63) as real * D_1_LOG2_10 + noise)
    ensures minExponent <= c.binaryExponent <= minExponent + 28
  {
  }
}
