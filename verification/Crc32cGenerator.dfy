/**
  * Which checksum this is: the register is divided by the generator that section 12.1 of
  * RFC 3720 gives for CRC-32C, and the published check value comes out.
  */
module Crc32cGenerator {
  import opened Crc32c
  import opened Crc32cDetection
  import opened Crc32cHw
  import opened Crc32cSw

  /** The polynomial 1: the register keeps the highest power lowest. */
  const ONE: bv32 := 0x8000_0000

  /** The powers below 32 that the generator sums. */
  const POWERS: seq<nat> := [28, 27, 26, 25, 23, 22, 20, 19, 18, 14, 13, 11, 10, 9, 8, 6, 0]

  /** The register multiplied by each of the powers, summed. */
  function SumOfSteps(c: bv32, powers: seq<nat>): bv32
    decreases |powers|
  {
    if powers == [] then 0 else Xor(Steps(c, powers[0]), SumOfSteps(c, powers[1..]))
  }

  lemma {:induction false} SumXor(a: bv32, b: bv32, powers: seq<nat>)
    ensures SumOfSteps(Xor(a, b), powers) == Xor(SumOfSteps(a, powers), SumOfSteps(b, powers))
    decreases |powers|
  {
    hide Xor, Steps;
    if powers == [] {
      XorZero(0);
    } else {
      SumXor(a, b, powers[1..]);
      StepsXor(a, b, powers[0]);
      XorSwaps(Steps(a, powers[0]), Steps(b, powers[0]), SumOfSteps(a, powers[1..]), SumOfSteps(b, powers[1..]));
    }
  }

  lemma StepsCommute(c: bv32, m: nat, n: nat)
    ensures Steps(Steps(c, m), n) == Steps(Steps(c, n), m)
  {
    hide Steps;
    StepsAdd(c, m, n);
    StepsAdd(c, n, m);
  }

  lemma {:induction false} SumCommutes(c: bv32, powers: seq<nat>, n: nat)
    ensures SumOfSteps(Steps(c, n), powers) == Steps(SumOfSteps(c, powers), n)
    decreases |powers|
  {
    hide Xor, Steps;
    if powers == [] {
      StepsZero(n);
    } else {
      SumCommutes(c, powers[1..], n);
      StepsCommute(c, n, powers[0]);
      StepsXor(Steps(c, powers[0]), SumOfSteps(c, powers[1..]), n);
    }
  }

  // ----- The powers of the register 1 -----

  lemma StepsNext(c: bv32, n: nat)
    ensures Steps(c, n + 1) == Step(Steps(c, n))
  {
    hide Step;
    StepsAdd(c, n, 1);
    assert Steps(Steps(c, n), 1) == Steps(Step(Steps(c, n)), 0);
  }

  lemma PowersTo8()
    ensures Steps(ONE, 1) == 0x4000_0000
    ensures Steps(ONE, 2) == 0x2000_0000
    ensures Steps(ONE, 3) == 0x1000_0000
    ensures Steps(ONE, 4) == 0x0800_0000
    ensures Steps(ONE, 5) == 0x0400_0000
    ensures Steps(ONE, 6) == 0x0200_0000
    ensures Steps(ONE, 7) == 0x0100_0000
    ensures Steps(ONE, 8) == 0x0080_0000
  {
    hide Steps;
    StepsNone(ONE);
    StepsNext(ONE, 0);
    StepsNext(ONE, 1);
    StepsNext(ONE, 2);
    StepsNext(ONE, 3);
    StepsNext(ONE, 4);
    StepsNext(ONE, 5);
    StepsNext(ONE, 6);
    StepsNext(ONE, 7);
  }

  lemma PowersTo16()
    requires Steps(ONE, 8) == 0x0080_0000
    ensures Steps(ONE, 9) == 0x0040_0000
    ensures Steps(ONE, 10) == 0x0020_0000
    ensures Steps(ONE, 11) == 0x0010_0000
    ensures Steps(ONE, 12) == 0x0008_0000
    ensures Steps(ONE, 13) == 0x0004_0000
    ensures Steps(ONE, 14) == 0x0002_0000
    ensures Steps(ONE, 15) == 0x0001_0000
    ensures Steps(ONE, 16) == 0x0000_8000
  {
    hide Steps;
    StepsNext(ONE, 8);
    StepsNext(ONE, 9);
    StepsNext(ONE, 10);
    StepsNext(ONE, 11);
    StepsNext(ONE, 12);
    StepsNext(ONE, 13);
    StepsNext(ONE, 14);
    StepsNext(ONE, 15);
  }

  lemma PowersTo24()
    requires Steps(ONE, 16) == 0x0000_8000
    ensures Steps(ONE, 17) == 0x0000_4000
    ensures Steps(ONE, 18) == 0x0000_2000
    ensures Steps(ONE, 19) == 0x0000_1000
    ensures Steps(ONE, 20) == 0x0000_0800
    ensures Steps(ONE, 21) == 0x0000_0400
    ensures Steps(ONE, 22) == 0x0000_0200
    ensures Steps(ONE, 23) == 0x0000_0100
    ensures Steps(ONE, 24) == 0x0000_0080
  {
    hide Steps;
    StepsNext(ONE, 16);
    StepsNext(ONE, 17);
    StepsNext(ONE, 18);
    StepsNext(ONE, 19);
    StepsNext(ONE, 20);
    StepsNext(ONE, 21);
    StepsNext(ONE, 22);
    StepsNext(ONE, 23);
  }

  lemma PowersTo31()
    requires Steps(ONE, 24) == 0x0000_0080
    ensures Steps(ONE, 25) == 0x0000_0040
    ensures Steps(ONE, 26) == 0x0000_0020
    ensures Steps(ONE, 27) == 0x0000_0010
    ensures Steps(ONE, 28) == 0x0000_0008
    ensures Steps(ONE, 29) == 0x0000_0004
    ensures Steps(ONE, 30) == 0x0000_0002
    ensures Steps(ONE, 31) == 0x0000_0001
  {
    hide Steps;
    StepsNext(ONE, 24);
    StepsNext(ONE, 25);
    StepsNext(ONE, 26);
    StepsNext(ONE, 27);
    StepsNext(ONE, 28);
    StepsNext(ONE, 29);
    StepsNext(ONE, 30);
  }

  lemma XorValue(a: bv32, b: bv32)
    ensures Xor(a, b) == a ^ b
  {
  }

  lemma SumOfNone(c: bv32)
    ensures SumOfSteps(c, []) == 0
  {
  }

  lemma SumFront(c: bv32, k: nat, powers: seq<nat>)
    ensures SumOfSteps(c, [k] + powers) == Xor(Steps(c, k), SumOfSteps(c, powers))
  {
    assert ([k] + powers)[1..] == powers;
  }

  lemma {:induction false} SumAppend(c: bv32, a: seq<nat>, b: seq<nat>)
    ensures SumOfSteps(c, a + b) == Xor(SumOfSteps(c, a), SumOfSteps(c, b))
    decreases |a|
  {
    hide Xor, Steps;
    if a == [] {
      assert a + b == b;
      XorZero(SumOfSteps(c, b));
    } else {
      SumAppend(c, a[1..], b);
      assert a + b == [a[0]] + (a[1..] + b);
      SumFront(c, a[0], a[1..] + b);
      XorAssociates(Steps(c, a[0]), SumOfSteps(c, a[1..]), SumOfSteps(c, b));
    }
  }

  lemma HighPowers()
    ensures SumOfSteps(ONE, [28, 27, 26, 25, 23, 22, 20, 19]) == 0x0000_1b78
  {
    hide Steps, SumOfSteps, Xor;
    PowersTo8();
    PowersTo16();
    PowersTo24();
    PowersTo31();
    StepsNone(ONE);
    SumOfNone(ONE);
    SumFront(ONE, 19, []);
    assert [19] == [19] + [];
    assert Xor(0x0000_1000, 0x0000_0000) == 0x0000_1000 by { XorValue(0x0000_1000, 0x0000_0000); }
    SumFront(ONE, 20, [19]);
    assert [20, 19] == [20] + [19];
    assert Xor(0x0000_0800, 0x0000_1000) == 0x0000_1800 by { XorValue(0x0000_0800, 0x0000_1000); }
    SumFront(ONE, 22, [20, 19]);
    assert [22, 20, 19] == [22] + [20, 19];
    assert Xor(0x0000_0200, 0x0000_1800) == 0x0000_1a00 by { XorValue(0x0000_0200, 0x0000_1800); }
    SumFront(ONE, 23, [22, 20, 19]);
    assert [23, 22, 20, 19] == [23] + [22, 20, 19];
    assert Xor(0x0000_0100, 0x0000_1a00) == 0x0000_1b00 by { XorValue(0x0000_0100, 0x0000_1a00); }
    SumFront(ONE, 25, [23, 22, 20, 19]);
    assert [25, 23, 22, 20, 19] == [25] + [23, 22, 20, 19];
    assert Xor(0x0000_0040, 0x0000_1b00) == 0x0000_1b40 by { XorValue(0x0000_0040, 0x0000_1b00); }
    SumFront(ONE, 26, [25, 23, 22, 20, 19]);
    assert [26, 25, 23, 22, 20, 19] == [26] + [25, 23, 22, 20, 19];
    assert Xor(0x0000_0020, 0x0000_1b40) == 0x0000_1b60 by { XorValue(0x0000_0020, 0x0000_1b40); }
    SumFront(ONE, 27, [26, 25, 23, 22, 20, 19]);
    assert [27, 26, 25, 23, 22, 20, 19] == [27] + [26, 25, 23, 22, 20, 19];
    assert Xor(0x0000_0010, 0x0000_1b60) == 0x0000_1b70 by { XorValue(0x0000_0010, 0x0000_1b60); }
    SumFront(ONE, 28, [27, 26, 25, 23, 22, 20, 19]);
    assert [28, 27, 26, 25, 23, 22, 20, 19] == [28] + [27, 26, 25, 23, 22, 20, 19];
    assert Xor(0x0000_0008, 0x0000_1b70) == 0x0000_1b78 by { XorValue(0x0000_0008, 0x0000_1b70); }
  }

  lemma LowPowers()
    ensures SumOfSteps(ONE, [18, 14, 13, 11, 10, 9, 8, 6, 0]) == 0x82f6_2000
  {
    hide Steps, SumOfSteps, Xor;
    PowersTo8();
    PowersTo16();
    PowersTo24();
    PowersTo31();
    StepsNone(ONE);
    SumOfNone(ONE);
    SumFront(ONE, 0, []);
    assert [0] == [0] + [];
    assert Xor(0x8000_0000, 0x0000_0000) == 0x8000_0000 by { XorValue(0x8000_0000, 0x0000_0000); }
    SumFront(ONE, 6, [0]);
    assert [6, 0] == [6] + [0];
    assert Xor(0x0200_0000, 0x8000_0000) == 0x8200_0000 by { XorValue(0x0200_0000, 0x8000_0000); }
    SumFront(ONE, 8, [6, 0]);
    assert [8, 6, 0] == [8] + [6, 0];
    assert Xor(0x0080_0000, 0x8200_0000) == 0x8280_0000 by { XorValue(0x0080_0000, 0x8200_0000); }
    SumFront(ONE, 9, [8, 6, 0]);
    assert [9, 8, 6, 0] == [9] + [8, 6, 0];
    assert Xor(0x0040_0000, 0x8280_0000) == 0x82c0_0000 by { XorValue(0x0040_0000, 0x8280_0000); }
    SumFront(ONE, 10, [9, 8, 6, 0]);
    assert [10, 9, 8, 6, 0] == [10] + [9, 8, 6, 0];
    assert Xor(0x0020_0000, 0x82c0_0000) == 0x82e0_0000 by { XorValue(0x0020_0000, 0x82c0_0000); }
    SumFront(ONE, 11, [10, 9, 8, 6, 0]);
    assert [11, 10, 9, 8, 6, 0] == [11] + [10, 9, 8, 6, 0];
    assert Xor(0x0010_0000, 0x82e0_0000) == 0x82f0_0000 by { XorValue(0x0010_0000, 0x82e0_0000); }
    SumFront(ONE, 13, [11, 10, 9, 8, 6, 0]);
    assert [13, 11, 10, 9, 8, 6, 0] == [13] + [11, 10, 9, 8, 6, 0];
    assert Xor(0x0004_0000, 0x82f0_0000) == 0x82f4_0000 by { XorValue(0x0004_0000, 0x82f0_0000); }
    SumFront(ONE, 14, [13, 11, 10, 9, 8, 6, 0]);
    assert [14, 13, 11, 10, 9, 8, 6, 0] == [14] + [13, 11, 10, 9, 8, 6, 0];
    assert Xor(0x0002_0000, 0x82f4_0000) == 0x82f6_0000 by { XorValue(0x0002_0000, 0x82f4_0000); }
    SumFront(ONE, 18, [14, 13, 11, 10, 9, 8, 6, 0]);
    assert [18, 14, 13, 11, 10, 9, 8, 6, 0] == [18] + [14, 13, 11, 10, 9, 8, 6, 0];
    assert Xor(0x0000_2000, 0x82f6_0000) == 0x82f6_2000 by { XorValue(0x0000_2000, 0x82f6_0000); }
  }

  lemma OneTo32()
    ensures Steps(ONE, 32) == SumOfSteps(ONE, POWERS) && Steps(ONE, 31) == Unit(0)
  {
    hide Steps, SumOfSteps;
    PowersTo8();
    PowersTo16();
    PowersTo24();
    PowersTo31();
    StepsNext(ONE, 31);
    HighPowers();
    LowPowers();
    SumAppend(ONE, [28, 27, 26, 25, 23, 22, 20, 19], [18, 14, 13, 11, 10, 9, 8, 6, 0]);
    assert POWERS == [28, 27, 26, 25, 23, 22, 20, 19] + [18, 14, 13, 11, 10, 9, 8, 6, 0];
  }

  /** Every single bit is a power of the register 1. */
  lemma {:induction false} UnitIsPower(i: nat)
    requires i <= 31
    ensures Unit(i) == Steps(ONE, 31 - i)
  {
    hide Steps, Unit;
    if i == 0 {
      OneTo32();
    } else {
      UnitIsPower(i - 1);
      OneBit(i);
      StepsAdd(ONE, 31 - i, 1);
      StepsInjective(Unit(i), Steps(ONE, 31 - i), 1);
    }
  }

  lemma UnitDivides(i: nat)
    requires i <= 31
    ensures Steps(Unit(i), 32) == SumOfSteps(Unit(i), POWERS)
  {
    hide Steps, Unit, SumOfSteps;
    UnitIsPower(i);
    OneTo32();
    StepsCommute(ONE, 31 - i, 32);
    SumCommutes(ONE, POWERS, 31 - i);
  }

  lemma BitDivides(v: bv32, i: nat)
    requires i <= 31
    ensures Steps(Up(LowBit(v), i), 32) == SumOfSteps(Up(LowBit(v), i), POWERS)
  {
    hide Steps, Up, SumOfSteps, LowBit;
    SplitLowBit(v);
    if LowBit(v) == 0 {
      UpZero(i);
      StepsZero(32);
      SumOfZero(POWERS);
    } else {
      UnitDivides(i);
    }
  }

  lemma {:induction false} SumOfZero(powers: seq<nat>)
    ensures SumOfSteps(0, powers) == 0
    decreases |powers|
  {
    hide Xor, Steps;
    if powers != [] {
      SumOfZero(powers[1..]);
      StepsZero(powers[0]);
      XorZero(0);
    }
  }

  lemma {:induction false} WordDivides(v: bv32, i: nat)
    requires i <= 32 && FitsBits(v, 32 - i)
    ensures Steps(Up(v, i), 32) == SumOfSteps(Up(v, i), POWERS)
    decreases 32 - i
  {
    hide Steps, Up, SumOfSteps, LowBit, Half, Xor, FitsBits;
    if i == 32 {
      NoBits(v);
      UpZero(i);
      StepsZero(32);
      SumOfZero(POWERS);
    } else {
      FitsHalf(v, 32 - i);
      WordDivides(Half(v), i + 1);
      BitDivides(v, i);
      UpSplit(v, i);
      StepsXor(Up(LowBit(v), i), Up(Half(v), i + 1), 32);
      SumXor(Up(LowBit(v), i), Up(Half(v), i + 1), POWERS);
    }
  }

  lemma NoBits(v: bv32)
    requires FitsBits(v, 0)
    ensures v == 0
  {
  }

  /**
    * The generator: for every register, 32 steps are the sum of 28, 27, 26, 25, 23, 22, 20, 19,
    * 18, 14, 13, 11, 10, 9, 8, 6 and no steps.
    */
  lemma Generator(c: bv32)
    ensures Steps(c, 32) == SumOfSteps(c, [28, 27, 26, 25, 23, 22, 20, 19, 18, 14, 13, 11, 10, 9, 8, 6, 0])
  {
    hide Steps, SumOfSteps, FitsBits;
    AllFit(c);
    WordDivides(c, 0);
    assert Up(c, 0) == c;
  }

  // ----- The check value -----

  lemma EightMore(c0: bv32, c1: bv32, c2: bv32, c3: bv32, c4: bv32, c5: bv32, c6: bv32, c7: bv32, c8: bv32)
    requires Step(c0) == c1 && Step(c1) == c2 && Step(c2) == c3 && Step(c3) == c4
    requires Step(c4) == c5 && Step(c5) == c6 && Step(c6) == c7 && Step(c7) == c8
    ensures Steps(c0, 8) == c8
  {
    hide Step;
    assert Steps(c7, 1) == c8;
    assert Steps(c6, 2) == c8;
    assert Steps(c5, 3) == c8;
    assert Steps(c4, 4) == c8;
    assert Steps(c3, 5) == c8;
    assert Steps(c2, 6) == c8;
    assert Steps(c1, 7) == c8;
  }

  lemma Check1()
    ensures ByteStep(0xffff_ffff, 49) == 0x6f0a_661c
  {
    hide Steps;
    EightMore(0xffff_ffce, 0x7fff_ffe7, 0xbd09_c48b, 0xdc72_d93d, 0xeccf_57e6,
              0x7667_abf3, 0xb9c5_ee81, 0xde14_cc38, 0x6f0a_661c);
  }

  lemma Check2()
    ensures ByteStep(0x6f0a_661c, 50) == 0x8caa_3b9f
  {
    hide Steps;
    EightMore(0x6f0a_662e, 0x3785_3317, 0x9934_a2f3, 0xce6c_6a01, 0xe5c0_0e78,
              0x72e0_073c, 0x3970_039e, 0x1cb8_01cf, 0x8caa_3b9f);
  }

  lemma Check3()
    ensures ByteStep(0x8caa_3b9f, 51) == 0xef84_d04d
  {
    hide Steps;
    EightMore(0x8caa_3bac, 0x4655_1dd6, 0x232a_8eeb, 0x9363_7c0d, 0xcb47_857e,
              0x65a3_c2bf, 0xb027_da27, 0xdae5_d66b, 0xef84_d04d);
  }

  lemma Check4()
    ensures ByteStep(0xef84_d04d, 52) == 0x09c5_0b11
  {
    hide Steps;
    EightMore(0xef84_d079, 0xf534_5344, 0x7a9a_29a2, 0x3d4d_14d1, 0x9c50_b110,
              0x4e28_5888, 0x2714_2c44, 0x138a_1622, 0x09c5_0b11);
  }

  lemma Check5()
    ensures ByteStep(0x09c5_0b11, 53) == 0xe72e_dcca
  {
    hide Steps;
    EightMore(0x09c5_0b24, 0x04e2_8592, 0x0271_42c9, 0x83ce_9a1c, 0x41e7_4d0e,
              0x20f3_a687, 0x928f_e83b, 0xcbb1_cf65, 0xe72e_dcca);
  }

  lemma Check6()
    ensures ByteStep(0xe72e_dcca, 54) == 0xbeca_8e79
  {
    hide Steps;
    EightMore(0xe72e_dcfc, 0x7397_6e7e, 0x39cb_b73f, 0x9e13_e0e7, 0xcdff_cb0b,
              0xe409_defd, 0xf0f2_d406, 0x7879_6a03, 0xbeca_8e79);
  }

  lemma Check7()
    ensures ByteStep(0xbeca_8e79, 55) == 0xedbd_6815
  {
    hide Steps;
    EightMore(0xbeca_8e4e, 0x5f65_4727, 0xad44_98eb, 0xd454_770d, 0xe8dc_00fe,
              0x746e_007f, 0xb8c1_3b47, 0xde96_a6db, 0xedbd_6815);
  }

  lemma Check8()
    ensures ByteStep(0xedbd_6815, 56) == 0x9f78_7f65
  {
    hide Steps;
    EightMore(0xedbd_682d, 0xf428_8f6e, 0x7a14_47b7, 0xbffc_18a3, 0xdd08_3729,
              0xec72_20ec, 0x7639_1076, 0x3b1c_883b, 0x9f78_7f65);
  }

  lemma Check9()
    ensures ByteStep(0x9f78_7f65, 57) == 0x1cf9_6d7c
  {
    hide Steps;
    EightMore(0x9f78_7f5c, 0x4fbc_3fae, 0x27de_1fd7, 0x9119_3493, 0xca7a_a131,
              0xe7cb_6be0, 0x73e5_b5f0, 0x39f2_daf8, 0x1cf9_6d7c);
  }

  lemma SerialThree(c: bv32, x: bv8, y: bv8, z: bv8)
    ensures Serial(c, [x, y, z]) == ByteStep(ByteStep(ByteStep(c, x), y), z)
  {
    hide ByteStep;
    var s: seq<bv8>, t: seq<bv8>, u: seq<bv8> := [x, y, z], [y, z], [z];
    assert s[1..] == t && t[1..] == u && u[1..] == [];
    var d := ByteStep(ByteStep(c, x), y);
    assert Serial(d, u) == ByteStep(d, z);
    assert Serial(ByteStep(c, x), t) == Serial(d, u);
  }

  lemma CheckPart1()
    ensures Serial(0xffff_ffff, [49, 50, 51]) == 0xef84_d04d
  {
    hide ByteStep, Serial;
    Check1();
    Check2();
    Check3();
    SerialThree(0xffff_ffff, 49, 50, 51);
  }

  lemma CheckPart2()
    ensures Serial(0xef84_d04d, [52, 53, 54]) == 0xbeca_8e79
  {
    hide ByteStep, Serial;
    Check4();
    Check5();
    Check6();
    SerialThree(0xef84_d04d, 52, 53, 54);
  }

  lemma CheckPart3()
    ensures Serial(0xbeca_8e79, [55, 56, 57]) == 0x1cf9_6d7c
  {
    hide ByteStep, Serial;
    Check7();
    Check8();
    Check9();
    SerialThree(0xbeca_8e79, 55, 56, 57);
  }

  /** The CRC-32C of the digits 1 to 9, the check value by which CRCs are told apart. */
  lemma CheckValue()
    ensures Crc(0, [49, 50, 51, 52, 53, 54, 55, 56, 57]) == 0xe306_9283
  {
    hide Serial, BitSerial;
    CheckPart1();
    CheckPart2();
    CheckPart3();
    var a: seq<bv8>, b: seq<bv8>, c: seq<bv8> := [49, 50, 51], [52, 53, 54], [55, 56, 57];
    SerialConcat(0xffff_ffff, a, b + c);
    SerialConcat(0xef84_d04d, b, c);
    SerialIsBitSerial(0xffff_ffff, a + (b + c));
    assert a + (b + c) == [49, 50, 51, 52, 53, 54, 55, 56, 57];
  }
}
