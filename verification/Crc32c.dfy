/**
  * CRC-32C (section 12.1 of RFC 3720) one bit at a time, and the algebra that every
  * faster form rests on: a zero-bit step is linear over exclusive-or.
  */
module Crc32c {
  const POLY: bv32 := 0x82f63b78

  function Xor(a: bv32, b: bv32): bv32 {
    a ^ b
  }

  function Half(c: bv32): bv32 {
    c >> 1
  }

  function Feedback(c: bv32): bv32 {
    if c & 1 == 1 then POLY else 0
  }

  /** Divides by the polynomial once: what feeding one zero bit does to the register. */
  function Step(c: bv32): bv32 {
    Xor(Half(c), Feedback(c))
  }

  function Steps(c: bv32, n: nat): bv32
    decreases n
  {
    if n == 0 then c else Steps(Step(c), n - 1)
  }

  /** Feeds the lowest `n` bits of `w`, lowest first, one bit at a time. */
  function FeedBits(c: bv32, w: bv32, n: nat): bv32
    decreases n
  {
    if n == 0 then c else FeedBits(Step(Xor(c, w & 1)), w >> 1, n - 1)
  }

  /** The register after a message, fed bit by bit. */
  function BitSerial(c: bv32, s: seq<bv8>): bv32
    decreases |s|
  {
    if s == [] then c else BitSerial(FeedBits(c, s[0] as bv32, 8), s[1..])
  }

  /** CRC-32C of a message, continued from the CRC of what came before it. */
  function Crc(crc: bv32, s: seq<bv8>): bv32 {
    Xor(BitSerial(Xor(crc, 0xffff_ffff), s), 0xffff_ffff)
  }

  // ----- Linearity -----

  lemma XorCommutes(a: bv32, b: bv32)
    ensures Xor(a, b) == Xor(b, a)
  {
  }

  lemma XorAssociates(a: bv32, b: bv32, c: bv32)
    ensures Xor(Xor(a, b), c) == Xor(a, Xor(b, c))
  {
  }

  lemma XorZero(a: bv32)
    ensures Xor(a, 0) == a && Xor(0, a) == a && Xor(a, a) == 0
  {
  }

  lemma XorCancels(a: bv32, b: bv32)
    ensures Xor(Xor(a, b), b) == a
  {
  }

  lemma XorSwaps(a: bv32, b: bv32, c: bv32, d: bv32)
    ensures Xor(Xor(a, b), Xor(c, d)) == Xor(Xor(a, c), Xor(b, d))
  {
    hide Xor;
    XorAssociates(a, b, Xor(c, d));
    XorAssociates(b, c, d);
    XorCommutes(b, c);
    XorAssociates(c, b, d);
    XorAssociates(a, c, Xor(b, d));
  }

  lemma HalfXor(a: bv32, b: bv32)
    ensures Half(Xor(a, b)) == Xor(Half(a), Half(b))
  {
  }

  lemma FeedbackXor(a: bv32, b: bv32)
    ensures Feedback(Xor(a, b)) == Xor(Feedback(a), Feedback(b))
  {
    var x, y := a & 1, b & 1;
    assert (a ^ b) & 1 == x ^ y;
    assert x == 0 || x == 1;
    assert y == 0 || y == 1;
  }

  lemma StepXor(a: bv32, b: bv32)
    ensures Step(Xor(a, b)) == Xor(Step(a), Step(b))
  {
    hide Xor, Half, Feedback;
    HalfXor(a, b);
    FeedbackXor(a, b);
    XorSwaps(Half(a), Half(b), Feedback(a), Feedback(b));
  }

  lemma {:induction false} StepsXor(a: bv32, b: bv32, n: nat)
    ensures Steps(Xor(a, b), n) == Xor(Steps(a, n), Steps(b, n))
    decreases n
  {
    hide Xor, Step;
    if n > 0 {
      StepXor(a, b);
      StepsXor(Step(a), Step(b), n - 1);
    }
  }

  lemma {:induction false} StepsAdd(c: bv32, m: nat, n: nat)
    ensures Steps(c, m + n) == Steps(Steps(c, m), n)
    decreases m
  {
    hide Step;
    if m > 0 {
      StepsAdd(Step(c), m - 1, n);
    }
  }

  lemma {:induction false} StepsZero(n: nat)
    ensures Steps(0, n) == 0
  {
    if n > 0 {
      assert Step(0) == 0;
      StepsZero(n - 1);
    }
  }

  // ----- A byte at a time -----

  /** What feeding one bit comes to, with the other bits of the word waiting in the register. */
  lemma FeedOne(c: bv32, w: bv32)
    ensures Xor(Step(Xor(c, w & 1)), w >> 1) == Step(Xor(c, w))
  {
    hide Xor, Step;
    var low, rest := w & 1, w & 0xffff_fffe;
    SplitWord(w);
    XorAssociates(c, low, rest);
    StepXor(Xor(c, low), rest);
  }

  lemma SplitWord(w: bv32)
    ensures w == Xor(w & 1, w & 0xffff_fffe) && Step(w & 0xffff_fffe) == w >> 1
  {
  }

  predicate FitsBits(w: bv32, n: nat) {
    if n == 0 then w == 0 else FitsBits(w >> 1, n - 1)
  }

  lemma {:induction false} FeedIsSteps(c: bv32, w: bv32, n: nat)
    requires FitsBits(w, n)
    ensures FeedBits(c, w, n) == Steps(Xor(c, w), n)
    decreases n
  {
    hide Xor, Step;
    if n == 0 {
      XorZero(c);
    } else {
      FeedOne(c, w);
      FeedIsSteps(Step(Xor(c, w & 1)), w >> 1, n - 1);
    }
  }

  lemma ByteFits(b: bv8)
    ensures FitsBits(b as bv32, 8)
  {
    var w := b as bv32;
    assert w >> 8 == 0;
    assert (w >> 1) >> 1 == w >> 2;
    assert (w >> 2) >> 1 == w >> 3;
    assert (w >> 3) >> 1 == w >> 4;
    assert (w >> 4) >> 1 == w >> 5;
    assert (w >> 5) >> 1 == w >> 6;
    assert (w >> 6) >> 1 == w >> 7;
    assert (w >> 7) >> 1 == w >> 8;
    assert FitsBits(w >> 8, 0) && FitsBits(w >> 7, 1) && FitsBits(w >> 6, 2) && FitsBits(w >> 5, 3);
    assert FitsBits(w >> 4, 4) && FitsBits(w >> 3, 5) && FitsBits(w >> 2, 6) && FitsBits(w >> 1, 7);
  }

  function ByteStep(c: bv32, b: bv8): bv32 {
    Steps(Xor(c, b as bv32), 8)
  }

  lemma FeedByte(c: bv32, b: bv8)
    ensures FeedBits(c, b as bv32, 8) == ByteStep(c, b)
  {
    ByteFits(b);
    FeedIsSteps(c, b as bv32, 8);
  }

  /** The register after a message, fed a byte at a time. */
  function Serial(c: bv32, s: seq<bv8>): bv32
    decreases |s|
  {
    if s == [] then c else Serial(ByteStep(c, s[0]), s[1..])
  }

  lemma {:induction false} SerialIsBitSerial(c: bv32, s: seq<bv8>)
    ensures Serial(c, s) == BitSerial(c, s)
    decreases |s|
  {
    hide ByteStep, FeedBits;
    if s != [] {
      FeedByte(c, s[0]);
      SerialIsBitSerial(ByteStep(c, s[0]), s[1..]);
    }
  }

  lemma {:induction false} SerialConcat(c: bv32, a: seq<bv8>, b: seq<bv8>)
    ensures Serial(c, a + b) == Serial(Serial(c, a), b)
    decreases |a|
  {
    hide ByteStep;
    if a == [] {
      assert a + b == b;
    } else {
      assert (a + b)[1..] == a[1..] + b;
      SerialConcat(ByteStep(c, a[0]), a[1..], b);
    }
  }

  /** The CRC of one message continued over another is the CRC of the two together. */
  lemma CrcChains(crc: bv32, a: seq<bv8>, b: seq<bv8>)
    ensures Crc(Crc(crc, a), b) == Crc(crc, a + b)
  {
    hide Xor, BitSerial;
    var c := Xor(crc, 0xffff_ffff);
    SerialConcat(c, a, b);
    SerialIsBitSerial(c, a + b);
    SerialIsBitSerial(c, a);
    SerialIsBitSerial(Serial(c, a), b);
    XorCancels(Serial(c, a), 0xffff_ffff);
  }

  /** The register splits: what it held, stepped on, and what the message alone gives. */
  lemma {:induction false} SerialSplits(c: bv32, s: seq<bv8>)
    ensures Serial(c, s) == Xor(Steps(c, 8 * |s|), Serial(0, s))
    decreases |s|
  {
    hide Xor, Steps, ByteStep;
    if s == [] {
      StepsNone(c);
      XorZero(c);
    } else {
      var t, b, n := s[1..], s[0], 8 * (|s| - 1);
      ByteSplits(c, b);
      SerialSplits(ByteStep(c, b), t);
      SerialSplits(ByteStep(0, b), t);
      StepsXor(Steps(c, 8), ByteStep(0, b), n);
      StepsAdd(c, 8, n);
      XorAssociates(Steps(c, 8 * |s|), Steps(ByteStep(0, b), n), Serial(0, t));
    }
  }

  lemma StepsNone(c: bv32)
    ensures Steps(c, 0) == c
  {
  }

  lemma ByteSplits(c: bv32, b: bv8)
    ensures ByteStep(c, b) == Xor(Steps(c, 8), ByteStep(0, b))
  {
    hide Xor, Steps;
    StepsXor(c, b as bv32, 8);
    XorZero(b as bv32);
  }
}
