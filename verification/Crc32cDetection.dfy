/** What a CRC-32C is for: a change within 32 consecutive bits always shows. */
module Crc32cDetection {
  import opened Crc32c
  import opened Crc32cHw

  /** A step loses nothing: the polynomial's top bit records the bit shifted out. */
  lemma StepZero(c: bv32)
    requires Step(c) == 0
    ensures c == 0
  {
  }

  lemma {:induction false} StepsKernel(c: bv32, n: nat)
    requires Steps(c, n) == 0
    ensures c == 0
    decreases n
  {
    hide Step;
    if n > 0 {
      StepsKernel(Step(c), n - 1);
      StepZero(c);
    }
  }

  lemma XorIsZero(a: bv32, b: bv32)
    requires Xor(a, b) == 0
    ensures a == b
  {
  }

  lemma StepsInjective(a: bv32, b: bv32, n: nat)
    requires Steps(a, n) == Steps(b, n)
    ensures a == b
  {
    hide Steps, Xor;
    StepsXor(a, b, n);
    XorZero(Steps(a, n));
    StepsKernel(Xor(a, b), n);
    XorIsZero(a, b);
  }

  lemma XorLeft(a: bv32, b: bv32, c: bv32)
    requires Xor(a, c) == Xor(b, c)
    ensures a == b
  {
    hide Xor;
    XorCancels(a, c);
    XorCancels(b, c);
  }

  // ----- A message as bits -----

  function Bit(b: bool): bv32 {
    if b then 1 else 0
  }

  /** The lowest `n` bits of a word, in the order in which they are fed. */
  function WordBits(w: bv32, n: nat): (r: seq<bool>)
    ensures |r| == n
  {
    if n == 0 then [] else [LowBit(w) == 1] + WordBits(Half(w), n - 1)
  }

  /** The bits of a message, in the order in which they are fed. */
  function MessageBits(s: seq<bv8>): (r: seq<bool>)
    ensures |r| == 8 * |s|
  {
    if s == [] then [] else WordBits(s[0] as bv32, 8) + MessageBits(s[1..])
  }

  function FeedAll(c: bv32, bits: seq<bool>): bv32
    decreases |bits|
  {
    if bits == [] then c else FeedAll(Step(Xor(c, Bit(bits[0]))), bits[1..])
  }

  lemma LowBitIs(w: bv32)
    ensures w & 1 == Bit(LowBit(w) == 1) && w >> 1 == Half(w)
  {
  }

  lemma {:induction false} FeedWordBits(c: bv32, w: bv32, n: nat)
    ensures FeedBits(c, w, n) == FeedAll(c, WordBits(w, n))
    decreases n
  {
    hide Step, Xor, Half, LowBit, Bit;
    if n > 0 {
      LowBitIs(w);
      FeedWordBits(Step(Xor(c, w & 1)), Half(w), n - 1);
      var bits := WordBits(w, n);
      assert bits[0] == (LowBit(w) == 1) && bits[1..] == WordBits(Half(w), n - 1);
    }
  }

  lemma {:induction false} FeedAppend(c: bv32, a: seq<bool>, b: seq<bool>)
    ensures FeedAll(c, a + b) == FeedAll(FeedAll(c, a), b)
    decreases |a|
  {
    hide Step, Xor, Bit;
    if a == [] {
      assert a + b == b;
    } else {
      assert (a + b)[0] == a[0] && (a + b)[1..] == a[1..] + b;
      FeedAppend(Step(Xor(c, Bit(a[0]))), a[1..], b);
    }
  }

  /** The register after a message is the register after its bits. */
  lemma {:induction false} BitSerialIsBits(c: bv32, s: seq<bv8>)
    ensures BitSerial(c, s) == FeedAll(c, MessageBits(s))
    decreases |s|
  {
    hide FeedBits, WordBits;
    if s != [] {
      var d := FeedBits(c, s[0] as bv32, 8);
      FeedWordBits(c, s[0] as bv32, 8);
      BitSerialIsBits(d, s[1..]);
      FeedAppend(c, WordBits(s[0] as bv32, 8), MessageBits(s[1..]));
    }
  }

  /** Different registers stay different over the same bits. */
  lemma {:induction false} FeedInjective(a: bv32, b: bv32, bits: seq<bool>)
    requires FeedAll(a, bits) == FeedAll(b, bits)
    ensures a == b
    decreases |bits|
  {
    hide Xor, Bit, Step;
    if bits != [] {
      var x := Bit(bits[0]);
      FeedInjective(Step(Xor(a, x)), Step(Xor(b, x)), bits[1..]);
      OneStepInjective(Xor(a, x), Xor(b, x));
      XorLeft(a, b, x);
    }
  }

  lemma OneStepInjective(a: bv32, b: bv32)
    requires Step(a) == Step(b)
    ensures a == b
  {
    hide Step;
    assert Steps(a, 1) == Steps(Step(a), 0) == Step(a);
    assert Steps(b, 1) == Steps(Step(b), 0) == Step(b);
    StepsInjective(a, b, 1);
  }

  // ----- Up to 32 bits from the same register -----

  /** The bits as one word, the first one lowest. */
  function Pack(bits: seq<bool>): bv32
    decreases |bits|
  {
    if bits == [] then 0 else Xor(Bit(bits[0]), Double(Pack(bits[1..])))
  }

  lemma PackFront(b: bool, v: bv32)
    requires TopClear(v)
    ensures LowBit(Xor(Bit(b), Double(v))) == Bit(b) && Half(Xor(Bit(b), Double(v))) == v
  {
  }

  lemma {:induction false} PackFits(bits: seq<bool>)
    requires |bits| <= 32
    ensures FitsBits(Pack(bits), |bits|) && WordBits(Pack(bits), |bits|) == bits
    decreases |bits|
  {
    hide Xor, Double, LowBit, Half, TopClear, Bit;
    if bits != [] {
      var v := Pack(bits[1..]);
      PackFits(bits[1..]);
      FitsTopClear(v, |bits| - 1);
      PackFront(bits[0], v);
      FitsFront(Pack(bits), |bits|);
      BitTrue(bits[0]);
    }
  }

  lemma BitTrue(b: bool)
    ensures Bit(b) == 1 <==> b
  {
  }

  lemma FitsFront(w: bv32, n: nat)
    requires 1 <= n && FitsBits(Half(w), n - 1)
    ensures FitsBits(w, n)
  {
    hide FitsBits;
    LowBitIs(w);
    FitsUnfold(w, n);
  }

  lemma FitsUnfold(w: bv32, n: nat)
    requires 1 <= n
    ensures FitsBits(w, n) <==> FitsBits(w >> 1, n - 1)
  {
  }

  /** Up to 32 bits enter the register as one word, and none of them is lost. */
  lemma WindowInjective(c: bv32, x: seq<bool>, y: seq<bool>)
    requires |x| == |y| <= 32 && FeedAll(c, x) == FeedAll(c, y)
    ensures x == y
  {
    hide FeedAll, FeedBits, Steps, Xor, Pack, WordBits, FitsBits;
    PackFits(x);
    PackFits(y);
    FeedWordBits(c, Pack(x), |x|);
    FeedWordBits(c, Pack(y), |y|);
    FeedIsSteps(c, Pack(x), |x|);
    FeedIsSteps(c, Pack(y), |y|);
    StepsInjective(Xor(c, Pack(x)), Xor(c, Pack(y)), |x|);
    XorCommutes(c, Pack(x));
    XorCommutes(c, Pack(y));
    XorLeft(Pack(x), Pack(y), c);
  }

  // ----- Messages -----

  lemma {:induction false} WordBitsInjective(a: bv32, b: bv32, n: nat)
    requires FitsBits(a, n) && FitsBits(b, n) && WordBits(a, n) == WordBits(b, n)
    ensures a == b
    decreases n
  {
    hide LowBit, Half, Xor, Double;
    if n > 0 {
      var x, y := WordBits(a, n), WordBits(b, n);
      assert x[0] == (LowBit(a) == 1) && y[0] == (LowBit(b) == 1);
      assert x[1..] == WordBits(Half(a), n - 1) && y[1..] == WordBits(Half(b), n - 1);
      LowBitIs(a);
      LowBitIs(b);
      WordBitsInjective(Half(a), Half(b), n - 1);
      SplitLowBit(a);
      SplitLowBit(b);
    }
  }

  lemma ByteBitsInjective(a: bv8, b: bv8)
    requires WordBits(a as bv32, 8) == WordBits(b as bv32, 8)
    ensures a == b
  {
    hide WordBits, FitsBits;
    ByteFits(a);
    ByteFits(b);
    WordBitsInjective(a as bv32, b as bv32, 8);
    WidenInjective(a, b);
  }

  lemma WidenInjective(a: bv8, b: bv8)
    ensures a as bv32 == b as bv32 ==> a == b
  {
  }

  /** A message is its bits. */
  lemma {:induction false} BitsInjective(x: seq<bv8>, y: seq<bv8>)
    requires |x| == |y| && MessageBits(x) == MessageBits(y)
    ensures x == y
    decreases |x|
  {
    hide WordBits;
    if x != [] {
      assert MessageBits(x)[..8] == WordBits(x[0] as bv32, 8) && MessageBits(x)[8..] == MessageBits(x[1..]);
      assert MessageBits(y)[..8] == WordBits(y[0] as bv32, 8) && MessageBits(y)[8..] == MessageBits(y[1..]);
      ByteBitsInjective(x[0], y[0]);
      BitsInjective(x[1..], y[1..]);
      assert x == [x[0]] + x[1..] && y == [y[0]] + y[1..];
    }
  }

  /** The two differ only in the 32 bits from `i` on. */
  predicate DifferWithin(x: seq<bool>, y: seq<bool>, i: nat)
    requires |x| == |y|
  {
    forall k | 0 <= k < |x| :: k < i || i + 32 <= k ==> x[k] == y[k]
  }

  /** A burst of at most 32 bits, wherever it starts, changes the register. */
  lemma BurstShows(c: bv32, x: seq<bool>, y: seq<bool>, i: nat)
    requires |x| == |y| && i <= |x| && DifferWithin(x, y, i) && x != y
    ensures FeedAll(c, x) != FeedAll(c, y)
  {
    hide FeedAll;
    var j := if i + 32 <= |x| then i + 32 else |x|;
    assert x[..i] == y[..i] && x[j..] == y[j..];
    assert x == x[..i] + x[i..j] + x[j..] && y == y[..i] + y[i..j] + y[j..];
    var d := FeedAll(c, x[..i]);
    Split(c, x, i, j);
    Split(c, y, i, j);
    if FeedAll(c, x) == FeedAll(c, y) {
      FeedInjective(FeedAll(d, x[i..j]), FeedAll(d, y[i..j]), x[j..]);
      WindowInjective(d, x[i..j], y[i..j]);
    }
  }

  lemma Split(c: bv32, x: seq<bool>, i: nat, j: nat)
    requires i <= j <= |x|
    ensures FeedAll(c, x) == FeedAll(FeedAll(FeedAll(c, x[..i]), x[i..j]), x[j..])
  {
    hide FeedAll;
    assert x == x[..i] + x[i..] && x[i..] == x[i..j] + x[j..];
    FeedAppend(c, x[..i], x[i..]);
    FeedAppend(FeedAll(c, x[..i]), x[i..j], x[j..]);
  }

  /**
    * Two messages of the same length that differ, and only within 32 consecutive bits, have
    * different CRCs, from any start value.
    */
  lemma DetectsBurst(crc: bv32, x: seq<bv8>, y: seq<bv8>, i: nat)
    requires |x| == |y| && x != y && i <= 8 * |x| && DifferWithin(MessageBits(x), MessageBits(y), i)
    ensures Crc(crc, x) != Crc(crc, y)
  {
    hide Xor, BitSerial, FeedAll, MessageBits, DifferWithin;
    var c := Xor(crc, 0xffff_ffff);
    BitSerialIsBits(c, x);
    BitSerialIsBits(c, y);
    if MessageBits(x) == MessageBits(y) {
      BitsInjective(x, y);
    }
    BurstShows(c, MessageBits(x), MessageBits(y), i);
    if Crc(crc, x) == Crc(crc, y) {
      XorLeft(BitSerial(c, x), BitSerial(c, y), 0xffff_ffff);
    }
  }
}
