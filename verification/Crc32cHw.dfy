/**
  * The three-lane CRC-32C: operators that append zero bytes are 32 by 32 bit matrices,
  * squared to double the number of zeros and spread into tables, and three lanes
  * computed apart are merged with them.
  */
module Crc32cHw {
  import opened Crc32c
  import opened Crc32cSw

  // ----- Bits -----

  function Double(v: bv32): bv32 {
    v << 1
  }

  /** `v` shifted up by `i` bits. */
  function Up(v: bv32, i: nat): bv32
    decreases i
  {
    if i == 0 then v else Up(Double(v), i - 1)
  }

  function Unit(i: nat): bv32 {
    Up(1, i)
  }

  function LowBit(v: bv32): bv32 {
    v & 1
  }

  lemma DoubleXor(a: bv32, b: bv32)
    ensures Double(Xor(a, b)) == Xor(Double(a), Double(b))
  {
  }

  lemma {:induction false} UpXor(a: bv32, b: bv32, i: nat)
    ensures Up(Xor(a, b), i) == Xor(Up(a, i), Up(b, i))
    decreases i
  {
    hide Xor, Double;
    if i > 0 {
      DoubleXor(a, b);
      UpXor(Double(a), Double(b), i - 1);
    }
  }

  lemma {:induction false} UpDouble(v: bv32, i: nat)
    ensures Up(Double(v), i) == Double(Up(v, i))
    decreases i
  {
    hide Double;
    if i > 0 {
      UpDouble(Double(v), i - 1);
    }
  }

  lemma {:induction false} UpZero(i: nat)
    ensures Up(0, i) == 0
  {
    if i > 0 {
      assert Double(0) == 0;
      UpZero(i - 1);
    }
  }

  lemma SplitLowBit(v: bv32)
    ensures v == Xor(LowBit(v), Double(Half(v)))
    ensures LowBit(v) == 0 || LowBit(v) == 1
  {
  }

  lemma {:induction false} FitsIsHalved(w: bv32, n: nat)
    ensures FitsBits(w, n) <==> Halved(w, n) == 0
    decreases n
  {
    if n > 0 {
      FitsIsHalved(w >> 1, n - 1);
    }
  }

  lemma ThreeBytes(c: bv32)
    ensures Halved(c, 24) == High(High(High(c)))
  {
    hide Halved, High;
    HalvedByte(c);
    HalvedByte(High(c));
    HalvedByte(High(High(c)));
    HalvedAdd(c, 8, 8);
    HalvedAdd(c, 16, 8);
  }

  /** A register of 32 bits has no bit beyond them. */
  lemma AllFit(v: bv32)
    ensures FitsBits(v, 32)
  {
    hide Halved, FitsBits;
    ThreeBytes(v);
    HalvedByte(High(High(High(v))));
    HalvedAdd(v, 24, 8);
    FitsIsHalved(v, 32);
    NothingAbove(v);
  }

  lemma NothingAbove(v: bv32)
    ensures High(High(High(High(v)))) == 0
  {
  }

  predicate TopClear(v: bv32) {
    v & 0x8000_0000 == 0
  }

  lemma HalvedSeven(c: bv32)
    ensures Halved(c, 7) == c >> 7
  {
    var c1, c2, c3 := c >> 1, c >> 2, c >> 3;
    var c4, c5, c6, c7 := c >> 4, c >> 5, c >> 6, c >> 7;
    assert Half(c) == c1 && Half(c1) == c2 && Half(c2) == c3 && Half(c3) == c4;
    assert Half(c4) == c5 && Half(c5) == c6 && Half(c6) == c7;
    HalvedChain(c, c1, c2, c3, c4);
    assert Halved(c6, 1) == c7;
    assert Halved(c5, 2) == c7;
    assert Halved(c4, 3) == c7;
    HalvedAdd(c, 4, 3);
  }

  lemma {:induction false} FitsMore(w: bv32, n: nat, m: nat)
    requires FitsBits(w, n) && n <= m
    ensures FitsBits(w, m)
    decreases m
  {
    if n > 0 {
      FitsMore(w >> 1, n - 1, m - 1);
    } else if m > 0 {
      assert w >> 1 == 0;
      FitsMore(w >> 1, 0, m - 1);
    }
  }

  lemma FitsTopClear(w: bv32, n: nat)
    requires FitsBits(w, n) && n <= 31
    ensures TopClear(w)
  {
    hide Halved, FitsBits;
    FitsMore(w, n, 31);
    FitsIsHalved(w, 31);
    ThreeBytes(w);
    HalvedSeven(High(High(High(w))));
    HalvedAdd(w, 24, 7);
    TopBit(w);
  }

  lemma TopBit(w: bv32)
    ensures High(High(High(w))) >> 7 == 0 ==> TopClear(w)
  {
  }

  lemma DoubleHalf(v: bv32)
    requires TopClear(v)
    ensures Half(Double(v)) == v && LowBit(Double(v)) == 0
  {
  }

  lemma {:induction false} UnitFits(i: nat)
    requires i <= 31
    ensures FitsBits(Unit(i), i + 1)
    ensures i < 31 ==> TopClear(Unit(i))
    ensures i < 31 ==> Unit(i + 1) == Double(Unit(i))
  {
    hide TopClear, Double, Half;
    UpDouble(1, i);
    if i == 0 {
      assert (1 as bv32) >> 1 == 0;
      assert FitsBits(1, 1);
    } else {
      UnitFits(i - 1);
      DoubleHalf(Unit(i - 1));
      FitsDouble(Unit(i - 1), i);
    }
    if i < 31 {
      FitsTopClear(Unit(i), i + 1);
    }
  }

  lemma FitsDouble(v: bv32, n: nat)
    requires FitsBits(v, n) && Half(Double(v)) == v
    ensures FitsBits(Double(v), n + 1)
  {
  }

  // ----- Matrices over GF(2) -----

  function Row(mat: seq<bv32>, v: bv32, i: nat): bv32
    requires i < |mat|
  {
    if LowBit(v) == 1 then mat[i] else 0
  }

  /** The rows of `mat` from `i` on that the bits of `v` select, summed. */
  function Times(mat: seq<bv32>, v: bv32, i: nat): bv32
    requires i <= |mat|
    decreases |mat| - i
  {
    if i == |mat| then 0 else Xor(Row(mat, v, i), Times(mat, Half(v), i + 1))
  }

  /** `mat` applies `k` zero-bit steps: each row is what `k` steps make of one bit. */
  predicate IsOperator(mat: seq<bv32>, k: nat) {
    |mat| == 32 && forall n | 0 <= n < 32 :: mat[n] == Steps(Unit(n), k)
  }

  lemma {:induction false} TimesZero(mat: seq<bv32>, i: nat)
    requires i <= |mat|
    ensures Times(mat, 0, i) == 0
    decreases |mat| - i
  {
    if i < |mat| {
      assert Half(0) == 0 && LowBit(0) == 0 && Xor(0, 0) == 0;
      TimesZero(mat, i + 1);
    }
  }

  lemma UpSplit(v: bv32, i: nat)
    ensures Up(v, i) == Xor(Up(LowBit(v), i), Up(Half(v), i + 1))
  {
    hide Xor, Double, Half, LowBit;
    SplitLowBit(v);
    UpXor(LowBit(v), Double(Half(v)), i);
  }

  lemma RowSteps(mat: seq<bv32>, k: nat, v: bv32, i: nat)
    requires IsOperator(mat, k) && i < 32
    ensures Row(mat, v, i) == Steps(Up(LowBit(v), i), k)
  {
    hide Steps, Up, LowBit;
    SplitLowBit(v);
    UpZero(i);
    StepsZero(k);
  }

  /** An operator's product with a vector is those steps of the vector. */
  lemma {:induction false} TimesSteps(mat: seq<bv32>, k: nat, v: bv32, i: nat)
    requires IsOperator(mat, k) && i <= 32 && FitsBits(v, 32 - i)
    ensures Times(mat, v, i) == Steps(Up(v, i), k)
    decreases 32 - i
  {
    if i == 32 {
      UpZero(32);
      StepsZero(k);
    } else {
      hide Xor, Steps, Up, LowBit, Half, Row;
      FitsHalf(v, 32 - i);
      TimesSteps(mat, k, Half(v), i + 1);
      RowSteps(mat, k, v, i);
      UpSplit(v, i);
      StepsXor(Up(LowBit(v), i), Up(Half(v), i + 1), k);
    }
  }

  lemma FitsHalf(v: bv32, n: nat)
    requires FitsBits(v, n) && n > 0
    ensures FitsBits(Half(v), n - 1)
  {
  }

  lemma OperatorSteps(mat: seq<bv32>, k: nat, v: bv32)
    requires IsOperator(mat, k)
    ensures Times(mat, v, 0) == Steps(v, k)
  {
    hide Times, Steps;
    AllFit(v);
    TimesSteps(mat, k, v, 0);
  }

  /** Multiplies a matrix and a vector. */
  method MatrixTimes(mat: array<bv32>, vec: bv32) returns (sum: bv32)
    requires mat.Length == 32
    ensures sum == Times(mat[..], vec, 0)
  {
    hide Xor, Half;
    sum := 0;
    var v, i := vec, 0;
    AllFit(vec);
    XorZero(Times(mat[..], vec, 0));
    while v != 0
      invariant 0 <= i <= 32 && FitsBits(v, 32 - i)
      invariant Xor(sum, Times(mat[..], v, i)) == Times(mat[..], vec, 0)
      decreases 32 - i
    {
      FitsHalf(v, 32 - i);
      XorAssociates(sum, Row(mat[..], v, i), Times(mat[..], Half(v), i + 1));
      XorZero(sum);
      if LowBit(v) == 1 {
        sum := Xor(sum, mat[i]);
      }
      v := Half(v);
      i := i + 1;
    }
    TimesZero(mat[..], i);
    XorZero(sum);
  }

  /** Squaring an operator doubles its steps. */
  method MatrixSquare(square: array<bv32>, mat: array<bv32>, ghost k: nat)
    requires mat.Length == 32 && square.Length == 32 && square != mat
    requires IsOperator(mat[..], k)
    modifies square
    ensures IsOperator(square[..], 2 * k)
  {
    hide Steps, Times;
    for n := 0 to 32
      invariant forall m | 0 <= m < n :: square[m] == Steps(Unit(m), 2 * k)
    {
      OperatorSteps(mat[..], k, mat[n]);
      StepsAdd(Unit(n), k, k);
      square[n] := MatrixTimes(mat, mat[n]);
    }
  }

  // ----- Operators that append zeros -----

  /** The largest power of two not above `len`, or 1 for 0. */
  function FloorPower(len: nat): (p: nat)
    ensures 1 <= p && (1 <= len ==> p <= len < 2 * p)
  {
    if len <= 1 then 1 else 2 * FloorPower(len / 2)
  }

  /** One zero bit sends bit 0 to the polynomial and every other bit one down. */
  lemma OneBit(n: nat)
    requires n < 32
    ensures Steps(Unit(n), 1) == if n == 0 then POLY else Unit(n - 1)
  {
    assert Steps(Unit(n), 1) == Step(Unit(n));
    if n == 0 {
      assert Unit(0) == 1;
    } else {
      UnitFits(n - 1);
      DoubleHalf(Unit(n - 1));
      EvenStep(Unit(n));
    }
  }

  method OneBitOperator(odd: array<bv32>)
    requires odd.Length == 32
    modifies odd
    ensures IsOperator(odd[..], 1)
  {
    hide Steps, Double;
    odd[0] := POLY;
    OneBit(0);
    var row: bv32 := 1;
    assert row == Unit(0);
    for n := 1 to 32
      invariant row == Unit(n - 1)
      invariant forall m | 0 <= m < n :: odd[m] == Steps(Unit(m), 1)
    {
      OneBit(n);
      odd[n] := row;
      UnitFits(n - 1);
      row := Double(row);
    }
  }

  /** The operator for `len` zero bytes, rounded down to a power of two; `even` receives it. */
  method ZerosOperator(even: array<bv32>, length: nat)
    requires even.Length == 32
    modifies even
    ensures IsOperator(even[..], 8 * FloorPower(length))
  {
    hide IsOperator, FloorPower, Target;
    var odd := new bv32[32];
    OneBitOperator(odd);
    MatrixSquare(even, odd, 1);
    MatrixSquare(odd, even, 2);
    var len := length;
    ghost var p: nat := 4;
    assert Target(4, len) == 8 * FloorPower(length) by { StartTarget(len); }
    while true
      invariant IsOperator(odd[..], p) && Target(p, len) == 8 * FloorPower(length)
      invariant fresh(odd) && odd.Length == 32
      decreases len
    {
      MatrixSquare(even, odd, p);
      HalvingLength(p, len);
      len := len / 2;
      if len == 0 {
        return;
      }
      MatrixSquare(odd, even, 2 * p);
      HalvingLength(2 * p, len);
      p := 2 * (2 * p);
      len := len / 2;
      if len == 0 {
        break;
      }
    }
    ghost var answer := odd[..];
    forall n | 0 <= n < 32 {
      even[n] := odd[n];
    }
    assert even[..] == answer;
  }

  /** The steps that remain to be reached from an operator for `p` steps. */
  function Target(p: nat, len: nat): nat {
    2 * p * FloorPower(len)
  }

  lemma HalvingLength(p: nat, len: nat)
    ensures len / 2 == 0 ==> Target(p, len) == 2 * p
    ensures len / 2 != 0 ==> Target(p, len) == Target(2 * p, len / 2)
  {
    if len > 1 {
      Regroup(p, FloorPower(len / 2));
    }
  }

  lemma StartTarget(len: nat)
    ensures Target(4, len) == 8 * FloorPower(len)
  {
  }

  lemma Regroup(p: nat, f: nat)
    ensures 2 * p * (2 * f) == 2 * (2 * p) * f
  {
  }

  // ----- Shift tables -----

  function PlacedWord(w: bv32, j: nat): bv32
    requires j < 4
  {
    match j
    case 0 => w
    case 1 => w << 8
    case 2 => w << 16
    case _ => w << 24
  }

  /** The byte `n` in the `j`th byte of the register. */
  function Placed(n: nat, j: nat): bv32
    requires n < 256 && j < 4
  {
    PlacedWord(n as bv32, j)
  }

  /** Table `j` maps byte `n`, in the `j`th byte of the register, to `k` steps of it. */
  ghost predicate ShiftsBy(zeros: array2<bv32>, k: nat)
    reads zeros
  {
    && zeros.Length0 == 4 && zeros.Length1 == 256
    && forall j, n | 0 <= j < 4 && 0 <= n < 256 :: zeros[j, n] == Steps(Placed(n, j), k)
  }

  method Zeros(zeros: array2<bv32>, len: nat)
    requires zeros.Length0 == 4 && zeros.Length1 == 256
    modifies zeros
    ensures ShiftsBy(zeros, 8 * FloorPower(len))
  {
    hide Steps, Times, Placed, IsOperator, FloorPower;
    var op := new bv32[32];
    ZerosOperator(op, len);
    ghost var k := 8 * FloorPower(len);
    for n := 0 to 256
      invariant forall j, m | 0 <= j < 4 && 0 <= m < n :: zeros[j, m] == Steps(Placed(m, j), k)
      invariant IsOperator(op[..], k)
    {
      zeros[0, n] := Apply(op, Placed(n, 0), k);
      zeros[1, n] := Apply(op, Placed(n, 1), k);
      zeros[2, n] := Apply(op, Placed(n, 2), k);
      zeros[3, n] := Apply(op, Placed(n, 3), k);
    }
  }

  method Apply(op: array<bv32>, v: bv32, ghost k: nat) returns (r: bv32)
    requires op.Length == 32 && IsOperator(op[..], k)
    ensures r == Steps(v, k)
  {
    hide Steps, Times;
    OperatorSteps(op[..], k, v);
    r := MatrixTimes(op, v);
  }

  function Byte(c: bv32, j: nat): bv32
    requires j < 4
  {
    match j
    case 0 => Low(c)
    case 1 => Low(High(c))
    case 2 => Low(High(High(c)))
    case _ => High(High(High(c)))
  }

  lemma ByteRange(c: bv32, j: nat)
    requires j < 4
    ensures Byte(c, j) <= 0xff
  {
  }

  lemma ByteIndex(c: bv32, j: nat)
    requires j < 4
    ensures 0 <= Byte(c, j) as int < 256 && Placed(Byte(c, j) as int, j) == PlacedWord(Byte(c, j), j)
  {
    hide Byte, PlacedWord;
    ByteRange(c, j);
    IndexOf(Byte(c, j));
  }

  lemma BytesOf(c: bv32)
    ensures c == Xor(Xor(Xor(PlacedWord(Byte(c, 0), 0), PlacedWord(Byte(c, 1), 1)), PlacedWord(Byte(c, 2), 2)),
                     PlacedWord(Byte(c, 3), 3))
  {
  }

  lemma ShiftLookUp(zeros: array2<bv32>, c: bv32, k: nat, j: nat)
    requires ShiftsBy(zeros, k) && j < 4
    ensures 0 <= Byte(c, j) as int < 256 && zeros[j, Byte(c, j) as int] == Steps(PlacedWord(Byte(c, j), j), k)
  {
    hide Byte, PlacedWord, Placed, Steps;
    ByteIndex(c, j);
  }

  /** Applies the operator to a register, a byte at a time. */
  method Shift(zeros: array2<bv32>, crc: bv32, ghost k: nat) returns (r: bv32)
    requires ShiftsBy(zeros, k)
    ensures r == Steps(crc, k)
  {
    hide Byte, PlacedWord, Steps, Xor;
    ShiftLookUp(zeros, crc, k, 0);
    ShiftLookUp(zeros, crc, k, 1);
    ShiftLookUp(zeros, crc, k, 2);
    ShiftLookUp(zeros, crc, k, 3);
    ghost var p0, p1 := PlacedWord(Byte(crc, 0), 0), PlacedWord(Byte(crc, 1), 1);
    ghost var p2, p3 := PlacedWord(Byte(crc, 2), 2), PlacedWord(Byte(crc, 3), 3);
    BytesOf(crc);
    StepsXor(p0, p1, k);
    StepsXor(Xor(p0, p1), p2, k);
    StepsXor(Xor(Xor(p0, p1), p2), p3, k);
    r := Xor(Xor(Xor(zeros[0, Byte(crc, 0) as int], zeros[1, Byte(crc, 1) as int]),
                 zeros[2, Byte(crc, 2) as int]), zeros[3, Byte(crc, 3) as int]);
  }

  // ----- Three lanes -----

  const LONG := 8192
  const SHORT := 256

  /** The hardware step on one byte, and on eight. */
  function Crc32b(c: bv32, b: bv8): bv32 {
    ByteStep(c, b)
  }

  function Crc32q(c: bv32, s: seq<bv8>): bv32
    requires |s| == 8
  {
    Serial(c, s)
  }

  /** Three registers that ran apart, the last two from zero, merge into the serial register. */
  lemma Merge(c: bv32, x: seq<bv8>, y: seq<bv8>, z: seq<bv8>)
    ensures Serial(c, x + y + z) ==
            Xor(Steps(Xor(Steps(Serial(c, x), 8 * |y|), Serial(0, y)), 8 * |z|), Serial(0, z))
  {
    hide Serial, Steps, Xor;
    SerialConcat(c, x + y, z);
    SerialConcat(c, x, y);
    SerialSplits(Serial(c, x), y);
    SerialSplits(Serial(c, x + y), z);
  }

  /** Three blocks of `block` bytes from `next`, one in each lane, merged with the shift tables. */
  method ThreeLanes(crc: bv32, buf: seq<bv8>, next: nat, block: nat, zeros: array2<bv32>) returns (r: bv32)
    requires 0 < block && block % 8 == 0 && next + 3 * block <= |buf|
    requires ShiftsBy(zeros, 8 * block)
    ensures r == Serial(crc, buf[next..next + 3 * block])
  {
    hide Serial, Steps, Xor, ShiftsBy;
    var crc0, crc1, crc2 := crc, 0, 0;
    var i := 0;
    ghost var x, y := buf[next..next + block], buf[next + block..next + 2 * block];
    ghost var z := buf[next + 2 * block..next + 3 * block];
    SerialNothing(crc, x);
    SerialNothing(0, y);
    SerialNothing(0, z);
    while true
      invariant 0 <= i < block && i % 8 == 0
      invariant crc0 == Serial(crc, x[..i]) && crc1 == Serial(0, y[..i]) && crc2 == Serial(0, z[..i])
      decreases block - i
    {
      SerialNextEight(crc, x, i);
      SerialNextEight(0, y, i);
      SerialNextEight(0, z, i);
      LaneSlices(buf, next, block, i);
      crc0 := Crc32q(crc0, buf[next + i..next + i + 8]);
      crc1 := Crc32q(crc1, buf[next + block + i..next + block + i + 8]);
      crc2 := Crc32q(crc2, buf[next + 2 * block + i..next + 2 * block + i + 8]);
      i := i + 8;
      if i >= block {
        break;
      }
    }
    assert x[..i] == x && y[..i] == y && z[..i] == z;
    Merge(crc, x, y, z);
    assert x + y + z == buf[next..next + 3 * block];
    var shifted := Shift(zeros, crc0, 8 * block);
    crc0 := Xor(shifted, crc1);
    shifted := Shift(zeros, crc0, 8 * block);
    r := Xor(shifted, crc2);
  }

  lemma Slice(buf: seq<bv8>, start: nat, block: nat, i: nat)
    requires start + block <= |buf| && i + 8 <= block
    ensures buf[start..start + block][i..i + 8] == buf[start + i..start + i + 8]
  {
    var a, b := buf[start..start + block][i..i + 8], buf[start + i..start + i + 8];
    assert |a| == |b| == 8;
    forall k | 0 <= k < 8 ensures a[k] == b[k] {
      assert a[k] == buf[start..start + block][i + k] == buf[start + (i + k)];
    }
  }

  lemma LaneSlices(buf: seq<bv8>, next: nat, block: nat, i: nat)
    requires next + 3 * block <= |buf| && i + 8 <= block
    ensures buf[next..next + block][i..i + 8] == buf[next + i..next + i + 8]
    ensures buf[next + block..next + 2 * block][i..i + 8] == buf[next + block + i..next + block + i + 8]
    ensures buf[next + 2 * block..next + 3 * block][i..i + 8] == buf[next + 2 * block + i..next + 2 * block + i + 8]
  {
    Slice(buf, next, block, i);
    Slice(buf, next + block, block, i);
    Slice(buf, next + 2 * block, block, i);
  }

  lemma BlockPowers()
    ensures FloorPower(LONG) == LONG && FloorPower(SHORT) == SHORT
  {
    assert FloorPower(2) == 2 && FloorPower(4) == 4 && FloorPower(8) == 8 && FloorPower(16) == 16;
    assert FloorPower(32) == 32 && FloorPower(64) == 64 && FloorPower(128) == 128 && FloorPower(256) == 256;
    assert FloorPower(512) == 512 && FloorPower(1024) == 1024 && FloorPower(2048) == 2048;
    assert FloorPower(4096) == 4096;
  }

  class HardwareCrc {
    const longs: array2<bv32>
    const shorts: array2<bv32>

    ghost predicate Ready()
      reads longs, shorts
    {
      ShiftsBy(longs, 8 * LONG) && ShiftsBy(shorts, 8 * SHORT)
    }

    constructor ()
      ensures longs.Length0 == 4 && longs.Length1 == 256 && shorts.Length0 == 4 && shorts.Length1 == 256
      ensures longs != shorts && fresh(longs) && fresh(shorts)
    {
      longs := new bv32[4, 256];
      shorts := new bv32[4, 256];
    }

    method InitHw()
      requires longs.Length0 == 4 && longs.Length1 == 256 && shorts.Length0 == 4 && shorts.Length1 == 256
      requires longs != shorts
      modifies longs, shorts
      ensures Ready()
    {
      hide Steps, Placed, FloorPower;
      BlockPowers();
      Zeros(longs, LONG);
      Zeros(shorts, SHORT);
    }

    /** Blocks of three lanes for as long as they last. */
    method Blocks(start: bv32, crc: bv32, buf: seq<bv8>, first: nat, block: nat, zeros: array2<bv32>)
        returns (crc0: bv32, next: nat)
      requires 0 < block && block % 8 == 0 && ShiftsBy(zeros, 8 * block)
      requires first <= |buf| && crc == Serial(start, buf[..first])
      ensures first <= next <= |buf| && crc0 == Serial(start, buf[..next])
    {
      hide Serial, ShiftsBy;
      crc0, next := crc, first;
      while |buf| - next >= 3 * block
        invariant first <= next <= |buf| && crc0 == Serial(start, buf[..next])
      {
        SerialConcat(start, buf[..next], buf[next..next + 3 * block]);
        assert buf[..next + 3 * block] == buf[..next] + buf[next..next + 3 * block];
        crc0 := ThreeLanes(crc0, buf, next, block, zeros);
        next := next + 3 * block;
      }
    }

    /** For every buffer, address and starting value, the three-lane CRC is the bit-serial CRC. */
    method Crc32cHw(crc: bv32, buf: seq<bv8>, address: nat) returns (result: bv32)
      requires Ready()
      ensures result == Crc(crc, buf)
    {
      hide Serial, BitSerial, ByteStep, Xor, ShiftsBy;
      var start := Xor(crc, 0xffff_ffff);
      var crc0, next := start, 0;
      SerialNothing(start, buf);
      while next < |buf| && (address + next) % 8 != 0
        invariant 0 <= next <= |buf| && crc0 == Serial(start, buf[..next])
      {
        SerialNext(start, buf, next);
        crc0 := Crc32b(crc0, buf[next]);
        next := next + 1;
      }
      crc0, next := Blocks(start, crc0, buf, next, LONG, longs);
      crc0, next := Blocks(start, crc0, buf, next, SHORT, shorts);
      var len := |buf| - next;
      var end := next + (len - len % 8);
      while next < end
        invariant next <= end <= |buf| && (end - next) % 8 == 0 && crc0 == Serial(start, buf[..next])
      {
        SerialNextEight(start, buf, next);
        crc0 := Crc32q(crc0, buf[next..next + 8]);
        next := next + 8;
      }
      while next < |buf|
        invariant 0 <= next <= |buf| && crc0 == Serial(start, buf[..next])
      {
        SerialNext(start, buf, next);
        crc0 := Crc32b(crc0, buf[next]);
        next := next + 1;
      }
      assert buf[..next] == buf;
      SerialIsBitSerial(start, buf);
      result := Xor(crc0, 0xffff_ffff);
    }
  }
}
