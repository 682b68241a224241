/** The table-driven CRC-32C, eight bytes at a time, against the bit-serial definition. */
module Crc32cSw {
  import opened Crc32c

  // ----- What the tables hold -----

  /** The entry for byte `n` in table `k`: the byte followed by `k + 1` zero bytes' worth of steps. */
  function Entry(k: nat, n: nat): bv32
    requires n < 256
  {
    Steps(n as bv32, 8 * (k + 1))
  }

  lemma IndexOf(w: bv32)
    requires w <= 0xff
    ensures 0 <= w as int < 256 && (w as int) as bv32 == w
  {
  }

  function Low(c: bv32): bv32 {
    c & 0xff
  }

  function High(c: bv32): bv32 {
    c >> 8
  }

  lemma LowIsByte(c: bv32)
    ensures Low(c) <= 0xff
  {
  }

  predicate Even(c: bv32) {
    c & 1 == 0
  }

  function Halved(c: bv32, n: nat): bv32
    decreases n
  {
    if n == 0 then c else Halved(Half(c), n - 1)
  }

  /** The lowest `n` bits are zero. */
  predicate EvenFor(c: bv32, n: nat)
    decreases n
  {
    n == 0 || (Even(c) && EvenFor(Half(c), n - 1))
  }

  lemma EvenStep(c: bv32)
    requires Even(c)
    ensures Step(c) == Half(c)
  {
  }

  /** With no bit to feed back, steps only shift. */
  lemma {:induction false} EvenSteps(c: bv32, n: nat)
    requires EvenFor(c, n)
    ensures Steps(c, n) == Halved(c, n)
    decreases n
  {
    hide Even, Half, Step;
    if n > 0 {
      EvenStep(c);
      EvenSteps(Half(c), n - 1);
    }
  }

  lemma {:induction false} HalvedAdd(c: bv32, m: nat, n: nat)
    ensures Halved(c, m + n) == Halved(Halved(c, m), n)
    decreases m
  {
    hide Half;
    if m > 0 {
      HalvedAdd(Half(c), m - 1, n);
    }
  }

  lemma HalvedByte(c: bv32)
    ensures Halved(c, 8) == High(c)
  {
    var c1, c2, c3 := c >> 1, c >> 2, c >> 3;
    var c4, c5, c6, c7 := c >> 4, c >> 5, c >> 6, c >> 7;
    assert Half(c) == c1 && Half(c1) == c2 && Half(c2) == c3 && Half(c3) == c4;
    assert Half(c4) == c5 && Half(c5) == c6 && Half(c6) == c7 && Half(c7) == c >> 8;
    HalvedChain(c, c1, c2, c3, c4);
    HalvedChain(c4, c5, c6, c7, c >> 8);
    HalvedAdd(c, 4, 4);
  }

  lemma HalvedChain(c: bv32, c1: bv32, c2: bv32, c3: bv32, c4: bv32)
    requires Half(c) == c1 && Half(c1) == c2 && Half(c2) == c3 && Half(c3) == c4
    ensures Halved(c, 4) == c4
  {
    hide Half;
    assert Halved(c3, 1) == c4;
    assert Halved(c2, 2) == c4;
  }

  lemma EvenForByte(c: bv32)
    requires c & 0xff == 0
    ensures EvenFor(c, 8) && Halved(c, 8) == High(c)
  {
    var c1, c2, c3 := c >> 1, c >> 2, c >> 3;
    var c4, c5, c6, c7 := c >> 4, c >> 5, c >> 6, c >> 7;
    assert Half(c) == c1 && Half(c1) == c2 && Half(c2) == c3 && Half(c3) == c4;
    assert Half(c4) == c5 && Half(c5) == c6 && Half(c6) == c7;
    assert Even(c) && Even(c1) && Even(c2) && Even(c3);
    assert Even(c4) && Even(c5) && Even(c6) && Even(c7);
    EvenForChain(c4, c5, c6, c7, 0);
    EvenForChain(c, c1, c2, c3, 4);
    HalvedByte(c);
  }

  lemma EvenForChain(c: bv32, c1: bv32, c2: bv32, c3: bv32, n: nat)
    requires Half(c) == c1 && Half(c1) == c2 && Half(c2) == c3 && EvenFor(Half(c3), n)
    requires Even(c) && Even(c1) && Even(c2) && Even(c3)
    ensures EvenFor(c, n + 4)
  {
    hide Half, Even;
    assert EvenFor(c3, n + 1);
    assert EvenFor(c2, n + 2);
  }

  function Rest(c: bv32): bv32 {
    c & 0xffff_ff00
  }

  lemma RestSteps(c: bv32)
    ensures c == Xor(Low(c), Rest(c)) && Steps(Rest(c), 8) == High(c)
  {
    hide Steps, EvenFor, Halved;
    RestFacts(c);
    EvenForByte(Rest(c));
    EvenSteps(Rest(c), 8);
  }

  lemma RestFacts(c: bv32)
    ensures c == Xor(Low(c), Rest(c)) && Rest(c) & 0xff == 0 && High(Rest(c)) == High(c)
  {
  }

  /** Eight steps at once: look up the low byte, shift the rest down. */
  lemma EightSteps(c: bv32)
    ensures Steps(c, 8) == Xor(Steps(Low(c), 8), High(c))
  {
    hide Xor, Low, High, Rest, Steps;
    RestSteps(c);
    StepsXor(Low(c), Rest(c), 8);
  }

  lemma ByteXor(c: bv32, b: bv8)
    ensures Low(Xor(c, b as bv32)) == Xor(Low(c), b as bv32)
    ensures High(Xor(c, b as bv32)) == High(c)
  {
  }

  /** One byte by table look-up. */
  lemma ByteByTable(c: bv32, b: bv8)
    ensures ByteStep(c, b) == Xor(Steps(Low(Xor(c, b as bv32)), 8), High(c))
  {
    hide Xor, Low, High, Steps;
    EightSteps(Xor(c, b as bv32));
    ByteXor(c, b);
  }

  /** The next table's entry from the previous one's. */
  lemma NextEntry(k: nat, n: nat)
    requires n < 256
    ensures Entry(k + 1, n) == Xor(Steps(Low(Entry(k, n)), 8), High(Entry(k, n)))
  {
    hide Xor, Low, High, Steps;
    StepsAdd(n as bv32, 8 * (k + 1), 8);
    EightSteps(Entry(k, n));
  }

  // ----- Eight bytes at once -----

  lemma SerialXor(x: bv32, y: bv32, t: seq<bv8>)
    ensures Serial(Xor(x, y), t) == Xor(Steps(x, 8 * |t|), Serial(y, t))
  {
    hide Xor, Steps, Serial;
    SerialSplits(Xor(x, y), t);
    SerialSplits(y, t);
    StepsXor(x, y, 8 * |t|);
    XorAssociates(Steps(x, 8 * |t|), Steps(y, 8 * |t|), Serial(0, t));
  }

  /** The first byte contributes its own look-up; the register moves down a byte for the rest. */
  lemma PeelByte(c: bv32, s: seq<bv8>)
    requires s != []
    ensures Serial(c, s) == Xor(Steps(Low(Xor(c, s[0] as bv32)), 8 * |s|), Serial(High(c), s[1..]))
  {
    hide Xor, Low, High, Steps, ByteStep;
    var x, t := Low(Xor(c, s[0] as bv32)), s[1..];
    ByteByTable(c, s[0]);
    assert Serial(c, s) == Serial(ByteStep(c, s[0]), t);
    SerialXor(Steps(x, 8), High(c), t);
    StepsAdd(x, 8, 8 * |t|);
  }

  function HighN(c: bv32, j: nat): bv32 {
    if j == 0 then c else High(HighN(c, j - 1))
  }

  /** The byte of register and message together that the `j`th look-up uses. */
  function Lane(c: bv32, s: seq<bv8>, j: nat): bv32
    requires j < |s|
  {
    Low(Xor(HighN(c, j), s[j] as bv32))
  }

  /** The exclusive-or of the first `j` look-ups. */
  function LookUps(c: bv32, s: seq<bv8>, j: nat): bv32
    requires j <= |s|
  {
    if j == 0 then 0 else Xor(LookUps(c, s, j - 1), Steps(Lane(c, s, j - 1), 8 * (|s| - (j - 1))))
  }

  lemma {:induction false} LookUpsSoFar(c: bv32, s: seq<bv8>, j: nat)
    requires j <= |s|
    ensures Serial(c, s) == Xor(LookUps(c, s, j), Serial(HighN(c, j), s[j..]))
  {
    hide Xor, Steps, Serial, Low, High;
    if j == 0 {
      XorZero(Serial(c, s));
      assert s[0..] == s;
    } else {
      LookUpsSoFar(c, s, j - 1);
      var t := s[j - 1..];
      PeelByte(HighN(c, j - 1), t);
      assert t[1..] == s[j..];
      XorAssociates(LookUps(c, s, j - 1), Steps(Lane(c, s, j - 1), 8 * |t|), Serial(HighN(c, j), s[j..]));
    }
  }

  lemma RegisterBytes(c: bv32)
    ensures HighN(c, 0) == c && HighN(c, 1) == High(c)
    ensures HighN(c, 2) == High(High(c)) && HighN(c, 3) == High(High(High(c)))
    ensures HighN(c, 4) == 0 && HighN(c, 5) == 0 && HighN(c, 6) == 0 && HighN(c, 7) == 0
    ensures HighN(c, 8) == 0
  {
    assert HighN(c, 1) == High(c);
    assert HighN(c, 2) == High(High(c));
    assert HighN(c, 3) == High(High(High(c)));
    assert HighN(c, 4) == High(High(High(High(c)))) == 0;
    assert High(0) == 0;
    assert HighN(c, 5) == 0 && HighN(c, 6) == 0 && HighN(c, 7) == 0;
  }

  /** Eight look-ups are eight bytes of the serial CRC. */
  lemma EightLookUps(c: bv32, s: seq<bv8>)
    requires |s| == 8
    ensures Serial(c, s) == LookUps(c, s, 8)
  {
    hide Xor, HighN, LookUps;
    LookUpsSoFar(c, s, 8);
    RegisterBytes(c);
    assert s[8..] == [];
    XorZero(LookUps(c, s, 8));
  }

  // ----- The eight bytes as one little-endian word -----

  function Word64(s: seq<bv8>): bv64
    requires |s| == 8
  {
    (s[0] as bv64) | (s[1] as bv64 << 8) | (s[2] as bv64 << 16) | (s[3] as bv64 << 24)
    | (s[4] as bv64 << 32) | (s[5] as bv64 << 40) | (s[6] as bv64 << 48) | (s[7] as bv64 << 56)
  }

  function Lane64(w: bv64, j: nat): bv32
    requires j < 8
  {
    match j
    case 0 => (w & 0xff) as bv32
    case 1 => ((w >> 8) & 0xff) as bv32
    case 2 => ((w >> 16) & 0xff) as bv32
    case 3 => ((w >> 24) & 0xff) as bv32
    case 4 => ((w >> 32) & 0xff) as bv32
    case 5 => ((w >> 40) & 0xff) as bv32
    case 6 => ((w >> 48) & 0xff) as bv32
    case _ => (w >> 56) as bv32
  }

  function Loaded(c: bv32, s: seq<bv8>): bv64
    requires |s| == 8
  {
    (c as bv64) ^ Word64(s)
  }

  lemma LowLanes(c: bv32, s: seq<bv8>)
    requires |s| == 8
    ensures Lane64(Loaded(c, s), 0) == Low(Xor(c, s[0] as bv32))
    ensures Lane64(Loaded(c, s), 1) == Low(Xor(High(c), s[1] as bv32))
    ensures Lane64(Loaded(c, s), 2) == Low(Xor(High(High(c)), s[2] as bv32))
    ensures Lane64(Loaded(c, s), 3) == Low(Xor(High(High(High(c))), s[3] as bv32))
  {
  }

  /** What a byte looks up once the register has been shifted out. */
  function Alone(b: bv8): bv32 {
    Low(Xor(0, b as bv32))
  }

  lemma HighLanes(c: bv32, s: seq<bv8>)
    requires |s| == 8
    ensures Lane64(Loaded(c, s), 4) == Alone(s[4])
    ensures Lane64(Loaded(c, s), 5) == Alone(s[5])
    ensures Lane64(Loaded(c, s), 6) == Alone(s[6])
    ensures Lane64(Loaded(c, s), 7) == Alone(s[7])
  {
  }

  lemma LanesAgree(c: bv32, s: seq<bv8>, j: nat)
    requires |s| == 8 && j < 8
    ensures Lane64(Loaded(c, s), j) == Lane(c, s, j)
  {
    hide Lane64, Loaded, Low, High, Xor, HighN;
    RegisterBytes(c);
    if j < 4 {
      LowLanes(c, s);
      assert j == 0 || j == 1 || j == 2 || j == 3;
    } else {
      HighLaneAgrees(c, s, j);
    }
  }

  lemma HighLaneAgrees(c: bv32, s: seq<bv8>, j: nat)
    requires |s| == 8 && 4 <= j < 8
    ensures Lane64(Loaded(c, s), j) == Alone(s[j])
  {
    hide Lane64, Loaded, Alone;
    HighLanes(c, s);
    assert j == 4 || j == 5 || j == 6 || j == 7;
  }

  lemma LaneIsByte(c: bv32, s: seq<bv8>, j: nat)
    requires j < |s|
    ensures Lane(c, s, j) <= 0xff
  {
    LowIsByte(Xor(HighN(c, j), s[j] as bv32));
  }

  class SoftwareCrc {
    const table: array2<bv32>

    ghost predicate Holds(k: nat)
      reads table
    {
      && table.Length0 == 8 && table.Length1 == 256 && k <= 8
      && forall i, n | 0 <= i < k && 0 <= n < 256 :: table[i, n] == Entry(i, n)
    }

    ghost predicate Ready()
      reads table
    {
      Holds(8)
    }

    constructor ()
      ensures table.Length0 == 8 && table.Length1 == 256 && fresh(table)
    {
      table := new bv32[8, 256];
    }

    /** Fills the tables: the first bit by bit, the others from the one before. */
    method InitSw()
      requires table.Length0 == 8 && table.Length1 == 256
      modifies table
      ensures Ready()
    {
      hide Entry;
      for n := 0 to 256
        invariant forall m | 0 <= m < n :: table[0, m] == Entry(0, m)
      {
        table[0, n] := FirstEntry(n);
      }
      for n := 0 to 256
        invariant Holds(1)
        invariant forall i, m | 0 <= i < 8 && 0 <= m < n :: table[i, m] == Entry(i, m)
      {
        FillColumn(n);
      }
    }

    method FirstEntry(n: nat) returns (crc: bv32)
      requires n < 256
      ensures crc == Entry(0, n)
    {
      hide Step;
      crc := n as bv32;
      crc := Step(crc);
      crc := Step(crc);
      assert Steps(crc, 6) == Entry(0, n);
      crc := Step(crc);
      crc := Step(crc);
      assert Steps(crc, 4) == Entry(0, n);
      crc := Step(crc);
      crc := Step(crc);
      assert Steps(crc, 2) == Entry(0, n);
      crc := Step(crc);
      crc := Step(crc);
    }

    method FillColumn(n: nat)
      requires Holds(1) && n < 256
      modifies table
      ensures forall i | 0 <= i < 8 :: table[i, n] == Entry(i, n)
      ensures forall i, m | 0 <= i < 8 && 0 <= m < 256 && (i == 0 || m != n) :: table[i, m] == old(table[i, m])
    {
      hide Entry, Xor, Steps;
      var crc := table[0, n];
      for k := 1 to 8
        invariant crc == Entry(k - 1, n)
        invariant forall i | 0 <= i < k :: table[i, n] == Entry(i, n)
        invariant forall i, m | 0 <= i < 8 && 0 <= m < 256 && (i == 0 || m != n) :: table[i, m] == old(table[i, m])
      {
        NextEntry(k - 1, n);
        LookUpLow(crc);
        crc := Xor(table[0, Low(crc) as int], High(crc));
        table[k, n] := crc;
      }
    }

    lemma LookUpLow(w: bv32)
      requires Holds(1)
      ensures 0 <= Low(w) as int < 256 && table[0, Low(w) as int] == Steps(Low(w), 8)
    {
      LowIsByte(w);
      IndexOf(Low(w));
    }

    method UpdateByte(crc: bv32, b: bv8) returns (r: bv32)
      requires Ready()
      ensures r == ByteStep(crc, b)
    {
      hide Xor, High, Steps, ByteStep;
      LookUpLow(Xor(crc, b as bv32));
      ByteByTable(crc, b);
      r := Xor(table[0, Low(Xor(crc, b as bv32)) as int], High(crc));
    }

    lemma LookUpLane(c: bv32, s: seq<bv8>, j: nat)
      requires Ready() && |s| == 8 && j < 8
      ensures 0 <= Lane64(Loaded(c, s), j) as int < 256
      ensures table[7 - j, Lane64(Loaded(c, s), j) as int] == Steps(Lane(c, s, j), 8 * (8 - j))
    {
      hide Lane64, Loaded, Lane, Steps;
      LanesAgree(c, s, j);
      LaneIsByte(c, s, j);
      IndexOf(Lane(c, s, j));
    }

    /** Eight bytes with one look-up in each table. */
    method UpdateEight(crc: bv32, s: seq<bv8>) returns (r: bv32)
      requires Ready() && |s| == 8
      ensures r == Serial(crc, s)
    {
      hide Xor, Steps, Lane64, Loaded, Lane, Serial;
      var w := Loaded(crc, s);
      EightLookUps(crc, s);
      forall j | 0 <= j < 8
        ensures 0 <= Lane64(w, j) as int < 256
        ensures table[7 - j, Lane64(w, j) as int] == Steps(Lane(crc, s, j), 8 * (8 - j))
      {
        LookUpLane(crc, s, j);
      }
      XorZero(Steps(Lane(crc, s, 0), 64));
      r := table[7, Lane64(w, 0) as int];
      assert r == LookUps(crc, s, 1);
      r := Xor(r, table[6, Lane64(w, 1) as int]);
      r := Xor(r, table[5, Lane64(w, 2) as int]);
      assert r == LookUps(crc, s, 3);
      r := Xor(r, table[4, Lane64(w, 3) as int]);
      r := Xor(r, table[3, Lane64(w, 4) as int]);
      assert r == LookUps(crc, s, 5);
      r := Xor(r, table[2, Lane64(w, 5) as int]);
      r := Xor(r, table[1, Lane64(w, 6) as int]);
      assert r == LookUps(crc, s, 7);
      r := Xor(r, table[0, Lane64(w, 7) as int]);
    }

    /** For every buffer, address and starting value, the table-driven CRC is the bit-serial CRC. */
    method Crc32cSw(crci: bv32, buf: seq<bv8>, address: nat) returns (result: bv32)
      requires Ready()
      ensures result == Crc(crci, buf)
    {
      hide Xor, Serial, BitSerial, ByteStep;
      var start := Xor(crci, 0xffff_ffff);
      var crc := start;
      var next := 0;
      SerialNothing(start, buf);
      while next < |buf| && (address + next) % 8 != 0
        invariant 0 <= next <= |buf| && crc == Serial(start, buf[..next])
      {
        SerialNext(start, buf, next);
        crc := UpdateByte(crc, buf[next]);
        next := next + 1;
      }
      while |buf| - next >= 8
        invariant 0 <= next <= |buf| && crc == Serial(start, buf[..next])
      {
        SerialNextEight(start, buf, next);
        crc := UpdateEight(crc, buf[next..next + 8]);
        next := next + 8;
      }
      while next < |buf|
        invariant 0 <= next <= |buf| && crc == Serial(start, buf[..next])
      {
        SerialNext(start, buf, next);
        crc := UpdateByte(crc, buf[next]);
        next := next + 1;
      }
      assert buf[..next] == buf;
      SerialIsBitSerial(start, buf);
      result := Xor(crc, 0xffff_ffff);
    }
  }

  lemma SerialNothing(c: bv32, buf: seq<bv8>)
    ensures Serial(c, buf[..0]) == c
  {
  }

  lemma SerialNext(c: bv32, buf: seq<bv8>, i: nat)
    requires i < |buf|
    ensures Serial(c, buf[..i + 1]) == ByteStep(Serial(c, buf[..i]), buf[i])
  {
    hide ByteStep;
    assert buf[..i + 1] == buf[..i] + [buf[i]];
    SerialConcat(c, buf[..i], [buf[i]]);
    var d := Serial(c, buf[..i]);
    assert [buf[i]][1..] == [];
    assert Serial(d, [buf[i]]) == Serial(ByteStep(d, buf[i]), []);
  }

  lemma SerialNextEight(c: bv32, buf: seq<bv8>, i: nat)
    requires i + 8 <= |buf|
    ensures Serial(c, buf[..i + 8]) == Serial(Serial(c, buf[..i]), buf[i..i + 8])
  {
    hide Serial;
    assert buf[..i + 8] == buf[..i] + buf[i..i + 8];
    SerialConcat(c, buf[..i], buf[i..i + 8]);
  }
}
