/**
  * The LZ4 block format as a specification.
  *
  * A block is a list of sequences (a run of literals, then a copy of earlier
  * output) closed by a run of literals.  `Encode` lays a block out as bytes,
  * `Plain` says which text it stands for, and `Parse` reads the bytes back.
  */
module Lz4Block {
  import opened Bytes

  const MINMATCH := 4
  const MFLIMIT := 12
  const LASTLITERALS := 5
  const MAX_DISTANCE := 65535
  const RUN_MASK := 15
  const ML_MASK := 15

  datatype Sequence = Sequence(literals: seq<byte>, offset: nat, matchLength: nat)

  datatype Block = Block(sequences: seq<Sequence>, last: seq<byte>)

  // ----- Layout -----

  /** A length beyond the nibble: 255, 255, ..., then one byte below 255. */
  function LengthTail(n: nat): (r: seq<byte>)
    ensures |r| == n / 255 + 1
  {
    if n >= 255 then [255] + LengthTail(n - 255) else [n]
  }

  function Extension(n: nat): seq<byte> {
    if n < RUN_MASK then [] else LengthTail(n - RUN_MASK)
  }

  function Nibble(n: nat): nat {
    if n < RUN_MASK then n else RUN_MASK
  }

  function Token(literals: nat, matchCode: nat): byte {
    Nibble(literals) * 16 + Nibble(matchCode)
  }

  function OffsetBytes(offset: nat): seq<byte>
    requires offset <= MAX_DISTANCE
  {
    [offset % 256, offset / 256]
  }

  predicate Encodable(s: Sequence) {
    1 <= s.offset <= MAX_DISTANCE && MINMATCH <= s.matchLength
  }

  predicate AllEncodable(ss: seq<Sequence>) {
    forall i | 0 <= i < |ss| :: Encodable(ss[i])
  }

  function EncodeSequence(s: Sequence): seq<byte>
    requires Encodable(s)
  {
    [Token(|s.literals|, s.matchLength - MINMATCH)] + Extension(|s.literals|) + s.literals
    + OffsetBytes(s.offset) + Extension(s.matchLength - MINMATCH)
  }

  function EncodeSequences(ss: seq<Sequence>): seq<byte>
    requires AllEncodable(ss)
  {
    if ss == [] then []
    else EncodeSequences(ss[..|ss| - 1]) + EncodeSequence(ss[|ss| - 1])
  }

  /** A run of literals under a token whose match nibble is zero. */
  function EncodeRun(literals: seq<byte>): seq<byte> {
    [Token(|literals|, 0)] + Extension(|literals|) + literals
  }

  function Encode(b: Block): seq<byte>
    requires AllEncodable(b.sequences)
  {
    EncodeSequences(b.sequences) + EncodeRun(b.last)
  }

  // ----- Meaning -----

  /** Appends `n` bytes, each repeating the byte `offset` positions before it. */
  function Repeat(out: seq<byte>, offset: nat, n: nat): (r: seq<byte>)
    ensures |r| == |out| + n && r[..|out|] == out
  {
    if n == 0 then out
    else
      var p := Repeat(out, offset, n - 1);
      p + [if 1 <= offset <= |p| then p[|p| - offset] else 0]
  }

  function Plain(ss: seq<Sequence>): seq<byte> {
    if ss == [] then []
    else
      var s := ss[|ss| - 1];
      Repeat(Plain(ss[..|ss| - 1]) + s.literals, s.offset, s.matchLength)
  }

  function Text(b: Block): seq<byte> {
    Plain(b.sequences) + b.last
  }

  /**
    * Sequence `s`, starting after `done` bytes of output, reaches back no further than
    * the output's beginning, starts its copy by `startLimit` and ends it by `endLimit`.
    */
  predicate Placed(done: nat, s: Sequence, startLimit: int, endLimit: int) {
    && Encodable(s)
    && s.offset <= done + |s.literals| <= startLimit
    && done + |s.literals| + s.matchLength <= endLimit
  }

  predicate AllPlaced(ss: seq<Sequence>, startLimit: int, endLimit: int) {
    forall i | 0 <= i < |ss| :: Placed(|Plain(ss[..i])|, ss[i], startLimit, endLimit)
  }

  /**
    * The end-of-block rules: the last copy starts at least MFLIMIT bytes before the end
    * of the text and the last LASTLITERALS bytes are literals.
    */
  predicate WellFormed(b: Block) {
    AllPlaced(b.sequences, |Text(b)| - MFLIMIT, |Text(b)| - LASTLITERALS)
  }

  /** Sequences that copy only what is there, from at most 65535 bytes back. */
  predicate WithinReach(ss: seq<Sequence>) {
    forall i | 0 <= i < |ss| ::
      1 <= ss[i].offset <= 65535 && 4 <= ss[i].matchLength && ss[i].offset <= |Plain(ss[..i])| + |ss[i].literals|
  }

  /**
    * What the end-of-block rules come to: a block without sequences is free, and any other ends
    * in at least five literals, with the last copy starting at least twelve bytes before the end.
    */
  lemma EndRules(b: Block)
    ensures WellFormed(b) <==>
              && WithinReach(b.sequences)
              && (b.sequences != [] ==>
                    5 <= |b.last| && 12 <= b.sequences[|b.sequences| - 1].matchLength + |b.last|)
  {
    var ss, n := b.sequences, |Text(b)|;
    if ss != [] {
      var k := |ss| - 1;
      assert |Plain(ss)| == |Plain(ss[..k])| + |ss[k].literals| + ss[k].matchLength;
      assert ss[..|ss|] == ss;
      if WellFormed(b) {
        assert Placed(|Plain(ss[..k])|, ss[k], n - MFLIMIT, n - LASTLITERALS);
        forall i | 0 <= i < |ss| ensures ss[i].offset <= |Plain(ss[..i])| + |ss[i].literals| && Encodable(ss[i]) {
          assert Placed(|Plain(ss[..i])|, ss[i], n - MFLIMIT, n - LASTLITERALS);
        }
      } else if WithinReach(ss) && 5 <= |b.last| && 12 <= ss[k].matchLength + |b.last| {
        forall i | 0 <= i < |ss| ensures Placed(|Plain(ss[..i])|, ss[i], n - MFLIMIT, n - LASTLITERALS) {
          PlainGrows(ss, i, k);
        }
      }
    }
  }

  /** Each sequence adds to the text, the last one no less than its copy. */
  lemma {:induction false} PlainGrows(ss: seq<Sequence>, i: nat, k: nat)
    requires i <= k < |ss|
    ensures |Plain(ss[..i])| + |ss[i].literals| + ss[i].matchLength
         <= |Plain(ss[..k])| + (if i == k then |ss[i].literals| + ss[i].matchLength else 0)
    decreases k
  {
    hide Repeat;
    if i < k {
      var s := ss[..k];
      assert s[..k - 1] == ss[..k - 1] && s[k - 1] == ss[k - 1];
      assert |Plain(s)| == |Plain(ss[..k - 1])| + |ss[k - 1].literals| + ss[k - 1].matchLength;
      PlainGrows(ss, i, k - 1);
    }
  }

  lemma PlacedEncodable(ss: seq<Sequence>, startLimit: int, endLimit: int)
    requires AllPlaced(ss, startLimit, endLimit)
    ensures AllEncodable(ss)
  {
    forall i | 0 <= i < |ss| ensures Encodable(ss[i]) {
      assert Placed(|Plain(ss[..i])|, ss[i], startLimit, endLimit);
    }
  }

  /** Widening the limits keeps every sequence placed. */
  lemma PlacedWithin(ss: seq<Sequence>, s0: int, e0: int, s1: int, e1: int)
    requires AllPlaced(ss, s0, e0) && s0 <= s1 && e0 <= e1
    ensures AllPlaced(ss, s1, e1)
  {
    forall i | 0 <= i < |ss| ensures Placed(|Plain(ss[..i])|, ss[i], s1, e1) {
      assert Placed(|Plain(ss[..i])|, ss[i], s0, e0);
    }
  }

  /** Appending one sequence: what it adds to the bytes, the text and the rules. */
  lemma Append(ss: seq<Sequence>, s: Sequence, startLimit: int, endLimit: int)
    requires AllPlaced(ss, startLimit, endLimit)
    requires Placed(|Plain(ss)|, s, startLimit, endLimit)
    ensures AllEncodable(ss) && AllEncodable(ss + [s])
    ensures AllPlaced(ss + [s], startLimit, endLimit)
    ensures Plain(ss + [s]) == Repeat(Plain(ss) + s.literals, s.offset, s.matchLength)
    ensures EncodeSequences(ss + [s]) == EncodeSequences(ss) + EncodeSequence(s)
  {
    var t := ss + [s];
    assert t[..|t| - 1] == ss;
    forall i | 0 <= i < |t| ensures Placed(|Plain(t[..i])|, t[i], startLimit, endLimit) {
      if i < |ss| {
        assert t[..i] == ss[..i];
        assert Placed(|Plain(ss[..i])|, ss[i], startLimit, endLimit);
      } else {
        assert t[..i] == ss;
      }
    }
    PlacedEncodable(ss, startLimit, endLimit);
    PlacedEncodable(t, startLimit, endLimit);
  }

  // ----- Copies -----

  lemma {:induction false} RepeatAt(out: seq<byte>, offset: nat, n: nat, i: nat)
    requires 1 <= offset <= |out| <= i < |out| + n
    ensures Repeat(out, offset, n)[i] == Repeat(out, offset, n)[i - offset]
  {
    if i < |out| + n - 1 {
      RepeatAt(out, offset, n - 1, i);
      var p := Repeat(out, offset, n - 1);
      assert Repeat(out, offset, n)[..|p|] == p;
    }
  }

  /** A copy is the only extension of `out` in which every new byte repeats at distance `offset`. */
  lemma {:induction false} RepeatUnique(out: seq<byte>, offset: nat, n: nat, r: seq<byte>)
    requires 1 <= offset <= |out|
    requires |r| == |out| + n && r[..|out|] == out
    requires forall i | |out| <= i < |r| :: r[i] == r[i - offset]
    ensures r == Repeat(out, offset, n)
  {
    if n == 0 {
      assert r == r[..|out|];
    } else {
      var p := r[..|r| - 1];
      assert p[..|out|] == out;
      RepeatUnique(out, offset, n - 1, p);
      assert r == p + [r[|r| - 1]];
    }
  }

  /** Copying a match that agrees with the text ahead extends the text by the match. */
  lemma RepeatExtends(text: seq<byte>, start: nat, ref: nat, n: nat)
    requires ref < start && start + n <= |text|
    requires text[ref..ref + n] == text[start..start + n]
    ensures Repeat(text[..start], start - ref, n) == text[..start + n]
  {
    var r := text[..start + n];
    assert r[..start] == text[..start];
    forall i | start <= i < |r| ensures r[i] == r[i - (start - ref)] {
      assert text[ref..ref + n][i - start] == text[start..start + n][i - start];
    }
    RepeatUnique(text[..start], start - ref, n, r);
  }

  // ----- Reading a block back -----

  /** The value of a length tail at the front of `s` and the number of bytes it takes. */
  function ReadTail(s: seq<byte>): (r: Option<(nat, nat)>)
    ensures r.Some? ==> 1 <= r.value.1 <= |s|
  {
    if s == [] then None
    else if s[0] < 255 then Some((s[0], 1))
    else
      match ReadTail(s[1..])
      case None => None
      case Some((v, k)) => Some((v + 255, k + 1))
  }

  /** A length whose nibble is `nibble`: no tail unless the nibble is full. */
  function ReadLength(nibble: nat, s: seq<byte>): (r: Option<(nat, nat)>)
    ensures r.Some? ==> r.value.1 <= |s|
  {
    if nibble != RUN_MASK then Some((nibble, 0))
    else
      match ReadTail(s)
      case None => None
      case Some((v, k)) => Some((v + RUN_MASK, k))
  }

  datatype Head = Final(literals: seq<byte>) | Next(sequence: Sequence, size: nat)

  /** The copy that follows a run of literals ending at `p`. */
  function ReadCopy(s: seq<byte>, literals: seq<byte>, p: nat): (r: Option<Head>)
    requires 0 < |s| && p <= |s|
    ensures r.Some? ==> r.value.Next? && p < r.value.size <= |s|
  {
    if p + 2 > |s| then None
    else
      var lo: int, hi: int := s[p], s[p + 1];
      match ReadLength(s[0] % 16, s[p + 2..])
      case None => None
      case Some((code, j)) => Some(Next(Sequence(literals, lo + 256 * hi, code + MINMATCH), p + 2 + j))
  }

  /** The first sequence; a run of literals that meets the end of the input is the last. */
  function ReadHead(s: seq<byte>): (r: Option<Head>)
    ensures r.Some? && r.value.Next? ==> 0 < r.value.size <= |s|
  {
    if s == [] then None
    else
      match ReadLength(s[0] / 16, s[1..])
      case None => None
      case Some((n, k)) =>
        if 1 + k + n > |s| then None
        else if 1 + k + n == |s| then Some(Final(s[1 + k..]))
        else ReadCopy(s, s[1 + k..1 + k + n], 1 + k + n)
  }

  function Parse(s: seq<byte>): Option<Block> {
    match ReadHead(s)
    case None => None
    case Some(Final(literals)) => Some(Block([], literals))
    case Some(Next(x, size)) =>
      match Parse(s[size..])
      case None => None
      case Some(rest) => Some(Block([x] + rest.sequences, rest.last))
  }

  lemma {:induction false} ReadTailInverts(n: nat, rest: seq<byte>)
    ensures ReadTail(LengthTail(n) + rest) == Some((n, |LengthTail(n)|))
  {
    if n >= 255 {
      ReadTailInverts(n - 255, rest);
      assert (LengthTail(n) + rest)[1..] == LengthTail(n - 255) + rest;
    }
  }

  lemma ReadLengthInverts(n: nat, rest: seq<byte>)
    ensures ReadLength(Nibble(n), Extension(n) + rest) == Some((n, |Extension(n)|))
  {
    if n >= RUN_MASK {
      ReadTailInverts(n - RUN_MASK, rest);
    }
  }

  lemma ReadLast(literals: seq<byte>)
    ensures ReadHead(EncodeRun(literals)) == Some(Final(literals))
  {
    var s := EncodeRun(literals);
    assert s[1..] == Extension(|literals|) + literals;
    ReadLengthInverts(|literals|, literals);
    assert s[1 + |Extension(|literals|)|..] == literals;
  }

  lemma ReadCopyInverts(s: seq<byte>, x: Sequence, p: nat, rest: seq<byte>)
    requires Encodable(x) && 0 < |s| && p <= |s|
    requires s[0] % 16 == Nibble(x.matchLength - MINMATCH)
    requires s[p..] == OffsetBytes(x.offset) + (Extension(x.matchLength - MINMATCH) + rest)
    ensures ReadCopy(s, x.literals, p) == Some(Next(x, p + 2 + |Extension(x.matchLength - MINMATCH)|))
  {
    var code := x.matchLength - MINMATCH;
    ReadLengthInverts(code, rest);
    var t := s[p..];
    assert t[0] == x.offset % 256 && t[1] == x.offset / 256;
    assert s[p] == t[0] && s[p + 1] == t[1];
    assert s[p + 2..] == t[2..] == Extension(code) + rest;
  }

  /** Where the parts of a sequence lie once more bytes follow it. */
  lemma SequenceParts(x: Sequence, rest: seq<byte>)
    requires Encodable(x)
    ensures
      var s := EncodeSequence(x) + rest;
      var n, code := |x.literals|, x.matchLength - MINMATCH;
      var p := 1 + |Extension(n)| + n;
      && |EncodeSequence(x)| == p + 2 + |Extension(code)|
      && s[0] == Token(n, code)
      && s[1..] == Extension(n) + (x.literals + (OffsetBytes(x.offset) + (Extension(code) + rest)))
      && s[p - n..p] == x.literals
      && s[p..] == OffsetBytes(x.offset) + (Extension(code) + rest)
  {
    Associate([Token(|x.literals|, x.matchLength - MINMATCH)], Extension(|x.literals|), x.literals,
      OffsetBytes(x.offset), Extension(x.matchLength - MINMATCH), rest);
  }

  lemma Associate(a: seq<byte>, b: seq<byte>, c: seq<byte>, d: seq<byte>, e: seq<byte>, f: seq<byte>)
    requires |a| == 1
    ensures
      var s := a + b + c + d + e + f;
      && s[1..] == b + (c + (d + (e + f)))
      && s[1 + |b|..1 + |b| + |c|] == c
      && s[1 + |b| + |c|..] == d + (e + f)
  {
    var s := a + b + c + d + e + f;
    assert s == a + (b + (c + (d + (e + f))));
    assert s == (a + b) + (c + (d + (e + f)));
    assert s == (a + b + c) + (d + (e + f));
  }

  lemma ReadParts(s: seq<byte>, x: Sequence, p: nat, rest: seq<byte>)
    requires Encodable(x) && s != [] && p <= |s|
    requires p == 1 + |Extension(|x.literals|)| + |x.literals|
    requires s[0] == Token(|x.literals|, x.matchLength - MINMATCH)
    requires s[1..] == Extension(|x.literals|) + (x.literals + s[p..])
    requires s[p - |x.literals|..p] == x.literals
    requires s[p..] == OffsetBytes(x.offset) + (Extension(x.matchLength - MINMATCH) + rest)
    ensures ReadHead(s) == Some(Next(x, p + 2 + |Extension(x.matchLength - MINMATCH)|))
  {
    ReadLengthInverts(|x.literals|, x.literals + s[p..]);
    ReadCopyInverts(s, x, p, rest);
  }

  lemma ReadSequence(x: Sequence, rest: seq<byte>)
    requires Encodable(x)
    ensures ReadHead(EncodeSequence(x) + rest) == Some(Next(x, |EncodeSequence(x)|))
  {
    hide *;
    SequenceParts(x, rest);
    ReadParts(EncodeSequence(x) + rest, x, 1 + |Extension(|x.literals|)| + |x.literals|, rest);
  }

  lemma {:induction false} EncodeSequencesFront(ss: seq<Sequence>)
    requires AllEncodable(ss) && ss != []
    ensures EncodeSequences(ss) == EncodeSequence(ss[0]) + EncodeSequences(ss[1..])
  {
    hide EncodeSequence, EncodeSequences;
    var n := |ss| - 1;
    if n == 0 {
      assert ss == [ss[0]] && ss[1..] == [];
      OneSequence(ss[0]);
      NoSequence();
    } else {
      EncodeSequencesFront(ss[..n]);
      EncodeLast(ss);
      EncodeLast(ss[1..]);
      assert ss[..n][1..] == ss[1..][..n - 1] && ss[1..][n - 1] == ss[n];
      Grouped(EncodeSequence(ss[0]), EncodeSequences(ss[..n][1..]), EncodeSequence(ss[n]));
    }
  }

  lemma NoSequence()
    ensures EncodeSequences([]) == []
  {
  }

  lemma EncodeLast(ss: seq<Sequence>)
    requires ss != [] && AllEncodable(ss)
    ensures EncodeSequences(ss) == EncodeSequences(ss[..|ss| - 1]) + EncodeSequence(ss[|ss| - 1])
  {
    hide EncodeSequence;
  }

  lemma Grouped(a: seq<byte>, b: seq<byte>, c: seq<byte>)
    ensures a + b + c == a + (b + c)
  {
  }

  lemma ParseNext(e: seq<byte>, rest: seq<byte>, x: Sequence, b: Block)
    requires ReadHead(e + rest) == Some(Next(x, |e|)) && Parse(rest) == Some(b)
    ensures Parse(e + rest) == Some(Block([x] + b.sequences, b.last))
  {
    assert (e + rest)[|e|..] == rest;
  }

  lemma EncodeFront(b: Block)
    requires AllEncodable(b.sequences) && b.sequences != []
    ensures Encode(b) == EncodeSequence(b.sequences[0]) + Encode(Block(b.sequences[1..], b.last))
  {
    hide EncodeSequence, EncodeSequences, EncodeRun;
    EncodeSequencesFront(b.sequences);
  }

  lemma ParseRun(b: Block)
    requires b.sequences == []
    ensures Parse(Encode(b)) == Some(b)
  {
    hide ReadHead, EncodeRun;
    assert Encode(b) == EncodeRun(b.last);
    ReadLast(b.last);
  }

  /** The layout is unambiguous: reading the bytes of any block gives that block back. */
  lemma {:induction false} ParseEncode(b: Block)
    requires AllEncodable(b.sequences)
    ensures Parse(Encode(b)) == Some(b)
    decreases |b.sequences|
  {
    hide Parse, ReadHead, Encode, EncodeSequence, EncodeSequences, EncodeRun;
    if b.sequences == [] {
      ParseRun(b);
    } else {
      var x, rest := b.sequences[0], Block(b.sequences[1..], b.last);
      ParseEncode(rest);
      EncodeFront(b);
      ReadSequence(x, Encode(rest));
      ParseNext(EncodeSequence(x), Encode(rest), x, rest);
      assert [x] + rest.sequences == b.sequences;
    }
  }

  // ----- Blocks as bytes -----

  /** `s` is the layout of a block that keeps the end-of-block rules. */
  predicate ValidBlock(s: seq<byte>) {
    && Parse(s).Some?
    && WellFormed(Parse(s).value)
    && (PlacedEncodable(Parse(s).value.sequences, |Text(Parse(s).value)| - MFLIMIT,
        |Text(Parse(s).value)| - LASTLITERALS);
        Encode(Parse(s).value) == s)
  }

  /** The text a valid block stands for. */
  function Decoded(s: seq<byte>): seq<byte>
    requires ValidBlock(s)
  {
    Text(Parse(s).value)
  }

  /** Where the closing run of a valid block starts. */
  function RunStart(s: seq<byte>): int
    requires ValidBlock(s)
  {
    |s| - |EncodeRun(Parse(s).value.last)|
  }

  lemma EncodeIsValid(b: Block)
    requires WellFormed(b)
    ensures AllEncodable(b.sequences)
    ensures ValidBlock(Encode(b)) && Decoded(Encode(b)) == Text(b)
    ensures RunStart(Encode(b)) == |EncodeSequences(b.sequences)| && Parse(Encode(b)) == Some(b)
  {
    PlacedEncodable(b.sequences, |Text(b)| - MFLIMIT, |Text(b)| - LASTLITERALS);
    ParseEncode(b);
  }

  lemma PlacedAll(b: Block)
    requires WellFormed(b)
    ensures AllEncodable(b.sequences)
  {
    PlacedEncodable(b.sequences, |Text(b)| - MFLIMIT, |Text(b)| - LASTLITERALS);
  }

  lemma PlainNotEmpty(ss: seq<Sequence>)
    requires ss != [] && AllEncodable(ss)
    ensures Plain(ss) != []
  {
  }

  /** A block holds no sequence exactly if its closing run is the whole text. */
  lemma LiteralsAlone(s: seq<byte>)
    requires ValidBlock(s)
    ensures Parse(s).value.sequences == [] <==> Parse(s).value.last == Decoded(s)
  {
    hide Parse, WellFormed, Encode;
    var b := Parse(s).value;
    PlacedAll(b);
    if b.sequences == [] {
      assert Plain(b.sequences) + b.last == b.last;
    } else {
      PlainNotEmpty(b.sequences);
    }
  }

  lemma ValidNotEmpty(s: seq<byte>)
    requires ValidBlock(s)
    ensures s != []
  {
  }

  /** One literal zero, a match of 58 with the byte before it, and five literal zeros. */
  function Example(): (b: Block)
    ensures AllEncodable(b.sequences)
  {
    Block([Sequence([0], 1, 58)], [0, 0, 0, 0, 0])
  }

  /** The layout on one block, byte by byte, and the order of an offset's bytes. */
  lemma ExampleBytes()
    ensures Encode(Example()) == [0x1F, 0, 1, 0, 0x27, 0x50, 0, 0, 0, 0, 0]
    ensures OffsetBytes(0x1234) == [0x34, 0x12]
  {
    var x := Example().sequences[0];
    OneSequence(x);
    assert Extension(54) == [0x27];
    assert EncodeSequence(x) == [0x1F, 0, 1, 0, 0x27];
    assert EncodeRun(Example().last) == [0x50, 0, 0, 0, 0, 0];
  }

  lemma OneSequence(x: Sequence)
    requires Encodable(x)
    ensures EncodeSequences([x]) == EncodeSequence(x)
    ensures Plain([x]) == Repeat(x.literals, x.offset, x.matchLength)
  {
    hide EncodeSequence, Repeat;
    assert [x][..0] == [];
    assert Plain([x][..0]) + x.literals == x.literals;
  }

  /** These eleven bytes stand for sixty-four zeros. */
  lemma ExampleText()
    ensures |Text(Example())| == 64 && forall i | 0 <= i < 64 :: Text(Example())[i] == 0
  {
    hide Repeat, Plain;
    var x := Example().sequences[0];
    OneSequence(x);
    AllZero(Repeat([0], 1, 58));
  }

  lemma AllZero(r: seq<byte>)
    requires r == Repeat([0], 1, 58)
    ensures |r| == 59 && forall i | 0 <= i < 59 :: r[i] == 0
  {
    var z: seq<byte> := seq(59, _ => 0);
    assert z[..1] == [0];
    RepeatUnique([0], 1, 58, z);
  }
}
