/**
  * LZ4_compress_destSize: compress as much of the source as a given destination holds.
  * The last match and the last run of literals are shortened to fit.
  */
module Lz4DestSize {
  import opened Bytes
  import opened Lz4Block
  import opened Lz4Common
  import opened Lz4Encoder
  import opened Lz4Fast

  lemma ExtensionSize(n: nat)
    ensures |Extension(n)| == (n + 240) / 255
  {
  }

  // ----- The closing run, cut to fit -----

  /** The run that `space` bytes can take after its token, as the source computes it. */
  function Shortened(space: nat): nat {
    space - (space + 240) / 255
  }

  lemma ShortenedFits(space: nat)
    ensures |Extension(Shortened(space))| + Shortened(space) <= space
    ensures space >= 5 ==> Shortened(space) >= 5
    ensures space >= 8 ==> Shortened(space) >= 8
  {
    ExtensionSize(Shortened(space));
  }

  /** The sizes that a shortened run uses up: the length bytes saved by shortening are none. */
  predicate Fills(space: int) {
    (space + 240) / 255 <= (space + 240) % 255
  }

  lemma ShortenedFills(space: nat)
    ensures |Extension(Shortened(space))| + Shortened(space) == space <==> Fills(space)
  {
    ExtensionSize(Shortened(space));
  }

  /** How little of the room a shortened run leaves: one byte, and one more for every 65025. */
  lemma ShortenedWaste(space: nat)
    ensures space - |Extension(Shortened(space))| - Shortened(space) <= 1 + (space + 240) / 65025
  {
    ExtensionSize(Shortened(space));
    var q := (space + 240) / 255;
    assert (space + 240) / 65025 == q / 255;
  }

  /** A run of `n` literals takes more than `space` bytes, its token and length bytes included. */
  predicate RunOverflows(n: nat, space: nat) {
    1 + |Extension(n)| + n > space
  }

  /** Only runs that do not fit are shortened, and a shortened run is no longer than the run. */
  lemma ShortenedIsShorter(space: nat, run: nat)
    requires |Extension(run)| + run > space
    ensures Shortened(space) < run
  {
    ExtensionSize(run);
    ExtensionSize(Shortened(space));
    ShortenedFits(space);
  }

  /**
    * The last copy started at `lastStart`: what is left of the destination makes room for
    * literals enough to keep the end-of-block rules.
    */
  predicate Cushioned(lastStart: nat, anchor: nat, op: nat, size: nat) {
    lastStart + MINMATCH <= anchor && (op + 9 <= size || (op + 6 <= size && lastStart + 19 <= anchor))
  }

  /** All copies so far start by `lastStart` and end by the anchor. */
  ghost predicate Bounded(e: Encoder, lastStart: nat)
    reads e, e.dest
  {
    && e.Valid()
    && AllPlaced(e.emitted, lastStart, e.anchor)
    && (e.emitted == [] ==> e.op == 0 && e.anchor == 0)
    && (e.emitted != [] ==> Cushioned(lastStart, e.anchor, e.op, e.dest.Length))
  }

  lemma RulesKept(e: Encoder, lastStart: nat, run: nat)
    requires Bounded(e, lastStart) && e.anchor + run <= |e.src| && 0 < e.dest.Length
    requires e.anchor + run == |e.src| || run == Shortened(e.dest.Length - e.op - 1)
    ensures AllPlaced(e.emitted, e.anchor + run - MFLIMIT, e.anchor + run - LASTLITERALS)
  {
    hide AllPlaced, Plain;
    if e.anchor + run == |e.src| {
    } else if e.emitted == [] {
      NothingPlaced(e.anchor + run - MFLIMIT, e.anchor + run - LASTLITERALS);
    } else {
      ShortenedFits(e.dest.Length - e.op - 1);
      PlacedWithin(e.emitted, lastStart, e.anchor, e.anchor + run - MFLIMIT, e.anchor + run - LASTLITERALS);
    }
  }

  lemma NothingPlaced(s: int, t: int)
    ensures AllPlaced([], s, t)
  {
  }

  /** Closes the block with as many of the remaining literals as fit. */
  method FinishShort(e: Encoder, ghost lastStart: nat) returns (size: nat, consumed: nat)
    requires Bounded(e, lastStart) && e.op < e.dest.Length
    modifies e, e.dest
    ensures size <= e.dest.Length && old(e.anchor) <= consumed <= |e.src|
    ensures ValidBlock(e.dest[..size]) && Decoded(e.dest[..size]) == e.src[..consumed]
    ensures RunStart(e.dest[..size]) == old(e.op)
    ensures Parse(e.dest[..size]).value.last == e.src[old(e.anchor)..consumed]
    ensures consumed < |e.src| <==> RunOverflows(|e.src| - old(e.anchor), e.dest.Length - old(e.op))
    ensures consumed < |e.src| ==> consumed == old(e.anchor) + Shortened(e.dest.Length - old(e.op) - 1)
    ensures consumed < |e.src| ==> (size == e.dest.Length <==> Fills(e.dest.Length - old(e.op) - 1))
    ensures consumed < |e.src| ==> e.dest.Length - size <= 1 + (e.dest.Length + 239) / 65025
  {
    hide ValidBlock, Decoded, EncodeSequences, EncodeRun, Plain, AllPlaced, AllEncodable, Extension;
    hide Fills, RunStart, Parse;
    var run := |e.src| - e.anchor;
    ExtensionSize(run);
    if e.op + 1 + (run + 240) / 255 + run > e.dest.Length {
      ShortenedIsShorter(e.dest.Length - e.op - 1, run);
      run := Shortened(e.dest.Length - e.op - 1);
      ShortenedFits(e.dest.Length - e.op - 1);
      ShortenedFills(e.dest.Length - e.op - 1);
      ShortenedWaste(e.dest.Length - e.op - 1);
    }
    consumed := e.anchor + run;
    RulesKept(e, lastStart, run);
    size := WriteLastLiterals(e.dest, e.op, e.src, e.anchor, run);
    CloseAt(e.src, e.emitted, e.anchor, consumed);
  }

  lemma CloseAt(src: seq<byte>, emitted: seq<Sequence>, anchor: nat, consumed: nat)
    requires anchor <= consumed <= |src| && Plain(emitted) == src[..anchor] && AllEncodable(emitted)
    requires AllPlaced(emitted, consumed - MFLIMIT, consumed - LASTLITERALS)
    ensures
      var bytes := EncodeSequences(emitted) + EncodeRun(src[anchor..consumed]);
      && ValidBlock(bytes) && Decoded(bytes) == src[..consumed] && RunStart(bytes) == |EncodeSequences(emitted)|
      && Parse(bytes) == Some(Block(emitted, src[anchor..consumed]))
  {
    hide *;
    var text := src[..consumed];
    assert text[..anchor] == src[..anchor] && text[anchor..] == src[anchor..consumed];
    Close(text, emitted, anchor);
  }

  // ----- Encoding one sequence -----

  method WriteMatchCodeExactly(dest: array<byte>, token: nat, op: nat, code: nat) returns (o: nat)
    requires token < op && op + |Extension(code)| <= dest.Length && dest[token] <= 240
    modifies dest
    ensures o == op + |Extension(code)|
    ensures dest[..o] == old(dest[..op])[token := old(dest[token]) + Nibble(code)] + Extension(code)
  {
    ghost var before := dest[..op];
    dest[token] := dest[token] + Nibble(code);
    assert dest[..op] == before[token := before[token] + Nibble(code)];
    o := op;
    if code >= ML_MASK {
      o := WriteTail(dest, op, code - ML_MASK);
    }
  }

  /** The match code that fits: the whole match, or what `space` bytes can describe. */
  function FittingCode(code: nat, space: nat): nat {
    if (code + 240) / 255 > space then (15 - 1) + space * 255 else code
  }

  lemma FittingCodeFits(code: nat, space: nat)
    ensures FittingCode(code, space) <= code
    ensures |Extension(FittingCode(code, space))| <= space
    ensures FittingCode(code, space) == code || |Extension(FittingCode(code, space))| == space
  {
    ExtensionSize(code);
    ExtensionSize(FittingCode(code, space));
  }

  /** The literals since `anchor` and a match of `n` bytes with the text at `ref`. */
  function CopyOf(src: seq<byte>, anchor: nat, ip: nat, ref: nat, n: nat): (x: Sequence)
    requires anchor <= ip <= |src| && ref < ip <= ref + MAX_DISTANCE && MINMATCH <= n
    ensures Encodable(x)
  {
    Sequence(src[anchor..ip], ip - ref, n)
  }

  /** Head, offset and as much of the match as can be described, leaving room for the last literals. */
  method WriteShort(dest: array<byte>, op: nat, src: seq<byte>, anchor: nat, ip: nat, ref: nat, chained: bool)
      returns (o: nat, code: nat)
    requires anchor <= ip <= |src| - MFLIMIT && Hit(src, ip, ref) && (chained ==> anchor == ip)
    requires op + |EncodeRun(src[anchor..ip])| + 11 <= dest.Length
    modifies dest
    ensures o + 6 <= dest.Length && (code < ML_MASK ==> o + 9 <= dest.Length)
    ensures IsMatch(src, ip, ref, MINMATCH + code, |src| - LASTLITERALS)
    ensures dest[..o] == old(dest[..op]) + EncodeSequence(CopyOf(src, anchor, ip, ref, MINMATCH + code))
    ensures LongestCommon(src, ref, ip, |src| - LASTLITERALS, MINMATCH + code) || o + 6 == dest.Length
  {
    hide EncodeSequence, Extension, EncodeRun, OffsetBytes, Token, Common, LongestCommon;
    ghost var before := dest[..op];
    o := WriteHead(dest, op, src, anchor, ip, chained);
    o := WriteOffset(dest, o, ip - ref);
    ghost var half := dest[..o];
    var full := Measure(src, ip, ref, |src| - LASTLITERALS);
    code := FittingCode(full, dest.Length - 6 - o);
    FittingCodeFits(full, dest.Length - 6 - o);
    CommonPrefix(src, ref, ip, MINMATCH + full, MINMATCH + code);
    ghost var x := Sequence(src[anchor..ip], ip - ref, MINMATCH + code);
    SequenceSize(x);
    RunSize(x.literals);
    SequenceFromHalves(before, x);
    assert dest[op] == half[op];
    TokenRoom(|x.literals|);
    ShortCode(code);
    o := WriteMatchCodeExactly(dest, op, o, code);
    TokenSum(|x.literals|, code);
  }

  lemma ShortCode(code: nat)
    ensures code < ML_MASK ==> Extension(code) == []
  {
  }

  method Emit(e: Encoder, ghost lastStart: nat, ip: nat, ref: nat, chained: bool) returns (end: nat)
    requires Bounded(e, lastStart) && e.anchor <= ip <= |e.src| - MFLIMIT && lastStart <= ip
    requires Hit(e.src, ip, ref) && (chained ==> e.anchor == ip)
    requires e.op + |EncodeRun(e.src[e.anchor..ip])| + 11 <= e.dest.Length
    modifies e, e.dest
    ensures Bounded(e, ip) && e.anchor == end && e.op < e.dest.Length
    ensures ip + MINMATCH <= end <= |e.src| - LASTLITERALS
    ensures LongestCommon(e.src, ref, ip, |e.src| - LASTLITERALS, end - ip) || e.op + 6 == e.dest.Length
  {
    hide EncodeSequence, EncodeSequences, EncodeRun, Plain, AllPlaced, AllEncodable, Extension, Common, LongestCommon;
    var o, code := WriteShort(e.dest, e.op, e.src, e.anchor, ip, ref, chained);
    end := ip + MINMATCH + code;
    ghost var x := Sequence(e.src[e.anchor..ip], ip - ref, MINMATCH + code);
    Extend(e.src, e.emitted, e.anchor, ip, ref, MINMATCH + code);
    PlacedWithin(e.emitted, lastStart, e.anchor, ip, end);
    Append(e.emitted, x, ip, end);
    e.op, e.anchor, e.emitted := o, end, e.emitted + [x];
  }

  // ----- The parser -----

  ghost predicate Ready(t: PositionTable, e: Encoder, lastStart: nat)
    reads e, e.dest
  {
    && Bounded(e, lastStart) && lastStart <= e.anchor && e.op < e.dest.Length
    && MFLIMIT < |e.src| && Suits(t.kind, |e.src|)
    && t.cells.Length == TableSize(t.kind)
    && e.dest as object != t.cells
  }

  method EmitBeside(t: PositionTable, e: Encoder, ghost lastStart: nat, ip: nat, ref: nat, chained: bool)
      returns (end: nat)
    requires Ready(t, e, lastStart) && e.anchor <= ip <= |e.src| - MFLIMIT
    requires Hit(e.src, ip, ref) && (chained ==> e.anchor == ip)
    requires e.op + |EncodeRun(e.src[e.anchor..ip])| + 11 <= e.dest.Length
    modifies e, e.dest
    ensures Ready(t, e, ip) && e.anchor == end
    ensures ip + MINMATCH <= end <= |e.src| - LASTLITERALS
    ensures LongestCommon(e.src, ref, ip, |e.src| - LASTLITERALS, end - ip) || e.op + 6 == e.dest.Length
    ensures t.cells[..] == old(t.cells[..])
  {
    hide Hit, LongestCommon, Bounded, EncodeRun;
    end := Emit(e, lastStart, ip, ref, chained);
  }

  method TestNextBeside(t: PositionTable, e: Encoder, ghost lastStart: nat, end: nat) returns (hit: bool, ref: nat)
    requires Ready(t, e, lastStart) && 2 <= end <= |e.src| - MFLIMIT && t.Below(end)
    modifies t.cells
    ensures Ready(t, e, lastStart) && t.Below(end + 1) && (hit ==> Hit(e.src, end, ref))
  {
    hide Hit;
    hit, ref := TestNext(t, e.src, end);
  }

  method SearchBeside(t: PositionTable, e: Encoder, ghost lastStart: nat, start: nat, hash: nat)
      returns (found: bool, ip: nat, ref: nat, ghost k: nat)
    requires Ready(t, e, lastStart) && t.Below(start) && 1 <= start && start + 8 <= |e.src|
    requires hash == HashPosition(e.src, start, t.kind)
    modifies t.cells
    ensures Ready(t, e, lastStart)
    ensures found ==> start <= ip < |e.src| - MFLIMIT && Hit(e.src, ip, ref) && t.Below(ip + 1)
    ensures found ==> ip == Probe(start, k) && ProbeHits(e.src, t.kind, start, old(t.cells[..]), k)
    ensures !found ==> Probe(start, k + 1) + MFLIMIT > |e.src|
    ensures forall j: nat | j < k :: !ProbeHits(e.src, t.kind, start, old(t.cells[..]), j)
  {
    hide HashPosition, ProbeHits, Hit;
    found, ip, ref, k := FindMatch(e.src, t, start, hash);
  }

  /** Emits a match and every match that follows another directly, while the destination has room. */
  method EmitChain(t: PositionTable, e: Encoder, ghost before: nat, first: nat, firstRef: nat, ghost seen: nat)
      returns (done: bool, ghost lastStart: nat)
    requires Ready(t, e, before) && e.anchor <= first <= |e.src| - MFLIMIT && t.Below(seen)
    requires first < seen && seen + 3 <= |e.src| - LASTLITERALS
    requires Common(e.src, firstRef, first, seen + 3 - first) && Hit(e.src, first, firstRef)
    requires e.op + |EncodeRun(e.src[e.anchor..first])| + 11 <= e.dest.Length
    modifies t.cells, e, e.dest
    ensures Ready(t, e, lastStart) && e.anchor >= first + MINMATCH
    ensures !done ==> e.anchor <= |e.src| - MFLIMIT && t.Below(e.anchor + 1)
  {
    hide LongestCommon, Common, HashPosition, Ready, EncodeRun;
    var ref := firstRef;
    var end := EmitBeside(t, e, before, first, ref, false);
    lastStart := first;
    if e.op + 6 != e.dest.Length {
      LongestIsLongest(e.src, ref, first, |e.src| - LASTLITERALS, end - first, seen + 3 - first);
    }
    while true
      invariant Ready(t, e, lastStart) && e.anchor == end && first + MINMATCH <= end
      invariant t.Below(end) || e.op + 6 == e.dest.Length
      decreases |e.src| - end
    {
      if end > |e.src| - MFLIMIT {
        return true, lastStart;
      }
      if e.op > e.dest.Length - 12 {
        return true, lastStart;
      }
      var hit;
      hit, ref := TestNextBeside(t, e, lastStart, end);
      if !hit {
        return false, lastStart;
      }
      EmptyRun(e.src[end..end]);
      ghost var start := end;
      end := EmitBeside(t, e, lastStart, end, ref, true);
      lastStart := start;
    }
  }

  /** No four bytes repeat within reach: nothing for the parser to copy. */
  ghost predicate NoRepeat(src: seq<byte>) {
    forall ip: nat, ref: nat :: !Hit(src, ip, ref)
  }

  /** Every hit of the first search has too many literals before it for the target. */
  ghost predicate HitsTooLate(src: seq<byte>, kind: TableType, target: nat) {
    forall k: nat | ProbeHits(src, kind, 1, Zeros(kind), k) :: TooLate(Probe(1, k), target)
  }

  predicate TooLate(n: nat, target: nat) {
    1 + (n + 240) / 255 + n + 11 > target
  }

  lemma NoHitsTooLate(src: seq<byte>, kind: TableType, target: nat)
    requires NoProbeHits(src, kind)
    ensures HitsTooLate(src, kind, target)
  {
    hide ProbeHits, Zeros;
  }

  lemma FirstTooLate(src: seq<byte>, kind: TableType, target: nat, k: nat, literals: nat)
    requires forall j: nat | j < k :: !ProbeHits(src, kind, 1, Zeros(kind), j)
    requires literals <= Probe(1, k) && TooLate(literals, target)
    ensures HitsTooLate(src, kind, target)
  {
    hide ProbeHits, Zeros;
    forall j: nat | ProbeHits(src, kind, 1, Zeros(kind), j) ensures TooLate(Probe(1, j), target) {
      ProbeGrows(1, k, j);
    }
  }

  /** The main loop, until only literals remain or the destination is nearly full. */
  method MainLoop(t: PositionTable, e: Encoder) returns (ghost lastStart: nat)
    requires Ready(t, e, 0) && t.Below(1) && e.anchor == 0 && e.op == 0 && MFLIMIT < |e.src|
    requires t.cells[..] == Zeros(t.kind)
    modifies t.cells, e, e.dest
    ensures Ready(t, e, lastStart)
    ensures e.anchor > 0 ==> !NoProbeHits(e.src, t.kind)
    ensures e.anchor == 0 ==> HitsTooLate(e.src, t.kind, e.dest.Length)
    ensures NoRepeat(e.src) ==> e.op == old(e.op) && e.anchor == 0
  {
    hide HashPosition, Common, Ready, EncodeRun, Extension, ProbeHits, Zeros, HitsTooLate;
    lastStart := 0;
    var start: nat, hash := 1, HashPosition(e.src, 1, t.kind);
    while true
      invariant Ready(t, e, lastStart) && t.Below(start) && 1 <= start && e.anchor <= start && start + 8 <= |e.src|
      invariant hash == HashPosition(e.src, start, t.kind)
      invariant NoRepeat(e.src) ==> e.op == old(e.op) && e.anchor == 0
      invariant e.anchor == 0 ==> start == 1 && e.op == 0 && t.cells[..] == Zeros(t.kind)
      invariant e.anchor > 0 ==> !NoProbeHits(e.src, t.kind)
      decreases |e.src| - e.anchor
    {
      var found, ip, ref, k := SearchBeside(t, e, lastStart, start, hash);
      if !found {
        if e.anchor == 0 {
          AllProbed(e.src, t.kind, k);
          NoHitsTooLate(e.src, t.kind, e.dest.Length);
        }
        return;
      }
      assert !NoRepeat(e.src);
      var first, firstRef := CatchUp(e.src, e.anchor, ip, ref);
      CommonPrefix(e.src, firstRef, first, MINMATCH + (ip - first), MINMATCH);
      var litLength := first - e.anchor;
      RunSize(e.src[e.anchor..first]);
      ExtensionSize(litLength);
      if e.op + 1 + (litLength + 240) / 255 + litLength > e.dest.Length - 11 {
        if e.anchor == 0 {
          FirstTooLate(e.src, t.kind, e.dest.Length, k, litLength);
        }
        return;
      }
      var done;
      done, lastStart := EmitChain(t, e, lastStart, first, firstRef, ip + 1);
      if done {
        return;
      }
      start := e.anchor + 1;
      hash := HashPosition(e.src, start, t.kind);
    }
  }

  method ParseSource(t: PositionTable, e: Encoder) returns (ghost lastStart: nat)
    requires Ready(t, e, 0) && t.Below(1) && e.anchor == 0 && e.op == 0
    modifies t.cells, e, e.dest
    ensures Ready(t, e, lastStart)
    ensures NoRepeat(e.src) ==> e.op == old(e.op) && e.anchor == 0
    ensures e.anchor > 0 ==> !NoProbeHits(e.src, t.kind)
    ensures e.anchor == 0 ==> HitsTooLate(e.src, t.kind, e.dest.Length)
  {
    hide HashPosition, Bounded, NoRepeat, NoProbeHits, HitsTooLate;
    assert t.cells[..] == Zeros(t.kind);
    t.Put(0, HashPosition(e.src, 0, t.kind), 1);
    lastStart := MainLoop(t, e);
  }

  /** At most one byte, and one more for every 65025, is left unused. */
  predicate NearlyFull(size: nat, target: nat) {
    target - size <= 1 + (target + 239) / 65025
  }

  /** What becomes of `n` bytes without a repeat: when they are cut, and when the cut fills the target. */
  predicate LiteralsOnly(n: nat, target: nat, size: nat, consumed: nat)
    requires 1 <= target
  {
    && (consumed < n <==> RunOverflows(n, target))
    && (consumed < n ==> consumed == Shortened(target - 1) && (size == target <==> Fills(target - 1)))
  }

  /** Without a sequence only if no hit of the first search fits; with one only if there is a hit. */
  ghost predicate CopiesWhenHit(src: seq<byte>, kind: TableType, target: nat, block: seq<byte>)
    requires ValidBlock(block)
  {
    if Parse(block).value.sequences == [] then |src| <= MFLIMIT || HitsTooLate(src, kind, target)
    else |src| > MFLIMIT && !NoProbeHits(src, kind)
  }

  /**
    * For every source and destination: the output stays within the destination, and it
    * decodes to the first `consumed` bytes of the source.
    */
  method CompressDestSizeGeneric(src: seq<byte>, dest: array<byte>, kind: TableType)
      returns (size: nat, consumed: nat)
    modifies dest
    ensures dest.Length < 1 || !Suits(kind, |src|) ==> size == 0 && consumed == |src|
    ensures dest.Length >= 1 && Suits(kind, |src|) ==>
              && 0 < size <= dest.Length && consumed <= |src|
              && ValidBlock(dest[..size]) && Decoded(dest[..size]) == src[..consumed]
              && (consumed < |src| ==> NearlyFull(size, dest.Length))
              && (consumed < |src| ==> (size == dest.Length <==> Fills(dest.Length - RunStart(dest[..size]) - 1)))
              && (NoRepeat(src) ==> LiteralsOnly(|src|, dest.Length, size, consumed))
              && CopiesWhenHit(src, kind, dest.Length, dest[..size])
  {
    hide ValidBlock, Decoded, NoRepeat, Fills, Extension, RunStart, Parse, NoProbeHits, HitsTooLate;
    consumed := |src|;
    if dest.Length < 1 {
      return 0, consumed;
    }
    if |src| > LZ4_MAX_INPUT_SIZE || (kind.ByU16? && |src| >= LZ4_64KLIMIT) {
      return 0, consumed;
    }
    var e := new Encoder(src, dest);
    ghost var lastStart := 0;
    if |src| >= MFLIMIT + 1 {
      var t := new PositionTable(kind);
      lastStart := ParseSource(t, e);
    }
    ghost var anchor := e.anchor;
    size, consumed := FinishShort(e, lastStart);
    ValidNotEmpty(dest[..size]);
    LiteralsAlone(dest[..size]);
    if anchor == 0 {
      assert src[0..consumed] == src[..consumed];
    }
  }

  /** LZ4_compress_destSize: a destination of the compression bound takes the whole source. */
  method CompressDestSize(src: seq<byte>, dest: array<byte>) returns (size: nat, consumed: nat)
    modifies dest
    ensures |src| > LZ4_MAX_INPUT_SIZE || dest.Length < 1 ==> size == 0
    ensures |src| <= LZ4_MAX_INPUT_SIZE && dest.Length >= 1 ==>
              && 0 < size <= dest.Length && consumed <= |src|
              && ValidBlock(dest[..size]) && Decoded(dest[..size]) == src[..consumed]
              && (consumed < |src| ==> NearlyFull(size, dest.Length))
              && (consumed < |src| ==> (size == dest.Length <==> Fills(dest.Length - RunStart(dest[..size]) - 1)))
              && (NoRepeat(src) ==> LiteralsOnly(|src|, dest.Length, size, consumed))
              && CopiesWhenHit(src, TableFor(|src|), dest.Length, dest[..size])
    ensures CompressBound(|src|) <= dest.Length ==> consumed == |src|
  {
    hide ValidBlock, Decoded, NoRepeat, Fills, RunStart, Parse, NoProbeHits, HitsTooLate;
    if dest.Length >= CompressBound(|src|) {
      size := CompressDefault(src, dest);
      consumed := |src|;
      assert src[..consumed] == src;
      ExtensionSize(|src|);
      if |src| <= LZ4_MAX_INPUT_SIZE && NoProbeHits(src, TableFor(|src|)) {
        NoHitsTooLate(src, TableFor(|src|), dest.Length);
      }
    } else if |src| < LZ4_64KLIMIT {
      size, consumed := CompressDestSizeGeneric(src, dest, ByU16);
    } else {
      size, consumed := CompressDestSizeGeneric(src, dest, ByU32);
    }
  }

  /** A source without repeats: four equal bytes start with an equal byte. */
  lemma DistinctNoRepeat(src: seq<byte>)
    requires forall i, j | 0 <= i < j < |src| :: src[i] != src[j]
    ensures NoRepeat(src)
  {
    hide Hit;
    forall ip: nat, ref: nat ensures !Hit(src, ip, ref) {
      if Hit(src, ip, ref) {
        HitAt(src, ip, ref);
      }
    }
  }

  lemma HitAt(src: seq<byte>, ip: nat, ref: nat)
    requires Hit(src, ip, ref)
    ensures ref < ip < |src| && src[ref] == src[ip]
  {
    CommonAt(src, ref, ip, MINMATCH, 0);
  }

  /**
    * A destination that is not filled although input is left: fifteen distinct bytes into
    * sixteen.  Fourteen literals need no length byte, fifteen would need one.
    */
  method FifteenNotFilled() returns (size: nat, consumed: nat)
    ensures size == 15 && consumed == 14
  {
    hide ValidBlock, Decoded, NoRepeat, RunStart;
    var src: seq<byte> := seq(15, i requires 0 <= i < 15 => i);
    DistinctNoRepeat(src);
    var dest := new byte[16](_ => 0);
    size, consumed := CompressDestSize(src, dest);
  }
}
