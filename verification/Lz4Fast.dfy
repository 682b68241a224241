/**
  * LZ4_compress_default into a destination as large as the compression bound: a greedy
  * parser over a hash table of positions, without a dictionary and with acceleration 1.
  */
module Lz4Fast {
  import opened Bytes
  import opened Lz4Block
  import opened Lz4Common
  import opened Lz4Encoder

  const LZ4_64KLIMIT := 65536 + (MFLIMIT - 1)
  const SKIP_TRIGGER := 64

  // ----- The table of positions -----

  datatype TableType = ByU32 | ByU16

  function TableSize(kind: TableType): nat {
    if kind.ByU16? then 8192 else 4096
  }

  function Little(s: seq<byte>): nat {
    if s == [] then 0 else s[0] as nat + 256 * Little(s[1..])
  }

  /** Four bytes hashed to 13 bits, or five of eight hashed to 12. */
  function HashPosition(src: seq<byte>, p: nat, kind: TableType): (h: nat)
    requires p + 8 <= |src|
    ensures h < TableSize(kind)
  {
    if kind.ByU16? then
      ((Little(src[p..p + 4]) * 2654435761) % 0x1_0000_0000) / 0x8_0000
    else
      ((((Little(src[p..p + 8]) * 0x100_0000) % 0x1_0000_0000_0000_0000) * 889523592379)
       % 0x1_0000_0000_0000_0000) / 0x10_0000_0000_0000
  }

  lemma LittleEight(s: seq<byte>)
    requires |s| == 8
    ensures Little(s) == Little(s[..5]) + 0x100_0000_0000 * Little(s[5..])
  {
    LittleFive(s[..5]);
    LittleFive(s[1..6]);
    assert s[3..][..5] == s[3..];
    LittleFive(s[3..]);
    assert Little(s) == s[0] as nat + 256 * Little(s[1..]);
    assert s[1..][1..] == s[2..] && s[2..][1..] == s[3..] && s[3..][1..] == s[4..] && s[4..][1..] == s[5..];
    assert Little(s[3..]) == s[3] as nat + 256 * Little(s[4..]) && Little(s[4..]) == s[4] as nat + 256 * Little(s[5..]);
  }

  lemma LittleFive(s: seq<byte>)
    requires |s| == 5
    ensures Little(s) == s[0] as nat + 0x100 * s[1] as nat + 0x1_0000 * s[2] as nat + 0x100_0000 * s[3] as nat
                         + 0x1_0000_0000 * s[4] as nat
  {
    LittleFour(s[1..]);
  }

  lemma LittleFour(s: seq<byte>)
    requires |s| == 4
    ensures Little(s) == s[0] as nat + 0x100 * s[1] as nat + 0x1_0000 * s[2] as nat + 0x100_0000 * s[3] as nat
  {
    assert s[1..][1..] == s[2..] && s[2..][1..] == s[3..] && s[3..][1..] == [];
    assert Little(s[3..]) == s[3] as nat && Little(s[2..]) == s[2] as nat + 256 * Little(s[3..]);
    assert Little(s[1..]) == s[1] as nat + 256 * Little(s[2..]);
  }

  lemma HighBytesLost(low: nat, high: nat)
    ensures (low + 0x100_0000_0000 * high) * 0x100_0000 % 0x1_0000_0000_0000_0000
            == low * 0x100_0000 % 0x1_0000_0000_0000_0000
  {
    var n := low * 0x100_0000;
    assert (low + 0x100_0000_0000 * high) * 0x100_0000 == n + 0x1_0000_0000_0000_0000 * high;
    assert (n + 0x1_0000_0000_0000_0000 * high) % 0x1_0000_0000_0000_0000 == n % 0x1_0000_0000_0000_0000;
  }

  /** The hash depends on the first five bytes only. */
  lemma SameHash(src: seq<byte>, p: nat, q: nat, kind: TableType)
    requires p + 8 <= |src| && q + 8 <= |src| && src[p..p + 5] == src[q..q + 5]
    ensures HashPosition(src, p, kind) == HashPosition(src, q, kind)
  {
    hide Little;
    var a, b := src[p..p + 8], src[q..q + 8];
    assert src[p..p + 4] == src[p..p + 5][..4] && src[q..q + 4] == src[q..q + 5][..4];
    assert a[..5] == src[p..p + 5] && b[..5] == src[q..q + 5];
    LittleEight(a);
    LittleEight(b);
    HighBytesLost(Little(a[..5]), Little(a[5..]));
    HighBytesLost(Little(b[..5]), Little(b[5..]));
  }

  /** The hashes in terms of the first five bytes, read as one number. */
  lemma HashOfNumber(src: seq<byte>, p: nat, five: seq<byte>, n: nat)
    requires p + 8 <= |src| && |five| == 5 && src[p..p + 5] == five
    requires n == five[0] as nat + 0x100 * five[1] as nat + 0x1_0000 * five[2] as nat + 0x100_0000 * five[3] as nat
                  + 0x1_0000_0000 * five[4] as nat
    ensures HashPosition(src, p, ByU16) == n % 0x1_0000_0000 * 2654435761 % 0x1_0000_0000 / 0x8_0000
    ensures HashPosition(src, p, ByU32) ==
            n * 0x100_0000 % 0x1_0000_0000_0000_0000 * 889523592379 % 0x1_0000_0000_0000_0000 / 0x10_0000_0000_0000
  {
    hide Little;
    var w, a := src[p..p + 4], src[p..p + 8];
    assert a[..5] == five && w == five[..4];
    LittleFour(w);
    LittleFive(five);
    LittleEight(a);
    HighBytesLost(n, Little(a[5..]));
  }

  /** The positions that a table entry can hold without loss. */
  predicate Storable(kind: TableType, p: nat) {
    if kind.ByU16? then p < 0x1_0000 else p < 0x1_0000_0000
  }

  /** A source of `n` bytes can be compressed with this kind of table. */
  predicate Suits(kind: TableType, n: nat) {
    n <= LZ4_MAX_INPUT_SIZE && (kind.ByU16? ==> n < LZ4_64KLIMIT)
  }

  class PositionTable {
    const kind: TableType
    const cells: array<nat>

    /** Every entry is a position before `limit`. */
    ghost predicate Below(limit: nat)
      reads cells
    {
      cells.Length == TableSize(kind) && forall i | 0 <= i < cells.Length :: cells[i] < limit
    }

    constructor (kind: TableType)
      ensures this.kind == kind && Below(1) && fresh(cells)
    {
      this.kind := kind;
      cells := new nat[TableSize(kind)](_ => 0);
    }

    /** Stores a position, truncated to the width of an entry. */
    method Put(p: nat, h: nat, ghost limit: nat)
      requires Below(limit) && h < TableSize(kind) && p < limit && Storable(kind, p)
      modifies cells
      ensures Below(limit) && cells[..] == old(cells[..])[h := p]
    {
      cells[h] := if kind.ByU16? then p % 0x1_0000 else p % 0x1_0000_0000;
    }
  }

  // ----- Searching -----

  /** What a search returns: positions `ref` and `ip` with four equal bytes, within reach. */
  predicate Hit(src: seq<byte>, ip: nat, ref: nat) {
    ref < ip <= ref + MAX_DISTANCE && Common(src, ref, ip, MINMATCH)
  }

  /** How far the search moves on after its k-th probe: by one for the first 65, then ever faster. */
  function Stride(k: nat): (n: nat)
    ensures 1 <= n
  {
    if k == 0 then 1 else (SKIP_TRIGGER + k - 1) / SKIP_TRIGGER
  }

  lemma Strides(k: nat)
    ensures k <= 64 ==> Stride(k) == 1
    ensures 1 <= k ==> 64 * Stride(k) <= k + 63 < 64 * (Stride(k) + 1)
  {
  }

  /** The k-th position that a search from `start` looks at. */
  function Probe(start: nat, k: nat): (p: nat)
    ensures start + k <= p
  {
    if k == 0 then start else Probe(start, k - 1) + Stride(k - 1)
  }

  /** The table as the k-th probe finds it: every probe before it has left its position. */
  ghost function CellsAt(src: seq<byte>, kind: TableType, start: nat, cells: seq<nat>, k: nat): (r: seq<nat>)
    requires |cells| == TableSize(kind) && Probe(start, k) + 8 <= |src|
    ensures |r| == |cells|
  {
    if k == 0 then cells
    else
      var p := Probe(start, k - 1);
      CellsAt(src, kind, start, cells, k - 1)[HashPosition(src, p, kind) := p]
  }

  /** The k-th probe, if it comes to that, finds a position with four equal bytes within reach. */
  ghost predicate ProbeHits(src: seq<byte>, kind: TableType, start: nat, cells: seq<nat>, k: nat)
    requires |cells| == TableSize(kind)
  {
    && Probe(start, k + 1) + MFLIMIT <= |src|
    && var p := Probe(start, k); Hit(src, p, CellsAt(src, kind, start, cells, k)[HashPosition(src, p, kind)])
  }

  /** Tries positions ahead of `start`, in growing steps, until one matches: `k` is the first that does. */
  method FindMatch(src: seq<byte>, t: PositionTable, start: nat, hash: nat)
      returns (found: bool, ip: nat, ref: nat, ghost k: nat)
    requires t.Below(start) && 1 <= start && start + 8 <= |src| && Suits(t.kind, |src|)
    requires hash == HashPosition(src, start, t.kind)
    modifies t.cells
    ensures found ==> start <= ip < |src| - MFLIMIT && Hit(src, ip, ref) && t.Below(ip + 1)
    ensures found ==> ip == Probe(start, k) && ProbeHits(src, t.kind, start, old(t.cells[..]), k)
    ensures !found ==> Probe(start, k + 1) + MFLIMIT > |src|
    ensures forall j: nat | j < k :: !ProbeHits(src, t.kind, start, old(t.cells[..]), j)
  {
    hide HashPosition, Hit;
    ghost var cells := t.cells[..];
    var forwardIp: nat, forwardH := start, hash;
    var step, searchMatchNb := 1, SKIP_TRIGGER;
    ip, ref, k := start, 0, 0;
    while true
      invariant start <= forwardIp && forwardIp + 8 <= |src| && t.Below(forwardIp)
      invariant forwardH == HashPosition(src, forwardIp, t.kind)
      invariant step == Stride(k) && searchMatchNb == SKIP_TRIGGER + k
      invariant forwardIp == Probe(start, k) && t.cells[..] == CellsAt(src, t.kind, start, cells, k)
      invariant forall j: nat | j < k :: !ProbeHits(src, t.kind, start, cells, j)
      decreases |src| - forwardIp
    {
      var h := forwardH;
      ip := forwardIp;
      forwardIp := forwardIp + step;
      step := searchMatchNb / SKIP_TRIGGER;
      searchMatchNb := searchMatchNb + 1;
      assert forwardIp == Probe(start, k + 1);
      if forwardIp > |src| - MFLIMIT {
        return false, ip, 0, k;
      }
      ref := t.cells[h];
      forwardH := HashPosition(src, forwardIp, t.kind);
      t.Put(ip, h, ip + 1);
      var hit := Test(src, t.kind, ip, ref);
      assert hit <==> ProbeHits(src, t.kind, start, cells, k);
      if hit {
        return true, ip, ref, k;
      }
      k := k + 1;
    }
  }

  /** The test on an entry of the table; in the 16-bit table everything is within reach. */
  method Test(src: seq<byte>, kind: TableType, ip: nat, ref: nat) returns (hit: bool)
    requires ref < ip && ip + MFLIMIT < |src| && Suits(kind, |src|)
    ensures hit <==> Hit(src, ip, ref)
  {
    hit := !((!kind.ByU16? && ref + MAX_DISTANCE < ip) || src[ref..ref + MINMATCH] != src[ip..ip + MINMATCH]);
  }

  /** Moves a match back over equal bytes that are still literals. */
  method CatchUp(src: seq<byte>, anchor: nat, ip: nat, ref: nat) returns (i: nat, r: nat)
    requires anchor <= ip && Hit(src, ip, ref)
    ensures anchor <= i <= ip && r < i && i - r == ip - ref
    ensures Common(src, r, i, MINMATCH + (ip - i))
    ensures i == anchor || r == 0 || src[i - 1] != src[r - 1]
  {
    i, r := ip, ref;
    while i > anchor && r > 0 && src[i - 1] == src[r - 1]
      invariant anchor <= i <= ip && r < i && i - r == ip - ref
      invariant Common(src, r, i, MINMATCH + (ip - i))
    {
      CommonBack(src, r, i, MINMATCH + (ip - i));
      i, r := i - 1, r - 1;
    }
  }

  // ----- Encoding one sequence -----

  function Ones(k: nat): seq<byte> {
    seq(k, _ => 255)
  }

  lemma {:induction false} TailShape(n: nat)
    ensures LengthTail(n) == Ones(n / 255) + [n % 255]
  {
    if n >= 255 {
      TailShape(n - 255);
      assert Ones(n / 255) == [255] + Ones((n - 255) / 255);
    }
  }

  lemma MoreOnes(before: seq<byte>, j: nat, k: nat)
    ensures before + Ones(j) + Ones(k) == before + Ones(j + k)
  {
  }

  lemma FewerOnes(before: seq<byte>, j: nat, k: nat)
    requires k <= j
    ensures (before + Ones(j))[..|before| + k] == before + Ones(k)
  {
  }

  method Write32Ones(dest: array<byte>, op: nat)
    requires op + 4 <= dest.Length
    modifies dest
    ensures dest[..op + 4] == old(dest[..op]) + Ones(4)
  {
    forall k | 0 <= k < 4 {
      dest[op + k] := 255;
    }
  }

  /** The match length beyond its nibble: four bytes of 255 at a time, written ahead of `op`. */
  method WriteMatchTail(dest: array<byte>, op: nat, length: nat) returns (o: nat)
    requires op + |LengthTail(length)| + 8 <= dest.Length
    modifies dest
    ensures o == op + |LengthTail(length)|
    ensures dest[..o] == old(dest[..op]) + LengthTail(length)
  {
    hide LengthTail;
    TailShape(length);
    ghost var before := dest[..op];
    o := op;
    var code := length;
    Write32Ones(dest, o);
    while code >= 4 * 255
      invariant op <= o && code + 255 * (o - op) == length && 0 <= code
      invariant o + 4 + code / 255 <= dest.Length
      invariant dest[..o + 4] == before + Ones(o - op + 4)
    {
      o := o + 4;
      Write32Ones(dest, o);
      MoreOnes(before, o - op, 4);
      code := code - 4 * 255;
    }
    FewerOnes(before, o - op + 4, o - op + code / 255);
    assert dest[..o + code / 255] == dest[..o + 4][..o + code / 255];
    o := o + code / 255;
    ghost var sofar := dest[..o];
    dest[o] := code % 255;
    o := o + 1;
    assert dest[..o] == sofar + [code % 255];
  }

  method WriteMatchCode(dest: array<byte>, token: nat, op: nat, code: nat) returns (o: nat)
    requires token < op && op + |Extension(code)| + 8 <= dest.Length && dest[token] <= 240
    modifies dest
    ensures o == op + |Extension(code)|
    ensures dest[..o] == old(dest[..op])[token := old(dest[token]) + Nibble(code)] + Extension(code)
  {
    ghost var before := dest[..op];
    dest[token] := dest[token] + Nibble(code);
    assert dest[..op] == before[token := before[token] + Nibble(code)];
    o := op;
    if code >= ML_MASK {
      o := WriteMatchTail(dest, op, code - ML_MASK);
    }
  }

  /** Token and literals; a match that follows another directly has a zero token and no literals. */
  method WriteHead(dest: array<byte>, op: nat, src: seq<byte>, anchor: nat, ip: nat, chained: bool) returns (o: nat)
    requires anchor <= ip && ip + 8 <= |src| && (chained ==> anchor == ip)
    requires op + |EncodeRun(src[anchor..ip])| + 8 <= dest.Length
    modifies dest
    ensures o == op + |EncodeRun(src[anchor..ip])|
    ensures dest[..o] == old(dest[..op]) + EncodeRun(src[anchor..ip])
  {
    hide EncodeRun, Extension;
    if chained {
      EmptyRun(src[anchor..ip]);
      dest[op] := 0;
      o := op + 1;
    } else {
      assert src[anchor..anchor + (ip - anchor)] == src[anchor..ip];
      RunSize(src[anchor..ip]);
      o := WriteLiterals(dest, op, src, anchor, ip - anchor);
    }
  }

  lemma EmptyRun(literals: seq<byte>)
    requires |literals| == 0
    ensures EncodeRun(literals) == [0]
  {
    hide LengthTail;
  }

  lemma LongestIsLongest(src: seq<byte>, ref: nat, ip: nat, limit: nat, n: nat, k: nat)
    requires ref < ip <= limit <= |src| && LongestCommon(src, ref, ip, limit, n)
    requires Common(src, ref, ip, k) && ip + k <= limit
    ensures k <= n
  {
    if k > n {
      CommonAt(src, ref, ip, k, n);
    }
  }

  /** The length of a match beyond its first four bytes. */
  method Measure(src: seq<byte>, ip: nat, ref: nat, limit: nat) returns (code: nat)
    requires Hit(src, ip, ref) && ip + MINMATCH <= limit <= |src|
    ensures IsMatch(src, ip, ref, MINMATCH + code, limit)
    ensures LongestCommon(src, ref, ip, limit, MINMATCH + code)
  {
    code := Count(src, ip + MINMATCH, ref + MINMATCH, limit);
    CommonExtends(src, ref, ip, MINMATCH, code);
  }

  /** Encodes the match of `ip` with `ref`, as long as it lasts, and the literals before it. */
  method Emit(e: Encoder, ip: nat, ref: nat, chained: bool) returns (end: nat)
    requires e.Valid() && e.Roomy() && e.anchor <= ip <= |e.src| - MFLIMIT
    requires Hit(e.src, ip, ref) && (chained ==> e.anchor == ip)
    modifies e, e.dest
    ensures e.Valid() && e.Roomy() && e.anchor == end
    ensures ip + MINMATCH <= end <= |e.src| - LASTLITERALS
    ensures LongestCommon(e.src, ref, ip, |e.src| - LASTLITERALS, end - ip)
  {
    hide EncodeSequence, EncodeSequences, EncodeRun, Plain, AllPlaced, AllEncodable, Extension, Token;
    hide LongestCommon, Common;
    var code := Measure(e.src, ip, ref, |e.src| - LASTLITERALS);
    end := ip + MINMATCH + code;
    ghost var x := Sequence(e.src[e.anchor..ip], ip - ref, MINMATCH + code);
    Extend(e.src, e.emitted, e.anchor, ip, ref, MINMATCH + code);
    SequenceSize(x);
    e.op := WriteSequence(e.dest, e.op, e.src, e.anchor, ip, ip - ref, code, chained, x);
    e.anchor := end;
    e.emitted := e.emitted + [x];
  }

  method WriteSequence(dest: array<byte>, op: nat, src: seq<byte>, anchor: nat, ip: nat, offset: nat, code: nat,
                       chained: bool, ghost x: Sequence) returns (o: nat)
    requires anchor <= ip && ip + 8 <= |src| && (chained ==> anchor == ip)
    requires Encodable(x) && x == Sequence(src[anchor..ip], offset, code + MINMATCH)
    requires op + |EncodeSequence(x)| + 8 <= dest.Length
    modifies dest
    ensures o == op + |EncodeSequence(x)|
    ensures dest[..o] == old(dest[..op]) + EncodeSequence(x)
  {
    hide EncodeSequence, Extension, EncodeRun, OffsetBytes, Token;
    ghost var before := dest[..op];
    SequenceSize(x);
    RunSize(x.literals);
    o := WriteHead(dest, op, src, anchor, ip, chained);
    o := WriteOffset(dest, o, offset);
    ghost var half := dest[..o];
    SequenceFromHalves(before, x);
    assert dest[op] == half[op];
    TokenRoom(|x.literals|);
    o := WriteMatchCode(dest, op, o, code);
    TokenSum(|x.literals|, code);
  }

  // ----- The parser -----

  ghost predicate Ready(t: PositionTable, e: Encoder)
    reads e, e.dest
  {
    && e.Valid() && e.Roomy() && MFLIMIT < |e.src| && Suits(t.kind, |e.src|)
    && t.cells.Length == TableSize(t.kind)
    && e.dest as object != t.cells
  }

  method EmitBeside(t: PositionTable, e: Encoder, ip: nat, ref: nat, chained: bool) returns (end: nat)
    requires Ready(t, e) && e.anchor <= ip <= |e.src| - MFLIMIT
    requires Hit(e.src, ip, ref) && (chained ==> e.anchor == ip)
    modifies e, e.dest
    ensures Ready(t, e) && e.anchor == end
    ensures ip + MINMATCH <= end <= |e.src| - LASTLITERALS
    ensures LongestCommon(e.src, ref, ip, |e.src| - LASTLITERALS, end - ip)
    ensures t.cells[..] == old(t.cells[..])
  {
    hide Hit, LongestCommon;
    end := Emit(e, ip, ref, chained);
  }

  /** After a match: index the position before its end and its end, and test whether another match starts there. */
  method TestNext(t: PositionTable, src: seq<byte>, end: nat) returns (hit: bool, ref: nat)
    requires Suits(t.kind, |src|) && 2 <= end <= |src| - MFLIMIT && t.Below(end)
    modifies t.cells
    ensures t.Below(end + 1) && (hit <==> Hit(src, end, ref))
    ensures var cells := old(t.cells[..])[HashPosition(src, end - 2, t.kind) := end - 2];
            var h := HashPosition(src, end, t.kind);
            ref == cells[h] && t.cells[..] == cells[h := end]
  {
    hide HashPosition;
    t.Put(end - 2, HashPosition(src, end - 2, t.kind), end);
    var h := HashPosition(src, end, t.kind);
    ref := t.cells[h];
    t.Put(end, h, end + 1);
    hit := ref + MAX_DISTANCE >= end && src[ref..ref + MINMATCH] == src[end..end + MINMATCH];
  }

  method TestNextBeside(t: PositionTable, e: Encoder, end: nat) returns (hit: bool, ref: nat)
    requires Ready(t, e) && 2 <= end <= |e.src| - MFLIMIT && t.Below(end)
    modifies t.cells
    ensures Ready(t, e) && t.Below(end + 1) && (hit <==> Hit(e.src, end, ref))
    ensures t.cells[HashPosition(e.src, end, t.kind)] == end
  {
    hide Hit;
    hit, ref := TestNext(t, e.src, end);
  }

  /** Emits a match and every match that follows another directly. */
  method EmitChain(t: PositionTable, e: Encoder, first: nat, firstRef: nat, ghost seen: nat) returns (done: bool)
    requires Ready(t, e) && e.anchor <= first <= |e.src| - MFLIMIT && t.Below(seen)
    requires first < seen && seen + 3 <= |e.src| - LASTLITERALS
    requires Common(e.src, firstRef, first, seen + 3 - first) && Hit(e.src, first, firstRef)
    modifies t.cells, e, e.dest
    ensures Ready(t, e) && e.anchor >= first + MINMATCH
    ensures !done ==> e.anchor <= |e.src| - MFLIMIT && t.Below(e.anchor + 1)
    ensures !done ==> t.cells[HashPosition(e.src, e.anchor, t.kind)] == e.anchor
    ensures done ==> e.anchor > |e.src| - MFLIMIT
  {
    hide LongestCommon, Common, HashPosition, Ready;
    var ref := firstRef;
    var end := EmitBeside(t, e, first, ref, false);
    LongestIsLongest(e.src, ref, first, |e.src| - LASTLITERALS, end - first, seen + 3 - first);
    while true
      invariant Ready(t, e) && e.anchor == end && first + MINMATCH <= end && t.Below(end)
      decreases |e.src| - end
    {
      if end > |e.src| - MFLIMIT {
        return true;
      }
      var hit;
      hit, ref := TestNextBeside(t, e, end);
      if !hit {
        return false;
      }
      end := EmitBeside(t, e, end, ref, true);
    }
  }

  method SearchBeside(t: PositionTable, e: Encoder, start: nat, hash: nat)
      returns (found: bool, ip: nat, ref: nat, ghost k: nat)
    requires Ready(t, e) && t.Below(start) && 1 <= start && start + 8 <= |e.src|
    requires hash == HashPosition(e.src, start, t.kind)
    modifies t.cells
    ensures Ready(t, e)
    ensures found ==> start <= ip < |e.src| - MFLIMIT && Hit(e.src, ip, ref) && t.Below(ip + 1)
    ensures found ==> ip == Probe(start, k) && ProbeHits(e.src, t.kind, start, old(t.cells[..]), k)
    ensures !found ==> Probe(start, k + 1) + MFLIMIT > |e.src|
    ensures forall j: nat | j < k :: !ProbeHits(e.src, t.kind, start, old(t.cells[..]), j)
  {
    hide HashPosition, ProbeHits, Hit;
    found, ip, ref, k := FindMatch(e.src, t, start, hash);
  }

  /** The table before the first search: the first position has hashed to the value it was cleared to. */
  ghost function Zeros(kind: TableType): (r: seq<nat>)
    ensures |r| == TableSize(kind)
  {
    seq(TableSize(kind), _ => 0)
  }

  /** The first search goes through to the end of the source without a match. */
  ghost predicate NoProbeHits(src: seq<byte>, kind: TableType) {
    forall k: nat :: !ProbeHits(src, kind, 1, Zeros(kind), k)
  }

  lemma AllProbed(src: seq<byte>, kind: TableType, k: nat)
    requires Probe(1, k + 1) + MFLIMIT > |src|
    requires forall j: nat | j < k :: !ProbeHits(src, kind, 1, Zeros(kind), j)
    ensures NoProbeHits(src, kind)
  {
    hide Zeros, HashPosition, Hit, CellsAt;
    forall j: nat ensures !ProbeHits(src, kind, 1, Zeros(kind), j) {
      if j >= k {
        ProbeGrows(1, k + 1, j + 1);
      }
    }
  }

  lemma {:induction false} ProbeGrows(start: nat, j: nat, k: nat)
    requires j <= k
    ensures Probe(start, j) <= Probe(start, k)
    decreases k
  {
    if j < k {
      ProbeGrows(start, j, k - 1);
    }
  }

  /** A source that starts with five equal bytes is matched at its second byte, if it is long enough at all. */
  lemma FiveEqual(src: seq<byte>, kind: TableType)
    requires MFLIMIT < |src| && forall i | 0 <= i < 5 :: src[i] == src[0]
    ensures NoProbeHits(src, kind) <==> |src| < MFLIMIT + 2
  {
    hide HashPosition;
    assert Probe(1, 1) == 2;
    if |src| >= MFLIMIT + 2 {
      assert src[0..4] == src[1..5];
      assert ProbeHits(src, kind, 1, Zeros(kind), 0);
    } else {
      AllProbed(src, kind, 0);
    }
  }

  /** A text of fourteen bytes or more that starts with six equal ones. */
  predicate RunLeft(s: seq<byte>) {
    14 <= |s| && forall i | 0 <= i < 6 :: s[i] == s[0]
  }

  lemma ShortLeft(t: PositionTable, e: Encoder)
    requires Ready(t, e) && e.anchor > |e.src| - MFLIMIT
    ensures !RunLeft(e.src[e.anchor..])
  {
  }

  /** Six equal bytes after a match would be found at once: the match has left its end in the table. */
  lemma NoRunLeft(src: seq<byte>, kind: TableType, anchor: nat, start: nat, cells: seq<nat>, k: nat)
    requires start == anchor + 1 && anchor + 9 <= |src|
    requires |cells| == TableSize(kind) && cells[HashPosition(src, anchor, kind)] == anchor
    requires Probe(start, k + 1) + MFLIMIT > |src|
    requires forall j: nat | j < k :: !ProbeHits(src, kind, start, cells, j)
    ensures !RunLeft(src[anchor..])
  {
    var s := src[anchor..];
    if RunLeft(s) {
      assert forall i | 0 <= i < 6 :: src[anchor + i] == s[i];
      assert src[anchor..anchor + 5] == src[anchor + 1..anchor + 6];
      SameHash(src, anchor, anchor + 1, kind);
      assert src[anchor..anchor + 4] == src[anchor..anchor + 5][..4];
      assert src[anchor + 1..anchor + 5] == src[anchor + 1..anchor + 6][..4];
      assert Probe(start, 1) == anchor + 2;
      assert k == 0 || ProbeHits(src, kind, start, cells, 0) by { hide HashPosition; }
    }
  }

  method ParseSource(t: PositionTable, e: Encoder)
    requires Ready(t, e) && t.Below(1) && e.anchor == 0
    modifies t.cells, e, e.dest
    ensures Ready(t, e) && (e.anchor == 0 <==> NoProbeHits(e.src, t.kind))
    ensures e.anchor > 0 ==> !RunLeft(e.src[e.anchor..])
  {
    hide HashPosition, NoProbeHits;
    assert t.cells[..] == Zeros(t.kind);
    t.Put(0, HashPosition(e.src, 0, t.kind), 1);
    MainLoop(t, e);
  }

  /** The main loop, from the first byte to the point where only literals remain. */
  method MainLoop(t: PositionTable, e: Encoder)
    requires Ready(t, e) && t.Below(1) && e.anchor == 0 && MFLIMIT < |e.src| && t.cells[..] == Zeros(t.kind)
    modifies t.cells, e, e.dest
    ensures Ready(t, e) && (e.anchor == 0 <==> NoProbeHits(e.src, t.kind))
    ensures e.anchor > 0 ==> !RunLeft(e.src[e.anchor..])
  {
    hide HashPosition, Common, Ready, ProbeHits, Zeros;
    var start: nat, hash := 1, HashPosition(e.src, 1, t.kind);
    while true
      invariant Ready(t, e) && t.Below(start) && 1 <= start && e.anchor <= start && start + 8 <= |e.src|
      invariant hash == HashPosition(e.src, start, t.kind)
      invariant e.anchor == 0 ==> start == 1 && t.cells[..] == Zeros(t.kind)
      invariant e.anchor > 0 ==>
                  && !NoProbeHits(e.src, t.kind) && start == e.anchor + 1
                  && t.cells[HashPosition(e.src, e.anchor, t.kind)] == e.anchor
      decreases |e.src| - e.anchor
    {
      ghost var cells := t.cells[..];
      var found, ip, ref, k := SearchBeside(t, e, start, hash);
      if !found {
        if e.anchor == 0 {
          AllProbed(e.src, t.kind, k);
        } else {
          NoRunLeft(e.src, t.kind, e.anchor, start, cells, k);
        }
        return;
      }
      var first, firstRef := CatchUp(e.src, e.anchor, ip, ref);
      CommonPrefix(e.src, firstRef, first, MINMATCH + (ip - first), MINMATCH);
      var done := EmitChain(t, e, first, firstRef, ip + 1);
      if done {
        ShortLeft(t, e);
        return;
      }
      start := e.anchor + 1;
      hash := HashPosition(e.src, start, t.kind);
    }
  }

  /** Compression with no limit on the output beyond the bound, for a given kind of table. */
  method CompressGeneric(src: seq<byte>, dest: array<byte>, kind: TableType) returns (size: nat)
    requires CompressBound(|src|) <= dest.Length
    modifies dest
    ensures !Suits(kind, |src|) ==> size == 0
    ensures Suits(kind, |src|) ==>
              && 0 < size <= CompressBound(|src|) && ValidBlock(dest[..size]) && Decoded(dest[..size]) == src
              && (Parse(dest[..size]).value.sequences == [] <==> |src| <= MFLIMIT || NoProbeHits(src, kind))
              && (Parse(dest[..size]).value.sequences != [] ==> !RunLeft(Parse(dest[..size]).value.last))
  {
    hide ValidBlock, Decoded, Parse, NoProbeHits, RunLeft;
    if |src| > LZ4_MAX_INPUT_SIZE || (kind.ByU16? && |src| >= LZ4_64KLIMIT) {
      return 0;
    }
    var e := new Encoder(src, dest);
    if |src| >= MFLIMIT + 1 {
      var t := new PositionTable(kind);
      ParseSource(t, e);
    }
    size := e.Finish();
    ValidNotEmpty(dest[..size]);
    LiteralsAlone(dest[..size]);
  }

  function TableFor(n: nat): TableType {
    if n < LZ4_64KLIMIT then ByU16 else ByU32
  }

  /** LZ4_compress_default, given a destination of at least the compression bound. */
  method CompressDefault(src: seq<byte>, dest: array<byte>) returns (size: nat)
    requires CompressBound(|src|) <= dest.Length
    modifies dest
    ensures |src| > LZ4_MAX_INPUT_SIZE ==> size == 0
    ensures |src| <= LZ4_MAX_INPUT_SIZE ==>
              && 0 < size <= CompressBound(|src|) && ValidBlock(dest[..size]) && Decoded(dest[..size]) == src
              && (Parse(dest[..size]).value.sequences == [] <==> |src| <= MFLIMIT || NoProbeHits(src, TableFor(|src|)))
              && (Parse(dest[..size]).value.sequences != [] ==> !RunLeft(Parse(dest[..size]).value.last))
  {
    hide ValidBlock, Decoded, Parse, NoProbeHits, RunLeft;
    if |src| < LZ4_64KLIMIT {
      size := CompressGeneric(src, dest, ByU16);
    } else {
      size := CompressGeneric(src, dest, ByU32);
    }
  }
}
