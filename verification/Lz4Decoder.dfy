/**
  * LZ4_decompress_safe: the decoder that copies eight bytes at a time and lets copies
  * overshoot, for whole blocks without a dictionary.
  */
module Lz4Decoder {
  import opened Bytes
  import opened Lz4Block
  import opened Lz4Common

  // ----- Copying a match -----

  const DEC32 := [0, 1, 2, 1, 4, 4, 4, 4]
  const DEC64 := [0, 0, 0, -1, 0, 1, 2, 3]

  /** From `from` on, `r` repeats at distance `d`. */
  predicate RepeatsFrom(r: seq<byte>, d: nat, from: nat) {
    d <= from && forall i | from <= i < |r| :: r[i] == r[i - d]
  }

  lemma RepeatRepeats(out: seq<byte>, offset: nat, n: nat)
    requires 1 <= offset <= |out|
    ensures RepeatsFrom(Repeat(out, offset, n), offset, |out|)
  {
    forall i | |out| <= i < |out| + n ensures Repeat(out, offset, n)[i] == Repeat(out, offset, n)[i - offset] {
      RepeatAt(out, offset, n, i);
    }
  }

  /** What repeats at a distance also repeats at its multiples, from further on. */
  lemma {:induction false} RepeatsMultiple(r: seq<byte>, d: nat, from: nat, k: nat)
    requires RepeatsFrom(r, d, from) && 1 <= k
    ensures RepeatsFrom(r, k * d, from + (k - 1) * d)
  {
    if k > 1 {
      RepeatsMultiple(r, d, from, k - 1);
      assert k * d == (k - 1) * d + d;
      forall i | from + (k - 1) * d <= i < |r| ensures r[i] == r[i - k * d] {
        assert r[i] == r[i - (k - 1) * d];
        assert r[i - (k - 1) * d] == r[i - (k - 1) * d - d];
      }
    }
  }

  lemma {:induction false} RepeatPrefix(out: seq<byte>, offset: nat, n: nat, more: nat)
    requires n <= more
    ensures Repeat(out, offset, more)[..|out| + n] == Repeat(out, offset, n)
    decreases more
  {
    if n < more {
      RepeatPrefix(out, offset, n, more - 1);
      assert Repeat(out, offset, more)[..|out| + n] == Repeat(out, offset, more - 1)[..|out| + n];
    } else {
      assert Repeat(out, offset, more)[..|out| + n] == Repeat(out, offset, n);
    }
  }

  /** One eight-byte copy within the output. */
  method Copy8(dest: array<byte>, d: nat, s: nat, ghost r: seq<byte>)
    requires s + 8 <= d && d + 8 <= dest.Length == |r|
    requires dest[..d] == r[..d] && RepeatsFrom(r, d - s, d)
    modifies dest
    ensures dest[..d + 8] == r[..d + 8]
  {
    forall k | 0 <= k < 8 {
      dest[d + k] := dest[s + k];
    }
    forall i | 0 <= i < d + 8 ensures dest[i] == r[i] {
      if i < d {
        assert dest[..d][i] == r[..d][i];
      } else {
        assert old(dest[..d])[i - (d - s)] == r[..d][i - (d - s)];
      }
    }
  }

  /** Copies within the output, eight bytes at a time, up to `e` or as many as seven bytes past it. */
  method WildCopyWithin(dest: array<byte>, d: nat, s: nat, e: nat, ghost r: seq<byte>)
    requires s + 8 <= d < e && e + 7 <= dest.Length == |r|
    requires dest[..d] == r[..d] && RepeatsFrom(r, d - s, d)
    modifies dest
    ensures dest[..e] == r[..e]
  {
    var i := 0;
    while true
      invariant 0 <= i && d + i < e
      invariant dest[..d + i] == r[..d + i]
      decreases e - d - i
    {
      Copy8(dest, d + i, s + i, r);
      i := i + 8;
      if d + i >= e {
        break;
      }
    }
    assert dest[..e] == dest[..d + i][..e] == r[..d + i][..e] == r[..e];
  }

  method CopyByte(dest: array<byte>, d: nat, s: nat, ghost r: seq<byte>)
    requires s < d < dest.Length == |r|
    requires dest[..d] == r[..d] && r[d] == r[s]
    modifies dest
    ensures dest[..d + 1] == r[..d + 1]
  {
    assert dest[..d][s] == r[..d][s];
    dest[d] := dest[s];
    assert dest[..d] == r[..d];
  }

  method Copy4(dest: array<byte>, d: nat, s: nat, ghost r: seq<byte>)
    requires s + 4 <= d && d + 4 <= dest.Length == |r|
    requires dest[..d] == r[..d] && RepeatsFrom(r, d - s, d)
    modifies dest
    ensures dest[..d + 4] == r[..d + 4]
  {
    forall k | 0 <= k < 4 {
      dest[d + k] := dest[s + k];
    }
    forall i | 0 <= i < d + 4 ensures dest[i] == r[i] {
      if i < d {
        assert dest[..d][i] == r[..d][i];
      } else {
        assert old(dest[..d])[i - (d - s)] == r[..d][i - (d - s)];
      }
    }
  }

  lemma RepeatsLater(r: seq<byte>, d: nat, from: nat, later: nat)
    requires RepeatsFrom(r, d, from) && from <= later
    ensures RepeatsFrom(r, d, later)
  {
  }

  /** The distances that the tables set up for a short offset are multiples of it. */
  lemma TableDistances(r: seq<byte>, offset: nat, op: nat)
    requires 1 <= offset < 8 && RepeatsFrom(r, offset, op)
    ensures RepeatsFrom(r, 4 + offset - DEC32[offset], op + 4)
    ensures RepeatsFrom(r, 8 + offset - DEC32[offset] + DEC64[offset], op + 8)
  {
    var a := if offset == 1 then 4 else if offset == 2 || offset == 3 then 2 else 1;
    RepeatsMultiple(r, offset, op, a);
    RepeatsLater(r, a * offset, op + (a - 1) * offset, op + 4);
    assert a * offset == 4 + offset - DEC32[offset];
    var b := if offset == 1 then 8 else if offset == 2 then 4 else if offset == 3 then 3 else 2;
    RepeatsMultiple(r, offset, op, b);
    RepeatsLater(r, b * offset, op + (b - 1) * offset, op + 8);
    assert b * offset == 8 + offset - DEC32[offset] + DEC64[offset];
  }

  method CopyFour(dest: array<byte>, op: nat, offset: nat, ghost r: seq<byte>)
    requires 1 <= offset <= op && op + 8 <= dest.Length == |r|
    requires dest[..op] == r[..op] && RepeatsFrom(r, offset, op)
    modifies dest
    ensures dest[..op + 4] == r[..op + 4]
  {
    var m := op - offset;
    CopyByte(dest, op, m, r);
    CopyByte(dest, op + 1, m + 1, r);
    CopyByte(dest, op + 2, m + 2, r);
    CopyByte(dest, op + 3, m + 3, r);
  }

  /** The first eight bytes of a match, and where to copy on from. */
  method FirstEight(dest: array<byte>, op: nat, offset: nat, ghost r: seq<byte>) returns (m: nat)
    requires 1 <= offset <= op && op + 8 <= dest.Length == |r|
    requires dest[..op] == r[..op] && RepeatsFrom(r, offset, op)
    modifies dest
    ensures dest[..op + 8] == r[..op + 8]
    ensures m <= op && RepeatsFrom(r, op + 8 - m, op + 8)
  {
    m := op - offset;
    if offset < 8 {
      var dec64 := DEC64[offset];
      CopyFour(dest, op, offset, r);
      TableDistances(r, offset, op);
      m := m + DEC32[offset];
      Copy4(dest, op + 4, m, r);
      m := m - dec64;
    } else {
      Copy8(dest, op, m, r);
      RepeatsLater(r, offset, op, op + 8);
      m := m + 8;
    }
  }

  /** The rest of a match that ends near the end of the output. */
  method CopyNearEnd(dest: array<byte>, op: nat, m: nat, cpy: nat, ghost r: seq<byte>)
    requires m + 8 <= op <= dest.Length && cpy <= dest.Length == |r| && 7 <= dest.Length
    requires dest[..op] == r[..op] && RepeatsFrom(r, op - m, op)
    modifies dest
    ensures dest[..cpy] == r[..cpy]
  {
    var oCopyLimit := dest.Length - 7;
    var o, s := op, m;
    if o < oCopyLimit {
      WildCopyWithin(dest, o, s, oCopyLimit, r);
      s := s + (oCopyLimit - o);
      o := oCopyLimit;
    }
    while o < cpy
      invariant op <= o <= dest.Length && s + (op - m) == o
      invariant dest[..o] == r[..o]
    {
      CopyByte(dest, o, s, r);
      o, s := o + 1, s + 1;
    }
    assert dest[..cpy] == dest[..o][..cpy] == r[..o][..cpy] == r[..cpy];
  }

  /** The rest of a match that ends well before the end of the output. */
  method CopyFarFromEnd(dest: array<byte>, op: nat, m: nat, cpy: nat, ghost r: seq<byte>)
    requires m + 8 <= op <= cpy + 4 && cpy + 12 <= dest.Length == |r|
    requires dest[..op] == r[..op] && RepeatsFrom(r, op - m, op)
    modifies dest
    ensures dest[..cpy] == r[..cpy]
  {
    Copy8(dest, op, m, r);
    if cpy > op + 8 {
      RepeatsLater(r, op - m, op, op + 8);
      WildCopyWithin(dest, op + 8, m + 8, cpy, r);
    } else {
      assert dest[..cpy] == dest[..op + 8][..cpy] == r[..op + 8][..cpy] == r[..cpy];
    }
  }

  /**
    * Copies a match of `length` bytes.  It succeeds exactly when the match leaves the
    * last LASTLITERALS bytes of the output alone.
    */
  method CopyMatch(dest: array<byte>, op: nat, offset: nat, length: nat) returns (ok: bool)
    requires 1 <= offset <= op && op + MFLIMIT <= dest.Length && MINMATCH <= length
    modifies dest
    ensures ok <==> op + length <= dest.Length - LASTLITERALS
    ensures ok ==> dest[..op + length] == Repeat(old(dest[..op]), offset, length)
  {
    ghost var out := dest[..op];
    ghost var r := Repeat(out, offset, dest.Length - op);
    RepeatRepeats(out, offset, dest.Length - op);
    var m := FirstEight(dest, op, offset, r);
    var cpy := op + length;
    if cpy > dest.Length - 12 {
      if cpy > dest.Length - LASTLITERALS {
        return false;
      }
      CopyNearEnd(dest, op + 8, m, cpy, r);
    } else {
      CopyFarFromEnd(dest, op + 8, m, cpy, r);
    }
    RepeatPrefix(out, offset, length, dest.Length - op);
    ok := true;
  }

  // ----- Reading one sequence -----

  /** Where the literals that start at `ip` with their token end. */
  function LiteralsEnd(ip: nat, n: nat): nat {
    ip + 1 + |Extension(n)| + n
  }

  /** The token at `ip`, the length and the literals belong to `x`. */
  predicate AtLiterals(input: seq<byte>, ip: nat, x: Sequence) {
    var n := |x.literals|;
    && LiteralsEnd(ip, n) <= |input|
    && input[ip] / 16 == Nibble(n)
    && input[ip + 1..] == Extension(n) + input[ip + 1 + |Extension(n)|..]
    && input[ip + 1 + |Extension(n)|..LiteralsEnd(ip, n)] == x.literals
  }

  /** The offset and the match length follow, and then `rest`. */
  predicate AtCopy(input: seq<byte>, ip: nat, x: Sequence, rest: seq<byte>) {
    var p := LiteralsEnd(ip, |x.literals|);
    && Encodable(x)
    && AtLiterals(input, ip, x)
    && input[ip] % 16 == Nibble(x.matchLength - MINMATCH)
    && p + 2 <= |input| && input[p..p + 2] == OffsetBytes(x.offset)
    && input[p + 2..] == Extension(x.matchLength - MINMATCH) + rest
    && LASTLITERALS < |rest|
  }

  lemma TailStep(input: seq<byte>, i: nat, m: nat, rest: seq<byte>)
    requires i <= |input| && input[i..] == LengthTail(m) + rest
    ensures i + |LengthTail(m)| + |rest| == |input|
    ensures i < |input| && input[i] == if m < 255 then m else 255
    ensures m < 255 ==> |LengthTail(m)| == 1
    ensures m >= 255 ==> input[i + 1..] == LengthTail(m - 255) + rest && |LengthTail(m)| == 1 + |LengthTail(m - 255)|
  {
    assert input[i] == input[i..][0];
    assert input[i + 1..] == input[i..][1..];
    assert (LengthTail(m) + rest)[1..] == LengthTail(m)[1..] + rest;
  }

  /** The literal length: the tail stops early only if it cannot be followed by its literals. */
  method ReadLiteralLength(input: seq<byte>, ip: nat, nibble: nat, ghost n: nat) returns (length: nat, i: nat)
    requires ip + |Extension(n)| + n <= |input| && nibble == Nibble(n)
    requires input[ip..] == Extension(n) + input[ip + |Extension(n)|..]
    ensures length == n && i == ip + |Extension(n)|
  {
    hide LengthTail;
    length, i := nibble, ip;
    if length == RUN_MASK {
      ghost var m: nat := n - RUN_MASK;
      ghost var rest := input[ip + |Extension(n)|..];
      while true
        invariant ip <= i && length + m == n && i + |LengthTail(m)| == ip + |Extension(n)|
        invariant input[i..] == LengthTail(m) + rest
        decreases m
      {
        TailStep(input, i, m, rest);
        var s := input[i];
        i := i + 1;
        length := length + s;
        if s < 255 || i >= |input| - RUN_MASK {
          break;
        }
        m := m - 255;
      }
    }
  }

  /** The match length; reading past the point where only the last literals can follow is an error. */
  method ReadMatchLength(input: seq<byte>, ip: nat, nibble: nat, ghost code: nat, ghost rest: seq<byte>)
      returns (length: nat, i: nat, ok: bool)
    requires ip <= |input| && nibble == Nibble(code) && input[ip..] == Extension(code) + rest
    requires LASTLITERALS < |rest|
    ensures ok && length == code && i == ip + |Extension(code)|
  {
    hide LengthTail;
    length, i, ok := nibble, ip, true;
    if length == ML_MASK {
      ghost var m: nat := code - ML_MASK;
      while true
        invariant ip <= i <= |input| && length + m == code && i + |LengthTail(m)| == ip + |Extension(code)|
        invariant input[i..] == LengthTail(m) + rest && ok
        decreases m
      {
        TailStep(input, i, m, rest);
        var s := input[i];
        i := i + 1;
        ok := i <= |input| - LASTLITERALS;
        if !ok {
          return;
        }
        length := length + s;
        if s < 255 {
          break;
        }
        m := m - 255;
      }
    }
  }

  /** What one round of the main loop comes to. */
  datatype Outcome = More(ip: nat, op: nat) | Done(op: nat) | Error(ip: nat)

  /**
    * One round of the main loop, on the sequence `x` (its literals only, when it is the
    * closing run).  It fails exactly when the output would leave too little room.
    */
  method DecodeOne(input: seq<byte>, start: nat, dest: array<byte>, op: nat,
                   ghost x: Sequence, ghost rest: seq<byte>, ghost closing: bool) returns (r: Outcome)
    requires AtLiterals(input, start, x) && op <= dest.Length
    requires closing ==> LiteralsEnd(start, |x.literals|) == |input|
    requires !closing ==> AtCopy(input, start, x, rest) && x.offset <= op + |x.literals|
    modifies dest
    ensures closing ==>
              if op + |x.literals| <= dest.Length
              then r == Done(op + |x.literals|) && dest[..r.op] == old(dest[..op]) + x.literals
              else r.Error?
    ensures !closing ==>
              if Placed(op, x, dest.Length - MFLIMIT, dest.Length - LASTLITERALS)
              then && r == More(start + |EncodeSequence(x)|, op + |x.literals| + x.matchLength)
                   && dest[..r.op] == Repeat(old(dest[..op]) + x.literals, x.offset, x.matchLength)
              else r.Error?
  {
    hide Repeat, EncodeSequence, Extension, Nibble;
    if !closing {
      SequenceParts(x, []);
    }
    var token := input[start];
    var length, ip := ReadLiteralLength(input, start + 1, token / 16, |x.literals|);
    var cpy := op + length;
    if cpy > dest.Length - MFLIMIT || ip + length > |input| - (2 + 1 + LASTLITERALS) {
      if ip + length != |input| || cpy > dest.Length {
        return Error(ip);
      }
      CopyExactly(dest, op, input, ip, length);
      return Done(cpy);
    }
    WildCopy(dest, op, input, ip, cpy);
    r := DecodeCopy(input, ip + length, dest, cpy, token, x, rest);
  }

  lemma OffsetRead(input: seq<byte>, start: nat, offset: nat)
    requires offset <= MAX_DISTANCE && start + 2 <= |input| && input[start..start + 2] == OffsetBytes(offset)
    ensures input[start] as int + 256 * input[start + 1] as int == offset
  {
    assert input[start] == input[start..start + 2][0] && input[start + 1] == input[start..start + 2][1];
  }

  /** The second half of a round: offset, match length and match. */
  method DecodeCopy(input: seq<byte>, start: nat, dest: array<byte>, op: nat, token: byte,
                    ghost x: Sequence, ghost rest: seq<byte>) returns (r: Outcome)
    requires Encodable(x) && start + 2 <= |input| && token % 16 == Nibble(x.matchLength - MINMATCH)
    requires input[start..start + 2] == OffsetBytes(x.offset)
    requires input[start + 2..] == Extension(x.matchLength - MINMATCH) + rest && LASTLITERALS < |rest|
    requires x.offset <= op && op + MFLIMIT <= dest.Length
    modifies dest
    ensures if op + x.matchLength <= dest.Length - LASTLITERALS
            then && r == More(start + 2 + |Extension(x.matchLength - MINMATCH)|, op + x.matchLength)
                 && dest[..r.op] == Repeat(old(dest[..op]), x.offset, x.matchLength)
            else r.Error?
  {
    hide Extension, Repeat, OffsetBytes;
    OffsetRead(input, start, x.offset);
    var lo: int, hi: int := input[start], input[start + 1];
    var offset := lo + 256 * hi;
    var ip: nat := start + 2;
    if op - offset < 0 {
      return Error(ip);
    }
    WriteOffset32(dest, op, offset);
    var length, i, ok := ReadMatchLength(input, ip, token % 16, x.matchLength - MINMATCH, rest);
    if !ok {
      return Error(i);
    }
    ok := CopyMatch(dest, op, offset, length + MINMATCH);
    if !ok {
      return Error(i);
    }
    r := More(i, op + length + MINMATCH);
  }

  /** The four bytes written at the output's end before the match overwrites them. */
  method WriteOffset32(dest: array<byte>, op: nat, offset: nat)
    requires op + 4 <= dest.Length && offset <= MAX_DISTANCE
    modifies dest
    ensures dest[..op] == old(dest[..op])
  {
    dest[op] := offset % 256;
    dest[op + 1] := offset / 256;
    dest[op + 2] := 0;
    dest[op + 3] := 0;
  }

  // ----- Decoding a block -----

  lemma Shifted(prefix: seq<byte>, s: seq<byte>, i: nat, j: nat)
    requires i <= j <= |s|
    ensures (prefix + s)[|prefix| + i..] == s[i..]
    ensures (prefix + s)[|prefix| + i..|prefix| + j] == s[i..j]
  {
  }

  lemma SequenceAtFront(x: Sequence, rest: seq<byte>)
    requires Encodable(x) && LASTLITERALS < |rest|
    ensures AtCopy(EncodeSequence(x) + rest, 0, x, rest)
  {
    hide EncodeSequence, Extension, OffsetBytes, Token;
    var s := EncodeSequence(x) + rest;
    SequenceParts(x, rest);
    SequenceTail(s, x, 1 + |Extension(|x.literals|)| + |x.literals|, rest);
    TokenParts(|x.literals|, x.matchLength - MINMATCH);
  }

  lemma AtShifted(prefix: seq<byte>, s: seq<byte>, x: Sequence, rest: seq<byte>)
    requires AtCopy(s, 0, x, rest)
    ensures AtCopy(prefix + s, |prefix|, x, rest)
  {
    hide Extension, OffsetBytes;
    var e, p := 1 + |Extension(|x.literals|)|, LiteralsEnd(0, |x.literals|);
    Shifted(prefix, s, 1, 1);
    Shifted(prefix, s, e, p);
    Shifted(prefix, s, p, p + 2);
    Shifted(prefix, s, p + 2, p + 2);
    assert (prefix + s)[|prefix|] == s[0];
  }

  lemma TokenParts(n: nat, code: nat)
    ensures Token(n, code) / 16 == Nibble(n) && Token(n, code) % 16 == Nibble(code)
  {
  }

  lemma SequenceTail(s: seq<byte>, x: Sequence, p: nat, rest: seq<byte>)
    requires Encodable(x) && p <= |s| && p == 1 + |Extension(|x.literals|)| + |x.literals|
    requires s[1..] == Extension(|x.literals|) + (x.literals + s[p..])
    requires s[p..] == OffsetBytes(x.offset) + (Extension(x.matchLength - MINMATCH) + rest)
    ensures s[1..] == Extension(|x.literals|) + s[1 + |Extension(|x.literals|)|..]
    ensures p + 2 <= |s| && s[p..p + 2] == OffsetBytes(x.offset)
    ensures s[p + 2..] == Extension(x.matchLength - MINMATCH) + rest
  {
    hide Extension;
    var t := s[p..];
    assert s[p..p + 2] == t[..2];
    assert s[p + 2..] == t[2..];
    var e := |Extension(|x.literals|)|;
    assert s[1 + e..] == s[1..][e..];
  }

  lemma RunIsAt(prefix: seq<byte>, x: Sequence)
    ensures AtLiterals(prefix + EncodeRun(x.literals), |prefix|, x)
    ensures LiteralsEnd(|prefix|, |x.literals|) == |prefix + EncodeRun(x.literals)|
  {
    var s := EncodeRun(x.literals);
    var e := 1 + |Extension(|x.literals|)|;
    assert s[1..] == Extension(|x.literals|) + x.literals;
    assert s[e..] == x.literals;
    hide Extension;
    Shifted(prefix, s, 1, 1);
    Shifted(prefix, s, e, |s|);
    assert (prefix + s)[|prefix|] == s[0];
  }

  lemma EncodeTake(ss: seq<Sequence>, k: nat)
    requires k < |ss| && AllEncodable(ss)
    ensures EncodeSequences(ss[..k + 1]) == EncodeSequences(ss[..k]) + EncodeSequence(ss[k])
  {
    hide EncodeSequence;
    assert ss[..k + 1][..k] == ss[..k];
  }

  lemma EncodeDrop(ss: seq<Sequence>, k: nat)
    requires k < |ss| && AllEncodable(ss)
    ensures EncodeSequences(ss[k..]) == EncodeSequence(ss[k]) + EncodeSequences(ss[k + 1..])
  {
    hide EncodeSequence, EncodeSequences;
    EncodeSequencesFront(ss[k..]);
    assert ss[k..][1..] == ss[k + 1..];
  }

  lemma {:induction false} EncodeSplit(ss: seq<Sequence>, k: nat)
    requires k <= |ss| && AllEncodable(ss)
    ensures EncodeSequences(ss) == EncodeSequences(ss[..k]) + EncodeSequences(ss[k..])
    decreases |ss| - k
  {
    hide EncodeSequence, EncodeSequences;
    if k == |ss| {
      assert ss[..k] == ss && ss[k..] == [];
      NoSequence();
    } else {
      EncodeSplit(ss, k + 1);
      EncodeTake(ss, k);
      EncodeDrop(ss, k);
      Grouped(EncodeSequences(ss[..k]), EncodeSequence(ss[k]), EncodeSequences(ss[k + 1..]));
    }
  }

  /** What follows the first `k + 1` sequences of a block. */
  function After(b: Block, k: nat): seq<byte>
    requires k < |b.sequences| && AllEncodable(b.sequences)
  {
    EncodeSequences(b.sequences[k + 1..]) + EncodeRun(b.last)
  }

  lemma EncodeAround(b: Block, k: nat)
    requires AllEncodable(b.sequences) && k < |b.sequences|
    ensures Encode(b) == EncodeSequences(b.sequences[..k]) + (EncodeSequence(b.sequences[k]) + After(b, k))
  {
    hide EncodeSequence, EncodeSequences, EncodeRun;
    EncodeSplit(b.sequences, k);
    EncodeDrop(b.sequences, k);
  }

  lemma BlockAt(b: Block, k: nat)
    requires AllEncodable(b.sequences) && k < |b.sequences| && LASTLITERALS <= |b.last|
    ensures AtCopy(Encode(b), |EncodeSequences(b.sequences[..k])|, b.sequences[k], After(b, k))
  {
    hide EncodeSequence, EncodeSequences, Encode, AtCopy;
    EncodeAround(b, k);
    SequenceAtFront(b.sequences[k], After(b, k));
    AtShifted(EncodeSequences(b.sequences[..k]), EncodeSequence(b.sequences[k]) + After(b, k), b.sequences[k],
        After(b, k));
  }

  /** The rules leave at least LASTLITERALS literals after the last copy. */
  lemma LastLiteralsFollow(b: Block)
    requires WellFormed(b) && b.sequences != []
    ensures LASTLITERALS <= |b.last|
  {
    var i := |b.sequences| - 1;
    assert Placed(|Plain(b.sequences[..i])|, b.sequences[i], |Text(b)| - MFLIMIT, |Text(b)| - LASTLITERALS);
  }

  /** The only valid block for the empty text is a single zero byte. */
  lemma EmptyBlock(b: Block)
    requires WellFormed(b) && AllEncodable(b.sequences)
    ensures Text(b) == [] <==> Encode(b) == [0]
  {
    if b.sequences == [] {
      assert Encode(b) == EncodeRun(b.last);
      if b.last == [] {
        assert EncodeRun(b.last) == [0];
      }
    } else {
      LastLiteralsFollow(b);
      assert |EncodeRun(b.last)| > 1;
    }
  }

  /**
    * For every valid block and every size of output: decoding succeeds exactly when the
    * text fits, and then the output holds the text.  The result is the number of bytes,
    * or negative.
    */
  method DecompressSafe(input: seq<byte>, dest: array<byte>) returns (r: int)
    requires ValidBlock(input)
    modifies dest
    ensures r >= 0 <==> |Decoded(input)| <= dest.Length
    ensures r >= 0 ==> r == |Decoded(input)| && dest[..r] == Decoded(input)
  {
    ghost var b := Parse(input).value;
    PlacedEncodable(b.sequences, |Text(b)| - MFLIMIT, |Text(b)| - LASTLITERALS);
    if dest.Length == 0 {
      EmptyBlock(b);
      return if |input| == 1 && input[0] == 0 then 0 else -1;
    }
    r := DecodeAll(input, dest, b);
  }

  method DecodeAll(input: seq<byte>, dest: array<byte>, ghost b: Block) returns (r: int)
    requires WellFormed(b) && AllEncodable(b.sequences) && input == Encode(b)
    modifies dest
    ensures r >= 0 <==> |Text(b)| <= dest.Length
    ensures r >= 0 ==> r == |Text(b)| && dest[..r] == Text(b)
  {
    hide EncodeSequence, EncodeSequences, EncodeRun, Encode, AtCopy, AtLiterals, Plain, Repeat;
    var ip: nat, op: nat := 0, 0;
    ghost var ss, k := b.sequences, 0;
    assert EncodeSequences(ss[..0]) == [] && Plain(ss[..0]) == [] by { NothingYet(ss); }
    while true
      invariant 0 <= k <= |ss| && ip == |EncodeSequences(ss[..k])|
      invariant op <= dest.Length && dest[..op] == Plain(ss[..k])
      decreases |ss| - k
    {
      ghost var x, rest := PartAt(b, k);
      var o := DecodeOne(input, ip, dest, op, x, rest, k == |ss|);
      match o {
        case Done(size) => return size;
        case Error(at) => return -1 - at;
        case More(i, size) =>
          StepOver(b, k);
          ip, op, k := i, size, k + 1;
      }
    }
  }

  lemma NothingYet(ss: seq<Sequence>)
    ensures EncodeSequences(ss[..0]) == [] && Plain(ss[..0]) == []
  {
    assert ss[..0] == [];
  }

  lemma StepOver(b: Block, k: nat)
    requires AllEncodable(b.sequences) && k < |b.sequences|
    ensures
      var ss, x := b.sequences, b.sequences[k];
      && EncodeSequences(ss[..k + 1]) == EncodeSequences(ss[..k]) + EncodeSequence(x)
      && Plain(ss[..k + 1]) == Repeat(Plain(ss[..k]) + x.literals, x.offset, x.matchLength)
  {
    hide EncodeSequence, Repeat;
    EncodeTake(b.sequences, k);
    assert b.sequences[..k + 1][..k] == b.sequences[..k];
  }

  /** The sequence (or the closing run) that the decoder meets after the first `k`. */
  lemma PartAt(b: Block, k: nat) returns (x: Sequence, rest: seq<byte>)
    requires WellFormed(b) && AllEncodable(b.sequences) && k <= |b.sequences|
    ensures AtLiterals(Encode(b), |EncodeSequences(b.sequences[..k])|, x)
    ensures k == |b.sequences| ==>
              && x.literals == b.last && Text(b) == Plain(b.sequences[..k]) + x.literals
              && LiteralsEnd(|EncodeSequences(b.sequences[..k])|, |x.literals|) == |Encode(b)|
    ensures k < |b.sequences| ==>
              && x == b.sequences[k]
              && AtCopy(Encode(b), |EncodeSequences(b.sequences[..k])|, x, rest)
              && Placed(|Plain(b.sequences[..k])|, x, |Text(b)| - MFLIMIT, |Text(b)| - LASTLITERALS)
  {
    hide EncodeSequence, EncodeSequences, EncodeRun, AtLiterals, Plain;
    if k < |b.sequences| {
      LastLiteralsFollow(b);
      x, rest := b.sequences[k], After(b, k);
      BlockAt(b, k);
    } else {
      x, rest := Sequence(b.last, 0, 0), [];
      assert b.sequences[..k] == b.sequences;
      RunIsAt(EncodeSequences(b.sequences), x);
    }
  }
}
