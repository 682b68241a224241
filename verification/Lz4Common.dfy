/**
  * The memory routines the LZ4 compressors and the decoder share: counting common
  * bytes, copying eight bytes at a time with overshoot, and writing lengths.
  *
  * Source text is a sequence that is only read; the output is an array written in
  * place, with `op` the index of the next byte.  Overshoot leaves bytes at and after
  * `op` unspecified, so contracts speak of `dest[..op]`.
  */
module Lz4Common {
  import opened Bytes
  import opened Lz4Block
  import opened Lz4Words

  const LZ4_MAX_INPUT_SIZE := 0x7E000000

  function CompressBound(n: int): int {
    if 0 <= n <= LZ4_MAX_INPUT_SIZE then n + n / 255 + 16 else 0
  }

  /** The two numbers of the header: the largest input, and what is allowed for it to grow. */
  lemma BoundIs(n: nat)
    ensures n <= 0x7E00_0000 ==> CompressBound(n) == n + n / 255 + 16
    ensures n > 0x7E00_0000 ==> CompressBound(n) == 0
  {
  }

  // ----- Counting common bytes -----

  /** `n` bytes at `a` equal the `n` bytes at `b`, and `n` cannot grow below `limit`. */
  predicate LongestCommon(src: seq<byte>, a: nat, b: nat, limit: nat, n: nat)
    requires a <= b <= limit <= |src|
  {
    && b + n <= limit
    && src[a..a + n] == src[b..b + n]
    && (b + n < limit ==> src[a + n] != src[b + n])
  }

  lemma CommonExtends(src: seq<byte>, a: nat, b: nat, n: nat, k: nat)
    requires a <= b && b + n + k <= |src|
    requires src[a..a + n] == src[b..b + n]
    requires src[a + n..a + n + k] == src[b + n..b + n + k]
    ensures src[a..a + n + k] == src[b..b + n + k]
  {
    assert src[a..a + n + k] == src[a..a + n] + src[a + n..a + n + k];
    assert src[b..b + n + k] == src[b..b + n] + src[b + n..b + n + k];
  }

  lemma Window(src: seq<byte>, i: nat, k: nat)
    requires i + 8 <= |src| && k < 8
    ensures src[i..i + 8][..k] == src[i..i + k] && src[i..i + 8][k] == src[i + k]
  {
  }

  /** Eight bytes that differ first at `k` end the common run there. */
  lemma StopsWithin(src: seq<byte>, a: nat, b: nat, limit: nat, n: nat, k: nat)
    requires a <= b && b + n + 8 <= limit <= |src| && k < 8
    requires src[a..a + n] == src[b..b + n]
    requires src[a + n..a + n + 8][..k] == src[b + n..b + n + 8][..k]
    requires src[a + n..a + n + 8][k] != src[b + n..b + n + 8][k]
    ensures LongestCommon(src, a, b, limit, n + k)
  {
    Window(src, a + n, k);
    Window(src, b + n, k);
    CommonExtends(src, a, b, n, k);
  }

  method Count(src: seq<byte>, pIn: nat, pMatch: nat, limit: nat) returns (n: nat)
    requires pMatch <= pIn <= limit <= |src|
    ensures LongestCommon(src, pMatch, pIn, limit, n)
  {
    hide Difference, NbCommonBytes, LongestCommon;
    n := 0;
    while pIn + n < limit - 7
      invariant pIn + n <= limit
      invariant src[pMatch..pMatch + n] == src[pIn..pIn + n]
    {
      var x, y := src[pMatch + n..pMatch + n + 8], src[pIn + n..pIn + n + 8];
      var diff := Difference(x, y);
      FirstDifference(x, y);
      if diff != 0 {
        var k := NbCommonBytes(diff);
        StopsWithin(src, pMatch, pIn, limit, n, k);
        n := n + k;
        return;
      }
      CommonExtends(src, pMatch, pIn, n, 8);
      n := n + 8;
    }
    n := CountTail(src, pIn, pMatch, limit, n);
  }

  /** No further `w` common bytes below the limit. */
  predicate Stuck(src: seq<byte>, a: nat, b: nat, limit: nat, w: nat)
    requires a <= b <= limit <= |src|
  {
    b + w > limit || src[a..a + w] != src[b..b + w]
  }

  lemma StuckHalf(src: seq<byte>, a: nat, b: nat, limit: nat, w: nat)
    requires a <= b && b + w <= limit <= |src|
    requires Stuck(src, a, b, limit, 2 * w) && src[a..a + w] == src[b..b + w]
    ensures Stuck(src, a + w, b + w, limit, w)
  {
    if b + 2 * w <= limit && src[a + w..a + w + w] == src[b + w..b + w + w] {
      CommonExtends(src, a, b, w, w);
    }
  }

  /** The last seven bytes at most: four, then two, then one. */
  method CountTail(src: seq<byte>, pIn: nat, pMatch: nat, limit: nat, k: nat) returns (n: nat)
    requires pMatch <= pIn && limit - 8 < pIn + k <= limit <= |src|
    requires src[pMatch..pMatch + k] == src[pIn..pIn + k]
    ensures LongestCommon(src, pMatch, pIn, limit, n)
  {
    n := CountStep(src, pIn, pMatch, limit, k, 4);
    n := CountStep(src, pIn, pMatch, limit, n, 2);
    n := CountStep(src, pIn, pMatch, limit, n, 1);
    if pIn + n < limit {
      assert src[pMatch + n..pMatch + n + 1] == [src[pMatch + n]];
      assert src[pIn + n..pIn + n + 1] == [src[pIn + n]];
    }
  }

  method CountStep(src: seq<byte>, pIn: nat, pMatch: nat, limit: nat, k: nat, w: nat) returns (n: nat)
    requires pMatch <= pIn && pIn + k <= limit <= |src|
    requires src[pMatch..pMatch + k] == src[pIn..pIn + k]
    requires Stuck(src, pMatch + k, pIn + k, limit, 2 * w)
    ensures pIn + n <= limit && src[pMatch..pMatch + n] == src[pIn..pIn + n]
    ensures Stuck(src, pMatch + n, pIn + n, limit, w)
  {
    n := k;
    if pIn + n < limit - (w - 1) && src[pMatch + n..pMatch + n + w] == src[pIn + n..pIn + n + w] {
      CommonExtends(src, pMatch, pIn, n, w);
      StuckHalf(src, pMatch + n, pIn + n, limit, w);
      n := n + w;
    }
  }

  // ----- Matches -----

  predicate Common(src: seq<byte>, ref: nat, start: nat, n: nat) {
    ref <= start && start + n <= |src| && src[ref..ref + n] == src[start..start + n]
  }

  /** `n` bytes at `start` repeat the bytes at `ref`, within reach and ending by `limit`. */
  predicate IsMatch(src: seq<byte>, start: nat, ref: nat, n: nat, limit: nat) {
    && ref < start <= ref + MAX_DISTANCE
    && MINMATCH <= n && start + n <= limit
    && Common(src, ref, start, n)
  }

  /** The match cannot be extended: it ends at the limit or before a byte that differs. */
  predicate Ends(src: seq<byte>, start: nat, ref: nat, n: nat, limit: nat) {
    start + n == limit || (ref <= start && start + n < |src| && src[ref + n] != src[start + n])
  }

  /** A match that is as long as it can be. */
  predicate FullMatch(src: seq<byte>, start: nat, ref: nat, n: nat, limit: nat) {
    IsMatch(src, start, ref, n, limit) && Ends(src, start, ref, n, limit)
  }

  lemma CommonAt(src: seq<byte>, ref: nat, start: nat, n: nat, k: nat)
    requires Common(src, ref, start, n) && k < n
    ensures src[ref + k] == src[start + k]
  {
    assert src[ref..ref + n][k] == src[start..start + n][k];
  }

  lemma CommonPrefix(src: seq<byte>, ref: nat, start: nat, n: nat, k: nat)
    requires Common(src, ref, start, n) && k <= n
    ensures Common(src, ref, start, k)
  {
    assert src[ref..ref + k] == src[ref..ref + n][..k];
    assert src[start..start + k] == src[start..start + n][..k];
  }

  lemma CommonSuffix(src: seq<byte>, ref: nat, start: nat, n: nat, k: nat)
    requires Common(src, ref, start, n) && k <= n
    ensures Common(src, ref + k, start + k, n - k)
  {
    assert src[ref + k..ref + n] == src[ref..ref + n][k..];
    assert src[start + k..start + n] == src[start..start + n][k..];
  }

  lemma CommonBack(src: seq<byte>, ref: nat, start: nat, n: nat)
    requires 0 < ref && Common(src, ref, start, n) && 0 < start && src[start - 1] == src[ref - 1]
    ensures Common(src, ref - 1, start - 1, n + 1)
  {
    assert src[ref - 1..ref + n] == [src[ref - 1]] + src[ref..ref + n];
    assert src[start - 1..start + n] == [src[start - 1]] + src[start..start + n];
  }

  // ----- Copying and writing -----

  method Store8(dest: array<byte>, d: nat, src: seq<byte>, s: nat, ghost left: nat)
    requires d + left + 8 <= dest.Length && s + 8 <= |src|
    modifies dest
    ensures dest[..d + 8] == old(dest[..d]) + src[s..s + 8]
    ensures dest[d + left + 8..] == old(dest[d + left + 8..])
  {
    forall k | 0 <= k < 8 {
      dest[d + k] := src[s + k];
    }
  }

  lemma JoinSlices(before: seq<byte>, src: seq<byte>, s: nat, i: nat, k: nat)
    requires s + i + k <= |src|
    ensures before + src[s..s + i] + src[s + i..s + i + k] == before + src[s..s + i + k]
  {
  }

  /** Copies at least `e - d` bytes, eight at a time; up to eight bytes past `e` may change. */
  method WildCopy(dest: array<byte>, d: nat, src: seq<byte>, s: nat, e: nat)
    requires d <= e && e + 8 <= dest.Length && s + (e - d) + 8 <= |src|
    modifies dest
    ensures dest[..e] == old(dest[..d]) + src[s..s + (e - d)]
    ensures dest[e + 8..] == old(dest[e + 8..])
  {
    var i := 0;
    ghost var before, after := dest[..d], dest[e + 8..];
    while true
      invariant 0 <= i && (i == 0 || d + i < e)
      invariant dest[..d + i] == before + src[s..s + i]
      invariant dest[e + 8..] == after
      decreases e - d - i
    {
      Store8(dest, d + i, src, s + i, e - d - i);
      JoinSlices(before, src, s, i, 8);
      i := i + 8;
      if d + i >= e {
        break;
      }
    }
    assert dest[..e] == dest[..d + i][..e];
  }

  method CopyExactly(dest: array<byte>, d: nat, src: seq<byte>, s: nat, n: nat)
    requires d + n <= dest.Length && s + n <= |src|
    modifies dest
    ensures dest[..d + n] == old(dest[..d]) + src[s..s + n]
    ensures dest[d + n..] == old(dest[d + n..])
  {
    forall k | 0 <= k < n {
      dest[d + k] := src[s + k];
    }
  }

  lemma Associate(a: seq<byte>, b: seq<byte>, c: seq<byte>, d: seq<byte>)
    ensures a + b + c + d == a + (b + c + d)
  {
  }

  method PutByte(dest: array<byte>, o: nat, b: byte)
    requires o < dest.Length
    modifies dest
    ensures dest[..o + 1] == old(dest[..o]) + [b]
    ensures dest[o + 1..] == old(dest[o..])[1..]
  {
    dest[o] := b;
  }

  /** Writes a length beyond its nibble. */
  method WriteTail(dest: array<byte>, op: nat, length: nat) returns (o: nat)
    requires op + length / 255 + 1 <= dest.Length
    modifies dest
    ensures o == op + |LengthTail(length)| <= dest.Length
    ensures dest[..o] == old(dest[..op]) + LengthTail(length)
    ensures dest[o..] == old(dest[o..])
  {
    o := op;
    var len := length;
    ghost var result, start := dest[..op] + LengthTail(length), dest[..];
    assert dest[o..] == start[o..];
    while len >= 255
      invariant op <= o && o + |LengthTail(len)| == op + |LengthTail(length)|
      invariant dest[..o] + LengthTail(len) == result
      invariant dest[o..] == start[o..]
    {
      ghost var before := dest[..o];
      PutByte(dest, o, 255);
      assert start[o + 1..] == start[o..][1..];
      assert before + LengthTail(len) == (before + [255]) + LengthTail(len - 255);
      o := o + 1;
      len := len - 255;
    }
    PutByte(dest, o, len);
    assert start[o + 1..] == start[o..][1..];
    o := o + 1;
  }

  method WriteRunLength(dest: array<byte>, op: nat, n: nat) returns (o: nat)
    requires op + 1 + |Extension(n)| <= dest.Length
    modifies dest
    ensures o == op + 1 + |Extension(n)|
    ensures dest[..o] == old(dest[..op]) + [Token(n, 0)] + Extension(n)
    ensures dest[o..] == old(dest[o..])
  {
    ghost var before := dest[..op];
    if n >= RUN_MASK {
      dest[op] := RUN_MASK * 16;
      assert dest[..op + 1] == before + [Token(n, 0)];
      o := WriteTail(dest, op + 1, n - RUN_MASK);
    } else {
      dest[op] := n * 16;
      o := op + 1;
      assert dest[..o] == before + [Token(n, 0)];
    }
  }

  /** Token, literal length and literals, copied with overshoot. */
  method WriteLiterals(dest: array<byte>, op: nat, src: seq<byte>, anchor: nat, n: nat) returns (o: nat)
    requires anchor + n + 8 <= |src|
    requires op + 1 + |Extension(n)| + n + 8 <= dest.Length
    modifies dest
    ensures o == op + 1 + |Extension(n)| + n
    ensures dest[..o] == old(dest[..op]) + EncodeRun(src[anchor..anchor + n])
  {
    hide Extension, Token;
    ghost var before := dest[..op];
    o := WriteRunLength(dest, op, n);
    WildCopy(dest, o, src, anchor, o + n);
    o := o + n;
    Associate(before, [Token(n, 0)], Extension(n), src[anchor..anchor + n]);
  }

  /** The closing run of literals, copied exactly. */
  method WriteLastLiterals(dest: array<byte>, op: nat, src: seq<byte>, anchor: nat, n: nat) returns (o: nat)
    requires anchor + n <= |src|
    requires op + 1 + |Extension(n)| + n <= dest.Length
    modifies dest
    ensures o == op + 1 + |Extension(n)| + n
    ensures dest[..o] == old(dest[..op]) + EncodeRun(src[anchor..anchor + n])
    ensures dest[o..] == old(dest[o..])
  {
    hide Extension, Token;
    ghost var before := dest[..op];
    o := WriteRunLength(dest, op, n);
    CopyExactly(dest, o, src, anchor, n);
    o := o + n;
    Associate(before, [Token(n, 0)], Extension(n), src[anchor..anchor + n]);
  }

  method WriteOffset(dest: array<byte>, op: nat, offset: nat) returns (o: nat)
    requires offset <= MAX_DISTANCE && op + 2 <= dest.Length
    modifies dest
    ensures o == op + 2
    ensures dest[..o] == old(dest[..op]) + OffsetBytes(offset)
  {
    dest[op] := offset % 256;
    dest[op + 1] := offset / 256;
    o := op + 2;
  }

  /** Adding the match nibble to the token turns the two halves into one sequence. */
  lemma SequenceFromHalves(before: seq<byte>, x: Sequence)
    requires Encodable(x)
    ensures
      var code := x.matchLength - MINMATCH;
      var half := before + EncodeRun(x.literals) + OffsetBytes(x.offset);
      && |before| < |half|
      && half[|before|] == Token(|x.literals|, 0)
      && half[|before| := Token(|x.literals|, code)] + Extension(code) == before + EncodeSequence(x)
  {
    hide Token, Extension;
    var code := x.matchLength - MINMATCH;
    SetToken(before, Token(|x.literals|, 0), Token(|x.literals|, code),
      Extension(|x.literals|), x.literals, OffsetBytes(x.offset), Extension(code));
  }

  lemma SetToken(a: seq<byte>, t: byte, t': byte, b: seq<byte>, c: seq<byte>, d: seq<byte>, e: seq<byte>)
    ensures
      var half := a + ([t] + b + c) + d;
      && |a| < |half| && half[|a|] == t
      && half[|a| := t'] + e == a + ([t'] + b + c + d + e)
  {
    var half := a + ([t] + b + c) + d;
    var rest := b + c + d;
    assert half == a + [t] + rest;
    assert half[|a| := t'] == a + [t'] + rest;
    assert [t'] + b + c + d + e == [t'] + rest + e;
  }

  lemma TokenRoom(n: nat)
    ensures Token(n, 0) <= 240
  {
  }

  lemma TokenSum(n: nat, code: nat)
    ensures Token(n, 0) as int + Nibble(code) == Token(n, code)
  {
  }
}
