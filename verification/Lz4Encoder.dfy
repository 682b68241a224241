/**
  * The output side common to the compressors: a destination array, the next free byte
  * `op`, and the source position `anchor` up to which the text has been encoded.
  */
module Lz4Encoder {
  import opened Bytes
  import opened Lz4Block
  import opened Lz4Common

  // ----- The size of the output -----

  /** What keeps the worst case within the compression bound: at most 256 bytes out for 255 in. */
  lemma TailSize(n: nat)
    ensures 255 * |LengthTail(n)| <= n + 255
  {
  }

  lemma SequenceSize(x: Sequence)
    requires Encodable(x)
    ensures |EncodeSequence(x)| == 3 + |Extension(|x.literals|)| + |x.literals| + |Extension(x.matchLength - MINMATCH)|
    ensures 255 * |EncodeSequence(x)| <= 256 * (|x.literals| + x.matchLength)
  {
    hide LengthTail;
    var n, code := |x.literals|, x.matchLength - MINMATCH;
    if n >= RUN_MASK {
      TailSize(n - RUN_MASK);
    }
    if code >= ML_MASK {
      TailSize(code - ML_MASK);
    }
  }

  lemma RunSize(literals: seq<byte>)
    ensures |EncodeRun(literals)| == 1 + |Extension(|literals|)| + |literals|
    ensures 255 * |EncodeRun(literals)| <= 256 * |literals| + 510
  {
    hide LengthTail;
    if |literals| >= RUN_MASK {
      TailSize(|literals| - RUN_MASK);
    }
  }

  // ----- Encoders -----

  /** Encoding the literals up to a match and the match extends the encoded text to its end. */
  lemma Extend(src: seq<byte>, emitted: seq<Sequence>, anchor: nat, start: nat, ref: nat, n: nat)
    requires anchor <= start <= |src| - MFLIMIT && IsMatch(src, start, ref, n, |src| - LASTLITERALS)
    requires AllPlaced(emitted, |src| - MFLIMIT, |src| - LASTLITERALS)
    requires Plain(emitted) == src[..anchor]
    ensures
      var x := Sequence(src[anchor..start], start - ref, n);
      && Encodable(x)
      && AllEncodable(emitted) && AllEncodable(emitted + [x])
      && AllPlaced(emitted + [x], |src| - MFLIMIT, |src| - LASTLITERALS)
      && Plain(emitted + [x]) == src[..start + n]
      && EncodeSequences(emitted + [x]) == EncodeSequences(emitted) + EncodeSequence(x)
  {
    hide EncodeSequence, EncodeSequences, Plain, Repeat, AllPlaced;
    var x := Sequence(src[anchor..start], start - ref, n);
    assert src[..anchor] + src[anchor..start] == src[..start];
    Append(emitted, x, |src| - MFLIMIT, |src| - LASTLITERALS);
    RepeatExtends(src, start, ref, n);
  }

  /** Closing the block with the rest of the text gives a valid block for the whole of it. */
  lemma Close(src: seq<byte>, emitted: seq<Sequence>, anchor: nat)
    requires anchor <= |src| && Plain(emitted) == src[..anchor]
    requires AllPlaced(emitted, |src| - MFLIMIT, |src| - LASTLITERALS) && AllEncodable(emitted)
    ensures
      var bytes := EncodeSequences(emitted) + EncodeRun(src[anchor..]);
      && ValidBlock(bytes) && Decoded(bytes) == src && RunStart(bytes) == |EncodeSequences(emitted)|
      && Parse(bytes) == Some(Block(emitted, src[anchor..]))
  {
    hide EncodeSequences, EncodeRun, Plain, AllPlaced, ValidBlock, Decoded, RunStart, Parse;
    var b := Block(emitted, src[anchor..]);
    assert Text(b) == src;
    EncodeIsValid(b);
  }

  class Encoder {
    const src: seq<byte>
    const dest: array<byte>
    var op: nat
    var anchor: nat
    ghost var emitted: seq<Sequence>

    /** The bytes so far are the layout of sequences that stand for the text up to the anchor. */
    ghost predicate Valid()
      reads this, dest
    {
      && op <= dest.Length && anchor <= |src|
      && AllPlaced(emitted, |src| - MFLIMIT, |src| - LASTLITERALS)
      && AllEncodable(emitted)
      && dest[..op] == EncodeSequences(emitted)
      && Plain(emitted) == src[..anchor]
    }

    constructor (source: seq<byte>, destination: array<byte>)
      ensures src == source && dest == destination
      ensures op == 0 && anchor == 0 && emitted == [] && Valid()
    {
      src, dest, op, anchor, emitted := source, destination, 0, 0, [];
    }

    /** Room for the rest of the output, in a destination of at least the compression bound. */
    predicate Roomy()
      reads this
    {
      |src| <= LZ4_MAX_INPUT_SIZE && CompressBound(|src|) <= dest.Length && 255 * op <= 256 * anchor
    }

    /** The closing literals. */
    method Finish() returns (size: nat)
      requires Valid() && Roomy()
      modifies this, dest
      ensures size <= CompressBound(|src|)
      ensures ValidBlock(dest[..size]) && Decoded(dest[..size]) == src
      ensures Parse(dest[..size]) == Some(Block(old(emitted), src[old(anchor)..]))
    {
      hide ValidBlock, Decoded, EncodeSequences, EncodeRun, Plain, AllPlaced, Extension, Parse;
      RunSize(src[anchor..]);
      size := WriteLastLiterals(dest, op, src, anchor, |src| - anchor);
      assert src[anchor..anchor + (|src| - anchor)] == src[anchor..];
      Close(src, emitted, anchor);
    }
  }
}
