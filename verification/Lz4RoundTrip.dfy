/** What each LZ4 compressor writes, the decoder reads back, in a buffer of exactly the text's size. */
module Lz4RoundTrip {
  import opened Bytes
  import opened Lz4Block
  import opened Lz4Common
  import opened Lz4Decoder
  import opened Lz4DestSize
  import opened Lz4Fast
  import opened Lz4Hc

  method Decompress(block: seq<byte>, capacity: nat) returns (r: int, text: seq<byte>)
    requires ValidBlock(block)
    ensures r >= 0 <==> |Decoded(block)| <= capacity
    ensures r >= 0 ==> r == |text| && text == Decoded(block)
  {
    var dest := new byte[capacity](_ => 0);
    r := DecompressSafe(block, dest);
    text := if r >= 0 then dest[..r] else [];
  }

  method DefaultRoundTrip(src: seq<byte>) returns (r: int, text: seq<byte>)
    requires |src| <= LZ4_MAX_INPUT_SIZE
    ensures r == |src| && text == src
  {
    hide ValidBlock, Decoded;
    var dest := new byte[CompressBound(|src|)](_ => 0);
    var size := CompressDefault(src, dest);
    r, text := Decompress(dest[..size], |src|);
  }

  method HcRoundTrip(src: seq<byte>, maxNbAttempts: nat) returns (r: int, text: seq<byte>)
    requires |src| <= LZ4_MAX_INPUT_SIZE
    ensures r == |src| && text == src
  {
    hide ValidBlock, Decoded;
    var dest := new byte[CompressBound(|src|)](_ => 0);
    var size := CompressHashChain(src, dest, maxNbAttempts);
    r, text := Decompress(dest[..size], |src|);
  }

  method DestSizeRoundTrip(src: seq<byte>, target: nat) returns (consumed: nat, size: nat, r: int, text: seq<byte>)
    requires |src| <= LZ4_MAX_INPUT_SIZE && 1 <= target
    ensures 0 < size <= target && consumed <= |src|
    ensures r == consumed && text == src[..consumed]
    ensures consumed < |src| ==> NearlyFull(size, target)
    ensures CompressBound(|src|) <= target ==> text == src
  {
    hide ValidBlock, Decoded, NoRepeat, LiteralsOnly;
    var dest := new byte[target](_ => 0);
    size, consumed := CompressDestSize(src, dest);
    r, text := Decompress(dest[..size], consumed);
  }
}
