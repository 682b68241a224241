/** Octets, text as octets, and values that may be absent. */
module Bytes {
  type byte = x: int | 0 <= x < 256

  /** The bytes of ASCII text. */
  function Ascii(s: string): (r: seq<byte>)
    requires forall i | 0 <= i < |s| :: s[i] as int < 128
    ensures |r| == |s|
  {
    seq(|s|, i requires 0 <= i < |s| => s[i] as int)
  }

  datatype Option<+T> = None | Some(value: T)
}
