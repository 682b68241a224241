/**
  * Entities in attribute values, as a specification: how a value is written and how a
  * text is read back up to its closing quote.
  *
  * A text is the rest of a NUL-terminated buffer, so reading at or past its end gives 0.
  */
module XmlText {
  import opened Bytes

  datatype Encoding = Utf8 | Legacy

  const AMP: byte := 38
  const HASH: byte := 35
  const LOWER_X: byte := 120
  const SEMICOLON: byte := 59
  const LESS: byte := 60
  const GREATER: byte := 62
  const QUOTE: byte := 34
  const APOSTROPHE: byte := 39

  const ENTITY_AMP: seq<byte> := [38, 97, 109, 112, 59]
  const ENTITY_LT: seq<byte> := [38, 108, 116, 59]
  const ENTITY_GT: seq<byte> := [38, 103, 116, 59]
  const ENTITY_QUOT: seq<byte> := [38, 113, 117, 111, 116, 59]
  const ENTITY_APOS: seq<byte> := [38, 97, 112, 111, 115, 59]
  const HEX_PREFIX: seq<byte> := [38, 35, 120]

  // ----- Writing -----

  function UpperHexDigit(n: nat): byte
    requires n < 16
  {
    if n < 10 then 48 + n else 55 + n
  }

  /** One byte of a value, written as an entity, a two-digit reference or itself. */
  function EncodeByte(c: byte): (r: seq<byte>)
    ensures r != []
  {
    if c == AMP then ENTITY_AMP
    else if c == LESS then ENTITY_LT
    else if c == GREATER then ENTITY_GT
    else if c == QUOTE then ENTITY_QUOT
    else if c == APOSTROPHE then ENTITY_APOS
    else if c < 32 then HEX_PREFIX + [UpperHexDigit(c / 16), UpperHexDigit(c % 16), SEMICOLON]
    else [c]
  }

  predicate StartsHexReference(v: seq<byte>) {
    HEX_PREFIX <= v
  }

  lemma HexPrefix(v: seq<byte>)
    ensures StartsHexReference(v) <==> 3 <= |v| && v[0] == AMP && v[1] == HASH && v[2] == LOWER_X
  {
    if 3 <= |v| && v[0] == AMP && v[1] == HASH && v[2] == LOWER_X {
      assert v[..3] == HEX_PREFIX;
    }
  }

  /** How many bytes from `i` on are copied as they are, once a hexadecimal reference starts before `i`. */
  function PassThrough(v: seq<byte>, i: nat): (k: nat)
    requires 1 <= i < |v|
    ensures i <= k < |v|
    decreases |v| - i
  {
    if v[i] == SEMICOLON || i == |v| - 1 then i else PassThrough(v, i + 1)
  }

  function Encoded(v: seq<byte>): seq<byte>
    decreases |v|
  {
    if v == [] then []
    else if StartsHexReference(v) then
      var k := PassThrough(v, 1);
      v[..k] + Encoded(v[k..])
    else EncodeByte(v[0]) + Encoded(v[1..])
  }

  predicate HasHexReference(v: seq<byte>) {
    v != [] && (StartsHexReference(v) || HasHexReference(v[1..]))
  }

  /** The quote that Print puts around a value. */
  function QuoteFor(v: seq<byte>): byte {
    if QUOTE in v then APOSTROPHE else QUOTE
  }

  // ----- Reading -----

  function At(t: seq<byte>, i: nat): byte {
    if i < |t| then t[i] else 0
  }

  /** The length of a UTF-8 sequence by its first byte; 1 for bytes that cannot start one. */
  function SequenceLength(c: byte): nat {
    if c < 0xC2 then 1
    else if c < 0xE0 then 2
    else if c < 0xF0 then 3
    else if c < 0xF5 then 4
    else 1
  }

  /** The UTF-8 form of a code point; empty beyond what the converter handles. */
  function ToUtf8(u: nat): seq<byte> {
    if u < 0x80 then [u]
    else if u < 0x800 then [0xC0 + u / 64, 0x80 + u % 64]
    else if u < 0x10000 then [0xE0 + u / 4096, 0x80 + u / 64 % 64, 0x80 + u % 64]
    else if u < 0x200000 then [0xF0 + u / 262144, 0x80 + u / 4096 % 64, 0x80 + u / 64 % 64, 0x80 + u % 64]
    else []
  }

  /** The first semicolon at or after `i`, before the end of the text. */
  function FindSemicolon(t: seq<byte>, i: nat): (r: Option<nat>)
    ensures r.Some? ==> i <= r.value < |t| && t[r.value] == SEMICOLON
    decreases |t| - i
  {
    if i >= |t| || t[i] == 0 then None
    else if t[i] == SEMICOLON then Some(i)
    else FindSemicolon(t, i + 1)
  }

  function DigitValue(c: byte, base: nat): Option<nat> {
    if 48 <= c <= 57 then Some(c - 48)
    else if base == 16 && 97 <= c <= 102 then Some(c - 97 + 10)
    else if base == 16 && 65 <= c <= 70 then Some(c - 65 + 10)
    else None
  }

  /**
    * The digits from `q` down to the mark (`x` or `#`), lowest first, with the weight kept
    * in 32 bits and the sum in 64.
    */
  function Digits(t: seq<byte>, q: nat, mark: byte, base: nat, weight: nat, sum: nat): Option<nat>
    requires q < |t|
    decreases q
  {
    if t[q] == mark then Some(sum)
    else
      match DigitValue(t[q], base)
      case None => None
      case Some(d) =>
        if q == 0 then None
        else Digits(t, q - 1, mark, base, weight * base % 0x1_0000_0000,
                    (sum + weight * d % 0x1_0000_0000) % 0x1_0000_0000_0000_0000)
  }

  /** A numeric reference whose digits start at `first` and whose mark is just before them. */
  function ReadReference(t: seq<byte>, first: nat, mark: byte, base: nat, encoding: Encoding)
    : (r: Option<(seq<byte>, nat)>)
    requires 2 <= first
    ensures r.Some? ==> first < r.value.1 <= |t| && |r.value.0| <= 4
  {
    match FindSemicolon(t, first)
    case None => None
    case Some(end) =>
      match Digits(t, end - 1, mark, base, 1, 0)
      case None => None
      case Some(u) => Some((if encoding.Utf8? then ToUtf8(u) else [u % 256], end + 1))
  }

  /** What an ampersand introduces; an unknown entity loses its ampersand. */
  function ReadEntity(t: seq<byte>, encoding: Encoding): (r: Option<(seq<byte>, nat)>)
    requires t != []
    ensures r.Some? ==> 1 <= r.value.1 && |r.value.0| <= 4
  {
    if At(t, 1) == HASH && At(t, 2) != 0 then
      if At(t, 2) == LOWER_X then
        if At(t, 3) == 0 then None else ReadReference(t, 3, LOWER_X, 16, encoding)
      else ReadReference(t, 2, HASH, 10, encoding)
    else if ENTITY_AMP <= t then Some(([AMP], 5))
    else if ENTITY_LT <= t then Some(([LESS], 4))
    else if ENTITY_GT <= t then Some(([GREATER], 4))
    else if ENTITY_QUOT <= t then Some(([QUOTE], 6))
    else if ENTITY_APOS <= t then Some(([APOSTROPHE], 6))
    else Some(([], 1))
  }

  /** The `n` bytes copied for a multi-byte character: after a NUL, zeros. */
  function CopyBytes(t: seq<byte>, n: nat): (r: seq<byte>)
    ensures |r| == n
  {
    if n == 0 then []
    else if t == [] || t[0] == 0 then seq(n, _ => 0)
    else [t[0]] + CopyBytes(t[1..], n - 1)
  }

  /** One character of the text: the bytes it adds and the bytes it takes, or failure. */
  function ReadChar(t: seq<byte>, encoding: Encoding): (r: Option<(seq<byte>, nat)>)
    requires t != []
    ensures r.Some? ==> 1 <= r.value.1 && |r.value.0| <= 4
  {
    var n := if encoding.Utf8? then SequenceLength(t[0]) else 1;
    if n == 1 then
      if t[0] == AMP then ReadEntity(t, encoding) else Some(([t[0]], 1))
    else Some((CopyBytes(t, n), n))
  }

  function Shift(next: Option<nat>, k: nat): Option<nat> {
    match next
    case None => None
    case Some(n) => Some(k + n)
  }

  /** The text up to a tag, and how far past the tag reading got; no position at the end of the buffer. */
  function ReadText(t: seq<byte>, tag: seq<byte>, encoding: Encoding): (seq<byte>, Option<nat>)
    decreases |t|
  {
    if At(t, 0) == 0 then ([], None)
    else if tag <= t then ([], if At(t, |tag|) != 0 then Some(|tag|) else None)
    else
      match ReadChar(t, encoding)
      case None => ([], None)
      case Some((value, k)) =>
        if k > |t| then (value, None)
        else
          var rest := ReadText(t[k..], tag, encoding);
          (value + rest.0, Shift(rest.1, k))
  }

  /** Each character that starts a UTF-8 sequence is followed by the continuation bytes it calls for. */
  predicate WellFormedUtf8(v: seq<byte>)
    decreases |v|
  {
    v == [] ||
    (var n := SequenceLength(v[0]);
     && n <= |v|
     && (forall i | 1 <= i < n :: 0x80 <= v[i] < 0xC0)
     && WellFormedUtf8(v[n..]))
  }

  predicate Readable(v: seq<byte>, encoding: Encoding) {
    encoding.Utf8? ==> WellFormedUtf8(v)
  }
}
