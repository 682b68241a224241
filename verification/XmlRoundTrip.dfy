/**
  * An attribute value that is written and read back: it returns unchanged exactly when
  * it holds no hexadecimal character reference.
  */
module XmlRoundTrip {
  import opened Bytes
  import opened XmlReferences
  import opened XmlText

  // ----- The code point converter -----

  /** Reads a UTF-8 sequence back. */
  function FromUtf8(s: seq<byte>): int
    requires 1 <= |s| <= 4
  {
    var b: seq<int> := s;
    if |s| == 1 then b[0]
    else if |s| == 2 then (b[0] - 0xC0) * 64 + (b[1] - 0x80)
    else if |s| == 3 then (b[0] - 0xE0) * 4096 + (b[1] - 0x80) * 64 + (b[2] - 0x80)
    else (b[0] - 0xF0) * 262144 + (b[1] - 0x80) * 4096 + (b[2] - 0x80) * 64 + (b[3] - 0x80)
  }

  lemma Base64(u: nat)
    ensures u == u / 64 * 64 + u % 64
    ensures u / 64 == u / 4096 * 64 + u / 64 % 64
    ensures u / 4096 == u / 262144 * 64 + u / 4096 % 64
  {
    var a, b := u / 64, u / 4096;
    assert a / 64 == b;
    assert b / 64 == u / 262144;
  }

  lemma Utf8Inverts(u: nat)
    requires u < 0x200000
    ensures 1 <= |ToUtf8(u)| <= 4 && FromUtf8(ToUtf8(u)) == u
  {
    Base64(u);
  }

  /** The length table knows the converter's sequences exactly up to the code points it leaves out. */
  lemma TableKnowsConverter(u: nat)
    requires u < 0x200000
    ensures SequenceLength(ToUtf8(u)[0]) == |ToUtf8(u)| <==> u < 0x140000
    ensures forall i | 1 <= i < |ToUtf8(u)| :: 0x80 <= ToUtf8(u)[i] < 0xC0
  {
  }

  // ----- One byte -----

  lemma SemicolonAfterTwo(t: seq<byte>)
    requires 6 <= |t| && t[3] != 0 && t[3] != SEMICOLON && t[4] != 0 && t[4] != SEMICOLON && t[5] == SEMICOLON
    ensures FindSemicolon(t, 3) == Some(5)
  {
    assert FindSemicolon(t, 5) == Some(5);
    assert FindSemicolon(t, 4) == Some(5);
  }

  lemma TwoDigitValue(t: seq<byte>, p: nat, hi: nat, lo: nat)
    requires hi < 16 && lo < 16 && p + 3 <= |t|
    requires t[p] == LOWER_X && t[p + 1] == UpperHexDigit(hi) && t[p + 2] == UpperHexDigit(lo)
    ensures Digits(t, p + 2, LOWER_X, 16, 1, 0) == Some(16 * hi + lo)
  {
    hide Digits, Value;
    var ds := [Digit(hi, true), Digit(lo, true)];
    TwoPlaces(hi, lo);
    DigitsSum(t, p + 1, ds, LOWER_X, 16, 1, 1, 0);
  }

  lemma TwoPlaces(hi: nat, lo: nat)
    ensures Value([Digit(hi, true), Digit(lo, true)], 16) == 16 * hi + lo
  {
    var ds := [Digit(hi, true), Digit(lo, true)];
    assert ds[..1] == [Digit(hi, true)] && ds[..1][..0] == [];
    assert Value(ds[..1], 16) == hi;
  }

  lemma TwoDigits(c: byte, rest: seq<byte>, encoding: Encoding)
    requires c < 32
    ensures ReadReference(EncodeByte(c) + rest, 3, LOWER_X, 16, encoding) == Some(([c], 6))
  {
    hide UpperHexDigit, FindSemicolon, Digits;
    var t := EncodeByte(c) + rest;
    assert t[..6] == EncodeByte(c);
    assert t[2] == LOWER_X && t[3] == UpperHexDigit(c / 16) && t[4] == UpperHexDigit(c % 16) && t[5] == SEMICOLON;
    HexDigit(c / 16);
    HexDigit(c % 16);
    SemicolonAfterTwo(t);
    TwoDigitValue(t, 2, c / 16, c % 16);
  }

  lemma HexDigit(n: nat)
    requires n < 16
    ensures UpperHexDigit(n) != LOWER_X && UpperHexDigit(n) != SEMICOLON && UpperHexDigit(n) != 0
    ensures DigitValue(UpperHexDigit(n), 16) == Some(n)
  {
  }

  lemma NamedEntity(c: byte, rest: seq<byte>, encoding: Encoding)
    requires c == AMP || c == LESS || c == GREATER || c == QUOTE || c == APOSTROPHE
    ensures ReadEntity(EncodeByte(c) + rest, encoding) == Some(([c], |EncodeByte(c)|))
  {
    var t := EncodeByte(c) + rest;
    var e := EncodeByte(c);
    assert e <= t;
    assert t[1] == e[1] && t[2] == e[2];
  }

  /** Each byte that is a character of its own is read back from its encoding, whatever follows. */
  lemma ByteReadsBack(c: byte, rest: seq<byte>, encoding: Encoding)
    requires encoding.Utf8? ==> SequenceLength(c) == 1
    ensures ReadChar(EncodeByte(c) + rest, encoding) == Some(([c], |EncodeByte(c)|))
  {
    var t := EncodeByte(c) + rest;
    assert t[0] == EncodeByte(c)[0];
    if c == AMP || c == LESS || c == GREATER || c == QUOTE || c == APOSTROPHE {
      NamedEntity(c, rest, encoding);
    } else if c < 32 {
      assert t[1] == HASH && t[2] == LOWER_X && t[3] == UpperHexDigit(c / 16);
      HexDigit(c / 16);
      TwoDigits(c, rest, encoding);
    }
  }

  // ----- Multi-byte characters -----

  predicate AllHigh(v: seq<byte>) {
    forall i | 0 <= i < |v| :: 0x80 <= v[i]
  }

  lemma HighByte(c: byte, v: seq<byte>)
    requires 0x80 <= c
    ensures Encoded([c] + v) == [c] + Encoded(v)
    ensures HasHexReference([c] + v) == HasHexReference(v)
  {
    HexPrefix([c] + v);
    assert ([c] + v)[1..] == v;
  }

  /** Bytes above ASCII are written as they are and take no part in references. */
  lemma {:induction false} HighBytes(h: seq<byte>, v: seq<byte>)
    requires AllHigh(h)
    ensures Encoded(h + v) == h + Encoded(v)
    ensures HasHexReference(h + v) == HasHexReference(v)
    decreases |h|
  {
    hide Encoded, HasHexReference;
    if h == [] {
      assert h + v == v && h + Encoded(v) == Encoded(v);
    } else {
      assert h + v == [h[0]] + (h[1..] + v);
      HighByte(h[0], h[1..] + v);
      HighBytes(h[1..], v);
      assert h + Encoded(v) == [h[0]] + (h[1..] + Encoded(v));
    }
  }

  lemma {:induction false} CopyHigh(h: seq<byte>, rest: seq<byte>)
    requires AllHigh(h)
    ensures CopyBytes(h + rest, |h|) == h
    decreases |h|
  {
    if h != [] {
      assert (h + rest)[1..] == h[1..] + rest;
      CopyHigh(h[1..], rest);
    }
  }

  /** The first character of a well-formed value: its bytes, and the rest. */
  lemma Character(v: seq<byte>, n: nat)
    requires v != [] && WellFormedUtf8(v) && n == SequenceLength(v[0])
    ensures n <= |v| && WellFormedUtf8(v[n..]) && v == v[..n] + v[n..]
    ensures n > 1 ==> AllHigh(v[..n])
  {
  }

  // ----- Reading what was written -----

  lemma TextStepAt(t: seq<byte>, value: seq<byte>, k: nat, quote: byte, encoding: Encoding)
    requires t != [] && t[0] != 0 && t[0] != quote && k <= |t|
    requires ReadChar(t, encoding) == Some((value, k))
    ensures
      var r := ReadText(t[k..], [quote], encoding);
      ReadText(t, [quote], encoding) == (value + r.0, Shift(r.1, k))
  {
    hide ReadChar, Shift;
    assert !([quote] <= t);
  }

  lemma TextStep(e: seq<byte>, value: seq<byte>, rest: seq<byte>, quote: byte, encoding: Encoding)
    requires e != [] && e[0] != 0 && e[0] != quote
    requires ReadChar(e + rest, encoding) == Some((value, |e|))
    ensures
      var r := ReadText(rest, [quote], encoding);
      ReadText(e + rest, [quote], encoding) == (value + r.0, Shift(r.1, |e|))
  {
    hide ReadChar, ReadText, Shift;
    assert (e + rest)[0] == e[0];
    assert (e + rest)[|e|..] == rest;
    TextStepAt(e + rest, value, |e|, quote, encoding);
  }

  /** The closing quote and what follows the value. */
  function Closing(quote: byte, rest: seq<byte>): seq<byte> {
    [quote] + rest
  }

  lemma AtQuote(quote: byte, rest: seq<byte>, encoding: Encoding)
    requires quote != 0
    ensures ReadText(Closing(quote, rest), [quote], encoding) == ([], if At(rest, 0) != 0 then Some(1) else None)
  {
    var t := [quote] + rest;
    assert At(t, 0) == quote && [quote] <= t;
    assert At(t, 1) == At(rest, 0);
  }

  lemma EncodeByteFront(c: byte)
    ensures EncodeByte(c)[0] != 0 && EncodeByte(c)[0] != QUOTE && EncodeByte(c)[0] != APOSTROPHE
  {
  }

  predicate IsQuote(q: byte) {
    q == QUOTE || q == APOSTROPHE
  }

  /** A single-byte character in front of a value: written, then read. */
  lemma StepByte(v: seq<byte>, tail: seq<byte>, quote: byte, encoding: Encoding)
    requires v != [] && !StartsHexReference(v) && IsQuote(quote)
    requires encoding.Utf8? ==> SequenceLength(v[0]) == 1
    ensures
      var r := ReadText(Encoded(v[1..]) + tail, [quote], encoding);
      && ReadText(Encoded(v) + tail, [quote], encoding) == ([v[0]] + r.0, Shift(r.1, |EncodeByte(v[0])|))
      && |Encoded(v)| == |EncodeByte(v[0])| + |Encoded(v[1..])|
  {
    hide EncodeByte, ReadChar, ReadText, StartsHexReference;
    var e, more := EncodeByte(v[0]), Encoded(v[1..]) + tail;
    EncodeByteFront(v[0]);
    ByteReadsBack(v[0], more, encoding);
    TextStep(e, [v[0]], more, quote, encoding);
    assert Encoded(v) + tail == e + more;
  }

  /** A multi-byte character in front of a value. */
  lemma StepCharacter(v: seq<byte>, n: nat, tail: seq<byte>, quote: byte)
    requires v != [] && WellFormedUtf8(v) && n == SequenceLength(v[0]) && n > 1 && IsQuote(quote)
    ensures n <= |v|
    ensures
      var r := ReadText(Encoded(v[n..]) + tail, [quote], Utf8);
      && ReadText(Encoded(v) + tail, [quote], Utf8) == (v[..n] + r.0, Shift(r.1, n))
      && |Encoded(v)| == n + |Encoded(v[n..])|
  {
    hide ReadText, Encoded, HasHexReference;
    Character(v, n);
    var h := v[..n];
    HighBytes(h, v[n..]);
    var more := Encoded(v[n..]) + tail;
    CopyHigh(h, more);
    assert (h + more)[0] == v[0];
    TextStep(h, h, more, quote, Utf8);
    assert Encoded(v) + tail == h + more;
  }

  lemma NoReferenceAhead(v: seq<byte>)
    requires v != [] && !HasHexReference(v)
    ensures !StartsHexReference(v) && !HasHexReference(v[1..])
  {
  }

  lemma ReadableAhead(v: seq<byte>, encoding: Encoding)
    requires v != [] && Readable(v, encoding) && (encoding.Utf8? ==> SequenceLength(v[0]) == 1)
    ensures Readable(v[1..], encoding)
  {
  }

  /** The written value reads back as itself, and reading stops just past the quote if more text follows. */
  predicate ReadsAsItself(v: seq<byte>, quote: byte, rest: seq<byte>, encoding: Encoding) {
    ReadText(Encoded(v) + Closing(quote, rest), [quote], encoding)
    == (v, if At(rest, 0) != 0 then Some(|Encoded(v)| + 1) else None)
  }

  lemma EmptyReadsAsItself(quote: byte, rest: seq<byte>, encoding: Encoding)
    requires IsQuote(quote)
    ensures ReadsAsItself([], quote, rest, encoding)
  {
    hide ReadText;
    assert Encoded([]) + Closing(quote, rest) == Closing(quote, rest);
    AtQuote(quote, rest, encoding);
  }

  lemma ByteAhead(v: seq<byte>, quote: byte, rest: seq<byte>, encoding: Encoding)
    requires v != [] && !StartsHexReference(v) && IsQuote(quote)
    requires encoding.Utf8? ==> SequenceLength(v[0]) == 1
    requires ReadsAsItself(v[1..], quote, rest, encoding)
    ensures ReadsAsItself(v, quote, rest, encoding)
  {
    hide ReadText, Encoded, EncodeByte, Closing, StartsHexReference;
    StepByte(v, Closing(quote, rest), quote, encoding);
    assert [v[0]] + v[1..] == v;
  }

  lemma CharacterAhead(v: seq<byte>, n: nat, quote: byte, rest: seq<byte>)
    requires v != [] && WellFormedUtf8(v) && n == SequenceLength(v[0]) && n > 1 && n <= |v| && IsQuote(quote)
    requires ReadsAsItself(v[n..], quote, rest, Utf8)
    ensures ReadsAsItself(v, quote, rest, Utf8)
  {
    hide ReadText, Encoded, Closing, WellFormedUtf8;
    StepCharacter(v, n, Closing(quote, rest), quote);
    assert v[..n] + v[n..] == v;
  }

  lemma {:induction false} ReadsBack(v: seq<byte>, quote: byte, rest: seq<byte>, encoding: Encoding)
    requires Readable(v, encoding) && IsQuote(quote) && !HasHexReference(v)
    ensures ReadsAsItself(v, quote, rest, encoding)
    decreases |v|
  {
    hide ReadsAsItself, HasHexReference, StartsHexReference;
    if v == [] {
      EmptyReadsAsItself(quote, rest, encoding);
    } else if encoding.Utf8? && SequenceLength(v[0]) > 1 {
      var n := SequenceLength(v[0]);
      Character(v, n);
      HighBytes(v[..n], v[n..]);
      ReadsBack(v[n..], quote, rest, encoding);
      CharacterAhead(v, n, quote, rest);
    } else {
      NoReferenceAhead(v);
      ReadableAhead(v, encoding);
      ReadsBack(v[1..], quote, rest, encoding);
      ByteAhead(v, quote, rest, encoding);
    }
  }

  // ----- Values that hold a hexadecimal reference -----

  /** Where a pass-through stops: at the first semicolon, or at the last byte. */
  lemma {:induction false} PassThroughStops(v: seq<byte>, i: nat)
    requires 1 <= i < |v|
    ensures
      var k := PassThrough(v, i);
      && (v[k] == SEMICOLON || k == |v| - 1)
      && forall m | i <= m < k :: v[m] != SEMICOLON
    decreases |v| - i
  {
    if v[i] != SEMICOLON && i < |v| - 1 {
      PassThroughStops(v, i + 1);
    }
  }

  /** A character boundary follows every ASCII byte. */
  lemma {:induction false} BoundaryAfterAscii(v: seq<byte>, i: nat)
    requires i < |v| && WellFormedUtf8(v) && v[i] < 0x80
    ensures WellFormedUtf8(v[i + 1..])
    decreases |v|
  {
    var n := SequenceLength(v[0]);
    if i >= n {
      BoundaryAfterAscii(v[n..], i - n);
      assert v[n..][i - n + 1..] == v[i + 1..];
    }
  }

  /** The semicolon that ends a reference is the first one, if no NUL comes before it. */
  lemma {:induction false} FirstSemicolon(t: seq<byte>, i: nat, k: nat)
    requires i <= k < |t| && t[k] == SEMICOLON && forall m | i <= m < k :: t[m] != SEMICOLON
    ensures FindSemicolon(t, i) == None || FindSemicolon(t, i) == Some(k)
    decreases k - i
  {
    if i < k && t[i] != 0 {
      FirstSemicolon(t, i + 1, k);
    }
  }

  lemma {:induction false} LaterSemicolon(t: seq<byte>, i: nat, k: nat)
    requires i <= k <= |t| && forall m | i <= m < k :: t[m] != SEMICOLON
    ensures FindSemicolon(t, i).Some? ==> FindSemicolon(t, i).value >= k
    decreases k - i
  {
    if i < k && t[i] != 0 {
      LaterSemicolon(t, i + 1, k);
    }
  }

  /** What a leading reference in the written value is read as. */
  datatype Outcome =
    | Unreadable
    | Shrinks(value: seq<byte>, size: nat, used: nat)
    | Overruns(value: seq<byte>, size: nat)

  /** The three ways of reading a value that starts with a reference, none of which keeps it. */
  predicate Explains(o: Outcome, v: seq<byte>, tail: seq<byte>, encoding: Encoding) {
    var t := Encoded(v) + tail;
    t != [] &&
    match o
    case Unreadable => ReadChar(t, encoding) == None
    case Shrinks(value, size, used) =>
      && ReadChar(t, encoding) == Some((value, size))
      && |value| < used <= |v| && size <= |Encoded(v)|
      && Encoded(v)[size..] == Encoded(v[used..])
      && (WellFormedUtf8(v) ==> WellFormedUtf8(v[used..]))
    case Overruns(value, size) =>
      ReadChar(t, encoding) == Some((value, size)) && size > |Encoded(v)|
  }

  lemma EncodedReference(v: seq<byte>)
    requires StartsHexReference(v)
    ensures 3 <= |v| && Encoded(v) == v[..PassThrough(v, 1)] + Encoded(v[PassThrough(v, 1)..])
    ensures 2 <= PassThrough(v, 1)
    ensures v[PassThrough(v, 1)] == SEMICOLON ==> 3 <= PassThrough(v, 1)
  {
    assert v[1] == HASH && v[2] == LOWER_X;
    PassThroughStops(v, 1);
  }

  lemma PlainAhead(v: seq<byte>)
    requires v != [] && v[0] == SEMICOLON
    ensures Encoded(v) == [SEMICOLON] + Encoded(v[1..])
  {
  }

  /** A reference that the value itself closes. */
  lemma ClosedReference(v: seq<byte>, tail: seq<byte>, encoding: Encoding) returns (o: Outcome)
    requires StartsHexReference(v) && v[PassThrough(v, 1)] == SEMICOLON
    ensures Explains(o, v, tail, encoding)
  {
    hide Encoded, Digits, FindSemicolon, PassThrough, ToUtf8, WellFormedUtf8;
    var k := PassThrough(v, 1);
    EncodedReference(v);
    PassThroughStops(v, 1);
    PlainAhead(v[k..]);
    assert v[k..][1..] == v[k + 1..];
    var t := Encoded(v) + tail;
    assert v[..k] + [SEMICOLON] == v[..k + 1];
    assert Encoded(v) == v[..k + 1] + Encoded(v[k + 1..]);
    assert forall m | 0 <= m <= k :: t[m] == v[m];
    FirstSemicolon(t, 3, k);
    var r := ReadChar(t, encoding);
    if r == None {
      o := Unreadable;
    } else {
      ShortValue(t, k, encoding);
      if WellFormedUtf8(v) {
        BoundaryAfterAscii(v, k);
      }
      o := Shrinks(r.value.0, k + 1, k + 1);
    }
  }

  /** A reference of `k + 1` bytes stands for fewer. */
  lemma ShortValue(t: seq<byte>, k: nat, encoding: Encoding)
    requires HEX_PREFIX <= t && 3 <= k < |t| && ReadChar(t, encoding).Some?
    requires FindSemicolon(t, 3) == Some(k) || FindSemicolon(t, 3) == None
    ensures ReadChar(t, encoding).value.1 == k + 1 && |ReadChar(t, encoding).value.0| < k + 1
  {
    hide FindSemicolon;
    assert t[0] == AMP && t[1] == HASH && t[2] == LOWER_X;
    if k == 3 {
      assert Digits(t, 2, LOWER_X, 16, 1, 0) == Some(0);
    }
  }

  lemma EncodeByteSemicolon(c: byte)
    ensures |EncodeByte(c)| == 1 ==> EncodeByte(c) == [c]
    ensures |EncodeByte(c)| > 1 ==>
              && 4 <= |EncodeByte(c)| && EncodeByte(c)[|EncodeByte(c)| - 1] == SEMICOLON
              && forall m | 0 <= m < |EncodeByte(c)| - 1 :: EncodeByte(c)[m] != SEMICOLON
    ensures c == LOWER_X ==> EncodeByte(c) == [c]
  {
    if 0 < c < 32 {
      HexDigit(c / 16);
      HexDigit(c % 16);
    }
  }

  lemma EncodeLastByte(v: seq<byte>, k: nat)
    requires k + 1 == |v|
    ensures Encoded(v[k..]) == EncodeByte(v[k])
  {
    var w := v[k..];
    assert w == [v[k]] && w[1..] == [];
    assert !StartsHexReference(w);
  }

  /** A reference that the value leaves open, whose last byte is written as itself. */
  lemma OpenReferencePlain(v: seq<byte>, tail: seq<byte>, encoding: Encoding) returns (o: Outcome)
    requires StartsHexReference(v) && PassThrough(v, 1) == |v| - 1 && v[|v| - 1] != SEMICOLON
    requires EncodeByte(v[|v| - 1]) == [v[|v| - 1]]
    ensures Explains(o, v, tail, encoding)
  {
    hide Encoded, Digits, FindSemicolon, PassThrough, ToUtf8, WellFormedUtf8, EncodeByte;
    var k := |v| - 1;
    EncodedReference(v);
    PassThroughStops(v, 1);
    EncodeLastByte(v, k);
    assert v[..k] + [v[k]] == v;
    var t := Encoded(v) + tail;
    assert forall m | 0 <= m <= k :: t[m] == v[m];
    LaterSemicolon(t, 3, k + 1);
    o := OverrunsOrNot(v, t, tail, encoding);
  }

  lemma OverrunsOrNot(v: seq<byte>, t: seq<byte>, tail: seq<byte>, encoding: Encoding) returns (o: Outcome)
    requires HEX_PREFIX <= t && t == Encoded(v) + tail
    requires FindSemicolon(t, 3).Some? ==> FindSemicolon(t, 3).value >= |Encoded(v)|
    ensures Explains(o, v, tail, encoding)
  {
    hide Encoded, Digits, FindSemicolon, ToUtf8, WellFormedUtf8;
    assert t[0] == AMP && t[1] == HASH && t[2] == LOWER_X;
    var r := ReadChar(t, encoding);
    o := if r == None then Unreadable else Overruns(r.value.0, r.value.1);
  }

  /** A reference that the value leaves open, whose last byte is written as an entity. */
  lemma OpenReferenceEntity(v: seq<byte>, tail: seq<byte>, encoding: Encoding) returns (o: Outcome)
    requires StartsHexReference(v) && PassThrough(v, 1) == |v| - 1 && v[|v| - 1] != SEMICOLON
    requires |EncodeByte(v[|v| - 1])| > 1
    ensures Explains(o, v, tail, encoding)
  {
    hide Encoded, Digits, FindSemicolon, PassThrough, ToUtf8, WellFormedUtf8, EncodeByte;
    var k, c := |v| - 1, v[|v| - 1];
    EncodedReference(v);
    PassThroughStops(v, 1);
    EncodeLastByte(v, k);
    EncodeByteSemicolon(c);
    var e, t := EncodeByte(c), Encoded(v) + tail;
    assert k >= 3 by { assert v[2] == LOWER_X; }
    assert t == v[..k] + (e + tail);
    assert forall m | 0 <= m < k :: t[m] == v[m];
    assert forall m | 0 <= m < |e| :: t[k + m] == e[m];
    var end := k + |e| - 1;
    forall m | 3 <= m < end ensures t[m] != SEMICOLON {
      if m >= k {
        assert t[k + (m - k)] == e[m - k];
      }
    }
    FirstSemicolon(t, 3, end);
    EntityDigits(t, k, c);
    o := EntityOutcome(v, t, tail, c, end, encoding);
  }

  lemma EntityDigits(t: seq<byte>, k: nat, c: byte)
    requires k + |EncodeByte(c)| <= |t| && |EncodeByte(c)| > 1
    requires forall m | 0 <= m < |EncodeByte(c)| :: t[k + m] == EncodeByte(c)[m]
    ensures
      var d := Digits(t, k + |EncodeByte(c)| - 2, LOWER_X, 16, 1, 0);
      d == None || (c < 32 && d == Some(c))
  {
    hide UpperHexDigit;
    var e := EncodeByte(c);
    if c == AMP || c == LESS || c == GREATER || c == QUOTE || c == APOSTROPHE {
      assert t[k + (|e| - 2)] == e[|e| - 2];
      assert DigitValue(e[|e| - 2], 16) == None && e[|e| - 2] != LOWER_X;
    } else {
      assert t[k + 2] == e[2] && t[k + 3] == e[3] && t[k + 4] == e[4];
      TwoDigitValue(t, k + 2, c / 16, c % 16);
    }
  }

  lemma EntityOutcome(v: seq<byte>, t: seq<byte>, tail: seq<byte>, c: byte, end: nat, encoding: Encoding)
      returns (o: Outcome)
    requires HEX_PREFIX <= t && t == Encoded(v) + tail && |v| >= 4 && 3 < end && |Encoded(v)| == end + 1
    requires FindSemicolon(t, 3) == None || FindSemicolon(t, 3) == Some(end)
    requires
      var d := Digits(t, end - 1, LOWER_X, 16, 1, 0);
      d == None || (c < 32 && d == Some(c))
    ensures Explains(o, v, tail, encoding)
  {
    hide Digits, FindSemicolon;
    assert t[0] == AMP && t[1] == HASH && t[2] == LOWER_X;
    var r := ReadChar(t, encoding);
    if r == None {
      o := Unreadable;
    } else {
      assert v[|v|..] == [] && Encoded(v)[end + 1..] == [];
      o := Shrinks(r.value.0, end + 1, |v|);
    }
  }

  lemma ReferenceOutcome(v: seq<byte>, tail: seq<byte>, encoding: Encoding) returns (o: Outcome)
    requires StartsHexReference(v)
    ensures Explains(o, v, tail, encoding)
  {
    hide Explains, PassThrough, EncodeByte, StartsHexReference;
    EncodedReference(v);
    PassThroughStops(v, 1);
    EncodeByteSemicolon(v[|v| - 1]);
    if v[PassThrough(v, 1)] == SEMICOLON {
      o := ClosedReference(v, tail, encoding);
    } else if |EncodeByte(v[|v| - 1])| == 1 {
      o := OpenReferencePlain(v, tail, encoding);
    } else {
      o := OpenReferenceEntity(v, tail, encoding);
    }
  }

  /** Reading, if it stops just past the quote, gives no more bytes than were written, and fewer after a reference. */
  predicate NoLonger(v: seq<byte>, quote: byte, rest: seq<byte>, encoding: Encoding) {
    var r := ReadText(Encoded(v) + Closing(quote, rest), [quote], encoding);
    r.1 == Some(|Encoded(v)| + 1) ==> |r.0| <= |v| && (HasHexReference(v) ==> |r.0| < |v|)
  }

  lemma {:induction false} ReadingMoves(t: seq<byte>, tag: seq<byte>, encoding: Encoding)
    ensures ReadText(t, tag, encoding).1.Some? ==> ReadText(t, tag, encoding).1.value >= |tag|
    decreases |t|
  {
    hide ReadChar;
    if At(t, 0) != 0 && !(tag <= t) && ReadChar(t, encoding).Some? {
      var k := ReadChar(t, encoding).value.1;
      if k <= |t| {
        ReadingMoves(t[k..], tag, encoding);
      }
    }
  }

  lemma ReadFails(t: seq<byte>, quote: byte, encoding: Encoding)
    requires t != [] && t[0] != 0 && t[0] != quote
    requires ReadChar(t, encoding) == None || ReadChar(t, encoding).value.1 > |t|
    ensures ReadText(t, [quote], encoding).1 == None
  {
    hide ReadChar;
    assert !([quote] <= t);
  }

  lemma EmptyNoLonger(quote: byte, rest: seq<byte>, encoding: Encoding)
    requires IsQuote(quote)
    ensures NoLonger([], quote, rest, encoding)
  {
    EmptyReadsAsItself(quote, rest, encoding);
  }

  lemma ByteNoLonger(v: seq<byte>, quote: byte, rest: seq<byte>, encoding: Encoding)
    requires v != [] && !StartsHexReference(v) && IsQuote(quote)
    requires encoding.Utf8? ==> SequenceLength(v[0]) == 1
    requires NoLonger(v[1..], quote, rest, encoding)
    ensures NoLonger(v, quote, rest, encoding)
  {
    hide ReadText, Encoded, EncodeByte, Closing, StartsHexReference;
    StepByte(v, Closing(quote, rest), quote, encoding);
  }

  lemma CharacterNoLonger(v: seq<byte>, n: nat, quote: byte, rest: seq<byte>)
    requires v != [] && WellFormedUtf8(v) && n == SequenceLength(v[0]) && n > 1 && n <= |v| && IsQuote(quote)
    requires NoLonger(v[n..], quote, rest, Utf8)
    ensures NoLonger(v, quote, rest, Utf8)
  {
    hide ReadText, Encoded, Closing, WellFormedUtf8, HasHexReference;
    StepCharacter(v, n, Closing(quote, rest), quote);
    Character(v, n);
    HighBytes(v[..n], v[n..]);
  }

  lemma ReferenceNoLonger(v: seq<byte>, o: Outcome, quote: byte, rest: seq<byte>, encoding: Encoding)
    requires StartsHexReference(v) && IsQuote(quote)
    requires Explains(o, v, Closing(quote, rest), encoding)
    requires o.Shrinks? ==> NoLonger(v[o.used..], quote, rest, encoding)
    ensures NoLonger(v, quote, rest, encoding)
  {
    hide ReadText, ReadChar, Closing, WellFormedUtf8, Encoded, HasHexReference;
    var t := Encoded(v) + Closing(quote, rest);
    EncodedReference(v);
    assert t[0] == AMP;
    match o {
      case Unreadable =>
        ReadFails(t, quote, encoding);
      case Shrinks(value, size, used) =>
        TextStepAt(t, value, size, quote, encoding);
        assert t[size..] == Encoded(v)[size..] + Closing(quote, rest);
        assert |Encoded(v)| == size + |Encoded(v[used..])|;
      case Overruns(value, size) =>
        if size > |t| {
          ReadFails(t, quote, encoding);
        } else {
          TextStepAt(t, value, size, quote, encoding);
          ReadingMoves(t[size..], [quote], encoding);
        }
    }
  }

  lemma {:induction false} NeverLonger(v: seq<byte>, quote: byte, rest: seq<byte>, encoding: Encoding)
    requires Readable(v, encoding) && IsQuote(quote)
    ensures NoLonger(v, quote, rest, encoding)
    decreases |v|
  {
    hide NoLonger, StartsHexReference;
    if v == [] {
      EmptyNoLonger(quote, rest, encoding);
    } else if StartsHexReference(v) {
      var o := ReferenceOutcome(v, Closing(quote, rest), encoding);
      if o.Shrinks? {
        NeverLonger(v[o.used..], quote, rest, encoding);
      }
      ReferenceNoLonger(v, o, quote, rest, encoding);
    } else if encoding.Utf8? && SequenceLength(v[0]) > 1 {
      var n := SequenceLength(v[0]);
      Character(v, n);
      NeverLonger(v[n..], quote, rest, encoding);
      CharacterNoLonger(v, n, quote, rest);
    } else {
      ReadableAhead(v, encoding);
      NeverLonger(v[1..], quote, rest, encoding);
      ByteNoLonger(v, quote, rest, encoding);
    }
  }

  /** Reading never returns a position at the end of the buffer. */
  lemma {:induction false} ReadingStopsInside(t: seq<byte>, tag: seq<byte>, encoding: Encoding)
    ensures ReadText(t, tag, encoding).1.Some? ==> At(t, ReadText(t, tag, encoding).1.value) != 0
    decreases |t|
  {
    hide ReadChar;
    if At(t, 0) != 0 && !(tag <= t) && ReadChar(t, encoding).Some? {
      var k := ReadChar(t, encoding).value.1;
      if k <= |t| {
        ReadingStopsInside(t[k..], tag, encoding);
      }
    }
  }

  lemma AfterQuote(e: seq<byte>, quote: byte, rest: seq<byte>)
    ensures At(e + Closing(quote, rest), |e| + 1) == At(rest, 0)
  {
  }

  /**
    * A value that is written and read back is itself, and reading stops right after the
    * closing quote, if and only if it holds no `&#x` and the text goes on after the quote.
    */
  lemma ValueRoundTrip(v: seq<byte>, quote: byte, rest: seq<byte>, encoding: Encoding)
    requires Readable(v, encoding) && IsQuote(quote)
    ensures ReadText(Encoded(v) + Closing(quote, rest), [quote], encoding) == (v, Some(|Encoded(v)| + 1))
       <==> !HasHexReference(v) && At(rest, 0) != 0
  {
    hide ReadText, Encoded, HasHexReference, Closing;
    NeverLonger(v, quote, rest, encoding);
    ReadingStopsInside(Encoded(v) + Closing(quote, rest), [quote], encoding);
    AfterQuote(Encoded(v), quote, rest);
    if !HasHexReference(v) {
      ReadsBack(v, quote, rest, encoding);
    }
  }

  const LETTER_A: seq<byte> := [38, 35, 120, 52, 49, 59]

  lemma ReferenceWrittenAsItIs()
    ensures Encoded(LETTER_A) == LETTER_A
  {
    hide EncodeByte;
    HexPrefix(LETTER_A);
    assert PassThrough(LETTER_A, 5) == 5;
    assert PassThrough(LETTER_A, 3) == 5;
    assert PassThrough(LETTER_A, 1) == 5;
    assert LETTER_A[5..] == [59] && [59][1..] == [];
    assert Encoded([59]) == EncodeByte(59) + Encoded([]);
    assert EncodeByte(59) == [59] by { SemicolonPlain(); }
  }

  lemma SemicolonPlain()
    ensures EncodeByte(SEMICOLON) == [SEMICOLON]
  {
  }

  lemma ReferenceRead(t: seq<byte>)
    requires LETTER_A <= t
    ensures ReadChar(t, Utf8) == Some(([65], 6))
  {
    hide FindSemicolon, Digits;
    assert t[0] == 38 && t[1] == 35 && t[2] == 120 && t[3] == 52 && t[4] == 49 && t[5] == 59;
    SemicolonAfterTwo(t);
    TwoDigitValue(t, 2, 4, 1);
  }

  /** For example, the value `&#x41;` is written as it is and read back as `A`. */
  lemma ReferenceIsReplaced()
    ensures ReadText(Encoded(LETTER_A) + Closing(QUOTE, [GREATER]), [QUOTE], Utf8) == ([65], Some(7))
  {
    hide ReadChar, ReadText, Encoded, Closing;
    ReferenceWrittenAsItIs();
    ReferenceRead(LETTER_A + Closing(QUOTE, [GREATER]));
    TextStep(LETTER_A, [65], Closing(QUOTE, [GREATER]), QUOTE, Utf8);
    AtQuote(QUOTE, [GREATER], Utf8);
    var letter: seq<byte> := [65];
    assert letter + [] == letter;
  }
}
