/**
  * A whole attribute: how it is printed, how it is parsed, and which attributes survive
  * being printed and parsed again.
  */
module XmlAttribute {
  import opened Bytes
  import opened XmlText
  import opened XmlRoundTrip
  import XmlReader

  const EQUALS: byte := 61
  const UNDERSCORE: byte := 95

  predicate IsWhiteSpace(c: byte) {
    9 <= c <= 13 || c == 32
  }

  predicate IsAlpha(c: byte) {
    65 <= c <= 90 || 97 <= c <= 122 || 127 <= c
  }

  predicate IsNameByte(c: byte) {
    IsAlpha(c) || 48 <= c <= 57 || c == UNDERSCORE || c == 45 || c == 46 || c == 58
  }

  /** The byte order mark and the two non-characters that are skipped in UTF-8 text. */
  predicate IsMark(a: byte, b: byte, c: byte) {
    a == 0xEF && ((b == 0xBB && c == 0xBF) || (b == 0xBF && (c == 0xBE || c == 0xBF)))
  }

  predicate MarkAt(t: seq<byte>, p: nat) {
    IsMark(At(t, p), At(t, p + 1), At(t, p + 2))
  }

  // ----- Specification -----

  /** White space, or part of a mark. */
  predicate Skippable(t: seq<byte>, i: nat, encoding: Encoding) {
    || IsWhiteSpace(At(t, i))
    || (encoding.Utf8? && (MarkAt(t, i) || (i >= 1 && MarkAt(t, i - 1)) || (i >= 2 && MarkAt(t, i - 2))))
  }

  function SkipFrom(t: seq<byte>, p: nat, encoding: Encoding): (q: nat)
    requires p <= |t|
    ensures p <= q <= |t|
    ensures At(t, q) == 0 || !(IsWhiteSpace(t[q]) || (encoding.Utf8? && MarkAt(t, q)))
    ensures forall i | p <= i < q :: Skippable(t, i, encoding)
    decreases |t| - p
  {
    if At(t, p) == 0 then p
    else if encoding.Utf8? && MarkAt(t, p) then SkipFrom(t, p + 3, encoding)
    else if IsWhiteSpace(t[p]) then SkipFrom(t, p + 1, encoding)
    else p
  }

  function NameEnd(t: seq<byte>, p: nat): (q: nat)
    requires p <= |t|
    ensures p <= q <= |t|
    ensures forall i | p <= i < q :: IsNameByte(t[i])
    ensures q < |t| ==> !IsNameByte(t[q])
    decreases |t| - p
  {
    if p < |t| && IsNameByte(t[p]) then NameEnd(t, p + 1) else p
  }

  predicate StartsName(c: byte) {
    IsAlpha(c) || c == UNDERSCORE
  }

  predicate EndsUnquoted(c: byte) {
    c == 0 || IsWhiteSpace(c) || c == 47 || c == GREATER
  }

  /** The end of a value without quotes; a stray quote in it is an error. */
  function UnquotedEnd(t: seq<byte>, p: nat): (r: Option<nat>)
    requires p <= |t|
    ensures r.Some? ==> p <= r.value <= |t| && EndsUnquoted(At(t, r.value))
    ensures r.Some? ==> forall i | p <= i < r.value :: !EndsUnquoted(t[i]) && !IsQuote(t[i])
    ensures r.None? ==> exists q | p <= q < |t| && IsQuote(t[q]) :: forall i | p <= i < q :: !EndsUnquoted(t[i])
    decreases |t| - p
  {
    if EndsUnquoted(At(t, p)) then Some(p)
    else if IsQuote(t[p]) then None
    else UnquotedEnd(t, p + 1)
  }

  datatype Parsed = Parsed(name: seq<byte>, value: seq<byte>, next: nat)

  function ParseValue(t: seq<byte>, p: nat, name: seq<byte>, encoding: Encoding): Option<Parsed>
    requires p < |t|
  {
    if IsQuote(t[p]) then
      match ReadText(t[p + 1..], [t[p]], encoding)
      case (value, Some(k)) => Some(Parsed(name, value, p + 1 + k))
      case (_, None) => None
    else
      match UnquotedEnd(t, p)
      case Some(q) => Some(Parsed(name, t[p..q], q))
      case None => None
  }

  function ParseAttribute(t: seq<byte>, encoding: Encoding): (r: Option<Parsed>)
  {
    var start := SkipFrom(t, 0, encoding);
    if !StartsName(At(t, start)) then None
    else
      var end := NameEnd(t, start);
      var equals := SkipFrom(t, end, encoding);
      if At(t, equals) != EQUALS then None
      else
        var quote := SkipFrom(t, equals + 1, encoding);
        if At(t, quote) == 0 then None
        else ParseValue(t, quote, t[start..end], encoding)
  }

  function Printed(name: seq<byte>, value: seq<byte>): seq<byte> {
    Encoded(name) + [EQUALS, QuoteFor(value)] + Encoded(value) + [QuoteFor(value)]
  }

  /** The names that the parser can produce. */
  predicate ValidName(name: seq<byte>, encoding: Encoding) {
    && name != []
    && StartsName(name[0])
    && (forall i | 0 <= i < |name| :: IsNameByte(name[i]))
    && !(encoding.Utf8? && 3 <= |name| && IsMark(name[0], name[1], name[2]))
  }

  // ----- Print, then parse -----

  lemma {:induction false} NameEncodesAsItself(name: seq<byte>)
    requires forall i | 0 <= i < |name| :: IsNameByte(name[i])
    ensures Encoded(name) == name
  {
    if name != [] {
      NameEncodesAsItself(name[1..]);
      HexPrefix(name);
      assert IsNameByte(name[0]);
    }
  }

  lemma {:induction false} NameEndsAt(t: seq<byte>, p: nat, end: nat)
    requires p <= end < |t| && !IsNameByte(t[end])
    requires forall i | p <= i < end :: IsNameByte(t[i])
    ensures NameEnd(t, p) == end
    decreases end - p
  {
    if p < end {
      NameEndsAt(t, p + 1, end);
    }
  }

  /** Every name that parsing yields is valid. */
  lemma ParsedNameValid(t: seq<byte>, encoding: Encoding)
    requires ParseAttribute(t, encoding).Some?
    ensures ValidName(ParseAttribute(t, encoding).value.name, encoding)
  {
    hide ReadText;
    var start := SkipFrom(t, 0, encoding);
    var end := NameEnd(t, start);
    var name := t[start..end];
    if 3 <= |name| {
      assert name[0] == t[start] && name[1] == t[start + 1] && name[2] == t[start + 2];
    }
  }

  // ----- Parsing with white space -----

  /** What may stand between the parts: white space and, in UTF-8, marks. */
  predicate Blank(w: seq<byte>, encoding: Encoding)
    decreases |w|
  {
    || w == []
    || (IsWhiteSpace(w[0]) && Blank(w[1..], encoding))
    || (encoding.Utf8? && 3 <= |w| && IsMark(w[0], w[1], w[2]) && Blank(w[3..], encoding))
  }

  /** A text that goes on with something that is not skipped. */
  predicate GoesOn(t: seq<byte>, encoding: Encoding) {
    At(t, 0) != 0 && !IsWhiteSpace(At(t, 0)) && !(encoding.Utf8? && MarkAt(t, 0))
  }

  /** All of a blank is skipped, and nothing after it. */
  lemma {:induction false} SkipsBlank(t: seq<byte>, p: nat, w: seq<byte>, encoding: Encoding)
    requires p + |w| <= |t| && t[p..p + |w|] == w && Blank(w, encoding) && GoesOn(t[p + |w|..], encoding)
    ensures SkipFrom(t, p, encoding) == p + |w|
    decreases |w|
  {
    if w == [] {
      var rest := t[p..];
      assert forall i: nat | i < 3 :: At(rest, i) == At(t, p + i);
    } else {
      assert forall i | 0 <= i < |w| :: t[p + i] == w[i];
      var n := if IsWhiteSpace(w[0]) then 1 else 3;
      assert t[p + n..p + |w|] == w[n..];
      assert t[p + 0] == w[0] && (n == 3 ==> t[p + 1] == w[1] && t[p + 2] == w[2]);
      SkipsBlank(t, p + n, w[n..], encoding);
    }
  }

  /** Name and equals sign with blanks around them. */
  function Spaced(w1: seq<byte>, name: seq<byte>, w2: seq<byte>, w3: seq<byte>): seq<byte> {
    w1 + name + w2 + [EQUALS] + w3
  }

  lemma NameFound(t: seq<byte>, start: nat, end: nat, encoding: Encoding)
    requires start <= end < |t| && ValidName(t[start..end], encoding) && !IsNameByte(t[end]) && t[end] < 0x80
    ensures GoesOn(t[start..], encoding) && StartsName(At(t, start)) && NameEnd(t, start) == end
  {
    var name, rest := t[start..end], t[start..];
    assert rest[0] == name[0] && forall i | 0 <= i < |name| :: t[start + i] == name[i];
    forall i | start <= i < end ensures IsNameByte(t[i]) {
      assert t[i] == name[i - start];
    }
    NameEndsAt(t, start, end);
    assert forall i: nat | i < 3 :: At(rest, i) == At(t, start + i);
  }

  /** Blanks around the parts change nothing: the name is found, and the value starts where it should. */
  lemma GapsParse(w1: seq<byte>, name: seq<byte>, w2: seq<byte>, w3: seq<byte>, tail: seq<byte>, encoding: Encoding)
    requires Blank(w1, encoding) && Blank(w2, encoding) && Blank(w3, encoding) && ValidName(name, encoding)
    requires (w2 == [] || IsWhiteSpace(w2[0])) && GoesOn(tail, encoding)
    ensures var t := Spaced(w1, name, w2, w3) + tail; var p := |Spaced(w1, name, w2, w3)|;
            p < |t| && t[p..] == tail && ParseAttribute(t, encoding) == ParseValue(t, p, name, encoding)
  {
    hide ParseValue, Blank, ValidName, ParseAttribute, GoesOn, IsWhiteSpace, IsNameByte;
    var t := Spaced(w1, name, w2, w3) + tail;
    var start := |w1|;
    var end := start + |name|;
    var equals := end + |w2|;
    var p := equals + 1 + |w3|;
    assert t[0..start] == w1 && t[start..end] == name && t[end..equals] == w2 && t[equals] == EQUALS;
    assert t[equals + 1..p] == w3 && t[p..] == tail;
    assert w2 != [] ==> t[end] == w2[0];
    ParseAt(t, start, end, equals, p, encoding);
  }

  lemma ParseAt(t: seq<byte>, start: nat, end: nat, equals: nat, p: nat, encoding: Encoding)
    requires start <= end <= equals < p <= |t| && t[equals] == EQUALS && GoesOn(t[p..], encoding)
    requires Blank(t[0..start], encoding) && Blank(t[end..equals], encoding) && Blank(t[equals + 1..p], encoding)
    requires ValidName(t[start..end], encoding) && (end < equals ==> IsWhiteSpace(t[end]))
    ensures p < |t| && ParseAttribute(t, encoding) == ParseValue(t, p, t[start..end], encoding)
  {
    hide ParseValue, Blank, ValidName, SkipFrom, NameEnd, GoesOn, MarkAt, Skippable;
    hide IsWhiteSpace, IsNameByte, StartsName;
    AfterName(t[end]);
    NameFound(t, start, end, encoding);
    SkipsBlank(t, 0, t[0..start], encoding);
    EqualsGoesOn(t[equals..], encoding);
    SkipsBlank(t, end, t[end..equals], encoding);
    SkipsBlank(t, equals + 1, t[equals + 1..p], encoding);
    GoesOnNow(t, p, encoding);
  }

  lemma AfterName(c: byte)
    requires c == EQUALS || IsWhiteSpace(c)
    ensures !IsNameByte(c) && c < 0x80
  {
  }

  lemma EqualsGoesOn(t: seq<byte>, encoding: Encoding)
    requires At(t, 0) == EQUALS
    ensures GoesOn(t, encoding)
  {
  }

  lemma GoesOnNow(t: seq<byte>, p: nat, encoding: Encoding)
    requires p <= |t| && GoesOn(t[p..], encoding)
    ensures p < |t| && At(t, p) != 0
  {
  }

  function Quoted(quote: byte, value: seq<byte>): seq<byte> {
    [quote] + Encoded(value) + [quote]
  }

  /**
    * A quoted value, in either quote and with any blanks before it: name and value come back,
    * and parsing stops right after the quote, exactly if the value holds no `&#x` and the text goes on.
    */
  lemma QuotedParse(w1: seq<byte>, name: seq<byte>, w2: seq<byte>, w3: seq<byte>, quote: byte, value: seq<byte>,
                    rest: seq<byte>, encoding: Encoding)
    requires Blank(w1, encoding) && Blank(w2, encoding) && Blank(w3, encoding) && ValidName(name, encoding)
    requires (w2 == [] || IsWhiteSpace(w2[0])) && IsQuote(quote) && Readable(value, encoding)
    ensures var text := Spaced(w1, name, w2, w3) + Quoted(quote, value);
            (ParseAttribute(text + rest, encoding) == Some(Parsed(name, value, |text|))
             <==> !HasHexReference(value) && At(rest, 0) != 0)
  {
    hide ReadText, Encoded, HasHexReference, ParseAttribute, ValidName, Readable, Blank, Spaced;
    var text := Spaced(w1, name, w2, w3) + Quoted(quote, value);
    var tail := Quoted(quote, value) + rest;
    assert text + rest == Spaced(w1, name, w2, w3) + tail;
    assert tail[0] == quote && tail[1..] == Encoded(value) + Closing(quote, rest);
    GapsParse(w1, name, w2, w3, tail, encoding);
    var p := |Spaced(w1, name, w2, w3)|;
    assert (text + rest)[p] == tail[0] && (text + rest)[p + 1..] == tail[1..];
    ValueRoundTrip(value, quote, rest, encoding);
  }

  lemma {:induction false} UnquotedStops(t: seq<byte>, p: nat, q: nat)
    requires p <= q <= |t| && EndsUnquoted(At(t, q))
    requires forall i | p <= i < q :: !EndsUnquoted(t[i]) && !IsQuote(t[i])
    ensures UnquotedEnd(t, p) == Some(q)
    decreases q - p
  {
    if p < q {
      UnquotedStops(t, p + 1, q);
    }
  }

  /** A value without quotes runs up to white space, a slash, an angle bracket or the end. */
  lemma UnquotedParse(w1: seq<byte>, name: seq<byte>, w2: seq<byte>, w3: seq<byte>, value: seq<byte>,
                      rest: seq<byte>, encoding: Encoding)
    requires Blank(w1, encoding) && Blank(w2, encoding) && Blank(w3, encoding) && ValidName(name, encoding)
    requires (w2 == [] || IsWhiteSpace(w2[0])) && value != [] && EndsUnquoted(At(rest, 0))
    requires forall i | 0 <= i < |value| :: !EndsUnquoted(value[i]) && !IsQuote(value[i])
    requires encoding.Utf8? ==> !MarkAt(value, 0)
    ensures var text := Spaced(w1, name, w2, w3) + value;
            ParseAttribute(text + rest, encoding) == Some(Parsed(name, value, |text|))
  {
    hide ReadText, ParseAttribute, ValidName, Blank, Spaced;
    var text, tail := Spaced(w1, name, w2, w3) + value, value + rest;
    var t, p := text + rest, |Spaced(w1, name, w2, w3)|;
    assert t == Spaced(w1, name, w2, w3) + tail;
    assert tail[0] == value[0];
    if encoding.Utf8? {
      NoMarkAcross(value, rest);
    }
    GapsParse(w1, name, w2, w3, tail, encoding);
    forall i | p <= i < p + |value| ensures !EndsUnquoted(t[i]) && !IsQuote(t[i]) {
      assert t[i] == value[i - p];
    }
    assert At(t, p + |value|) == At(rest, 0);
    UnquotedStops(t, p, p + |value|);
    assert t[p..p + |value|] == value;
    assert t[p] == value[0];
  }

  lemma NoMarkAcross(value: seq<byte>, rest: seq<byte>)
    requires value != [] && !MarkAt(value, 0) && EndsUnquoted(At(rest, 0))
    ensures !MarkAt(value + rest, 0)
  {
    var t := value + rest;
    assert forall i: nat | i < |value| :: t[i] == value[i];
    if |value| < 3 {
      assert At(t, |value|) == At(rest, 0);
    }
  }

  /**
    * An attribute printed and parsed again is itself, and parsing stops right after it, if and
    * only if its name is one the parser accepts, its value holds no `&#x` and the text goes on.
    */
  lemma AttributeRoundTrip(name: seq<byte>, value: seq<byte>, rest: seq<byte>, encoding: Encoding)
    requires Readable(value, encoding)
    ensures ParseAttribute(Printed(name, value) + rest, encoding) ==
            Some(Parsed(name, value, |Printed(name, value)|))
       <==> ValidName(name, encoding) && !HasHexReference(value) && At(rest, 0) != 0
  {
    hide ReadText, Encoded, HasHexReference, ParseAttribute, Readable, At;
    if ValidName(name, encoding) {
      NameEncodesAsItself(name);
      assert Printed(name, value) == Spaced([], name, [], []) + Quoted(QuoteFor(value), value);
      QuotedParse([], name, [], [], QuoteFor(value), value, rest, encoding);
    } else if ParseAttribute(Printed(name, value) + rest, encoding).Some? {
      ParsedNameValid(Printed(name, value) + rest, encoding);
    }
  }

  // ----- The loops -----

  method SkipWhiteSpace(t: seq<byte>, from: nat, encoding: Encoding) returns (p: nat)
    requires from <= |t|
    ensures p == SkipFrom(t, from, encoding)
  {
    p := from;
    if encoding.Utf8? {
      while At(t, p) != 0
        invariant from <= p <= |t| && SkipFrom(t, p, encoding) == SkipFrom(t, from, encoding)
        decreases |t| - p
      {
        if MarkAt(t, p) {
          p := p + 3;
          continue;
        }
        if IsWhiteSpace(t[p]) {
          p := p + 1;
        } else {
          break;
        }
      }
    } else {
      while At(t, p) != 0 && IsWhiteSpace(t[p])
        invariant from <= p <= |t| && SkipFrom(t, p, encoding) == SkipFrom(t, from, encoding)
        decreases |t| - p
      {
        p := p + 1;
      }
    }
  }

  method ReadName(t: seq<byte>, from: nat) returns (p: Option<nat>)
    requires from <= |t|
    ensures p == if StartsName(At(t, from)) then Some(NameEnd(t, from)) else None
  {
    if !StartsName(At(t, from)) {
      return None;
    }
    var i := from;
    while i < |t| && t[i] != 0 && IsNameByte(t[i])
      invariant from <= i <= |t| && NameEnd(t, i) == NameEnd(t, from)
    {
      i := i + 1;
    }
    p := Some(i);
  }

  method ReadUnquoted(t: seq<byte>, from: nat) returns (p: Option<nat>)
    requires from <= |t|
    ensures p == UnquotedEnd(t, from)
  {
    var i := from;
    while !EndsUnquoted(At(t, i))
      invariant from <= i <= |t| && UnquotedEnd(t, i) == UnquotedEnd(t, from)
      decreases |t| - i
    {
      if IsQuote(t[i]) {
        return None;
      }
      i := i + 1;
    }
    p := Some(i);
  }

  class Attribute {
    var name: seq<byte>
    var value: seq<byte>

    constructor (name: seq<byte>, value: seq<byte>)
      ensures this.name == name && this.value == value
    {
      this.name, this.value := name, value;
    }

    method Print() returns (str: seq<byte>)
      ensures str == Printed(name, value)
    {
      var n := XmlReader.EncodeString(name);
      var v := XmlReader.EncodeString(value);
      if QUOTE !in value {
        str := n + [EQUALS, QUOTE] + v + [QUOTE];
      } else {
        str := n + [EQUALS, APOSTROPHE] + v + [APOSTROPHE];
      }
    }

    /** Where the text goes on after the attribute; nothing for text that is not an attribute. */
    method Parse(t: seq<byte>, encoding: Encoding) returns (next: Option<nat>)
      modifies this
      ensures next.None? <==> ParseAttribute(t, encoding).None?
      ensures next.Some? ==> ParseAttribute(t, encoding) == Some(Parsed(name, value, next.value))
    {
      hide ReadText, SkipFrom, NameEnd, ParseValue, StartsName, IsNameByte, IsWhiteSpace, MarkAt;
      var start := SkipWhiteSpace(t, 0, encoding);
      var end := ReadName(t, start);
      if end == None {
        return None;
      }
      name := t[start..end.value];
      var p := SkipWhiteSpace(t, end.value, encoding);
      if At(t, p) != EQUALS {
        return None;
      }
      p := SkipWhiteSpace(t, p + 1, encoding);
      if At(t, p) == 0 {
        return None;
      }
      next := ReadValue(t, p, encoding);
    }

    method ReadValue(t: seq<byte>, p: nat, encoding: Encoding) returns (next: Option<nat>)
      requires p < |t|
      modifies this`value
      ensures next.None? <==> ParseValue(t, p, name, encoding).None?
      ensures next.Some? ==> ParseValue(t, p, name, encoding) == Some(Parsed(name, value, next.value))
    {
      hide ReadText;
      if t[p] == APOSTROPHE || t[p] == QUOTE {
        value, next := XmlReader.ReadTextFrom(t[p + 1..], [t[p]], encoding);
        next := Shift(next, p + 1);
      } else {
        next := ReadUnquoted(t, p);
        if next.Some? {
          value := t[p..next.value];
        }
      }
    }
  }
}
