/** The characters behind the numbers: how entities, quotes and classes of characters are spelled. */
module XmlSpelling {
  import opened Bytes
  import opened XmlAttribute
  import opened XmlNewlines
  import XmlReader
  import opened XmlRoundTrip
  import opened XmlText

  /** The five entities of section 4.6 of XML 1.0, as they are written. */
  lemma EntitiesWritten()
    ensures EncodeByte('&' as int) == Ascii("&amp;") && EncodeByte('<' as int) == Ascii("&lt;")
    ensures EncodeByte('>' as int) == Ascii("&gt;") && EncodeByte('"' as int) == Ascii("&quot;")
    ensures EncodeByte('\'' as int) == Ascii("&apos;")
    ensures EncodeByte('\n' as int) == Ascii("&#x0A;") && EncodeByte(31) == Ascii("&#x1F;")
  {
  }

  /** And as they are read. */
  lemma EntitiesRead(rest: seq<byte>, encoding: Encoding)
    ensures ReadEntity(Ascii("&amp;") + rest, encoding) == Some((Ascii("&"), 5))
    ensures ReadEntity(Ascii("&lt;") + rest, encoding) == Some((Ascii("<"), 4))
    ensures ReadEntity(Ascii("&gt;") + rest, encoding) == Some((Ascii(">"), 4))
    ensures ReadEntity(Ascii("&quot;") + rest, encoding) == Some((Ascii("\""), 6))
    ensures ReadEntity(Ascii("&apos;") + rest, encoding) == Some((Ascii("'"), 6))
  {
    hide ReadEntity, EncodeByte;
    EntitiesWritten();
    NamedEntity(AMP, rest, encoding);
    NamedEntity(LESS, rest, encoding);
    NamedEntity(GREATER, rest, encoding);
    NamedEntity(QUOTE, rest, encoding);
    NamedEntity(APOSTROPHE, rest, encoding);
    assert Ascii("&") == [AMP] && Ascii("<") == [LESS] && Ascii(">") == [GREATER];
    assert Ascii("\"") == [QUOTE] && Ascii("'") == [APOSTROPHE];
  }

  /** A byte is written as itself exactly if it is no control character and none of the five. */
  lemma WrittenAsItself(c: byte)
    ensures EncodeByte(c) == [c] <==>
              32 <= c && c != '&' as int && c != '<' as int && c != '>' as int && c != '"' as int && c != '\'' as int
  {
  }

  /** Double quotes, unless the value holds one. */
  lemma QuoteChosen(value: seq<byte>)
    ensures QuoteFor(value) == if '"' as int in value then '\'' as int else '"' as int
  {
  }

  /** A name and a value in which every byte is written as itself are printed as one would write them. */
  lemma PrintedPlainly(name: seq<byte>, value: seq<byte>)
    requires forall c | c in name :: EncodeByte(c) == [c]
    requires forall c | c in value :: EncodeByte(c) == [c]
    ensures Printed(name, value) == name + Ascii("=\"") + value + Ascii("\"")
  {
    hide EncodeByte;
    PlainEncoded(name);
    PlainEncoded(value);
    WrittenAsItself(QUOTE);
    assert Ascii("=\"") == [EQUALS, QUOTE] && Ascii("\"") == [QUOTE];
  }

  lemma {:induction false} PlainEncoded(v: seq<byte>)
    requires forall c | c in v :: EncodeByte(c) == [c]
    ensures Encoded(v) == v
  {
    hide EncodeByte, Encoded, StartsHexReference;
    if v == [] {
      XmlReader.EncodedNothing();
    } else {
      WrittenAsItself(v[0]);
      HexPrefix(v);
      PlainEncoded(v[1..]);
      assert v[0..] == v;
      XmlReader.EncodedSteps(v, 0);
      assert v == [v[0]] + v[1..];
    }
  }

  /** White space, letters and the other bytes of names. */
  lemma Classes(c: byte)
    ensures IsWhiteSpace(c) <==> c in Ascii(" \t\n\r") || c == 11 || c == 12
    ensures c < 127 ==> (IsAlpha(c) <==> 'a' <= c as char <= 'z' || 'A' <= c as char <= 'Z')
    ensures c < 127 ==> (IsNameByte(c) <==> IsAlpha(c) || '0' <= c as char <= '9' || c in Ascii("_-.:"))
    ensures c >= 127 ==> IsAlpha(c) && IsNameByte(c)
  {
    assert Ascii(" \t\n\r") == [32, 9, 10, 13];
    assert Ascii("_-.:") == [95, 45, 46, 58];
  }

  /** The three kinds of line end become one. */
  lemma LineEnds()
    ensures Normalize(Ascii("a\r\nb\rc\nd")) == Ascii("a\nb\nc\nd")
  {
    var t := Ascii("a\r\nb\rc\nd");
    assert t == [97, 13, 10, 98, 13, 99, 10, 100];
    assert t[5..] == [99, 10, 100] && Normalize(t[5..]) == t[5..] by { NothingToDo(t[5..]); }
    assert t[4..][1..] == t[5..] && t[3..][1..] == t[4..];
    assert Normalize(t[4..]) == [10] + t[5..];
    assert Normalize(t[3..]) == [98] + Normalize(t[4..]);
    assert t[1..][2..] == t[3..] && Normalize(t[1..]) == [10] + Normalize(t[3..]);
    assert Normalize(t) == [97] + Normalize(t[1..]);
    assert Ascii("a\nb\nc\nd") == [97, 10, 98, 10, 99, 10, 100];
  }

  /** A byte starts a longer sequence exactly if some code point's UTF-8 form starts with it, and as long as that. */
  lemma LeadBytes(c: byte)
    ensures SequenceLength(c) > 1 <==> exists u: nat :: Leads(c, u)
    ensures forall u: nat | Leads(c, u) :: SequenceLength(c) == |ToUtf8(u)|
  {
    forall u: nat | Leads(c, u) ensures SequenceLength(c) == |ToUtf8(u)| && SequenceLength(c) > 1 {
      TableKnowsConverter(u);
    }
    if SequenceLength(c) > 1 {
      var u: nat :=
        if c < 0xE0 then (c - 0xC0) * 64
        else if c == 0xE0 then 0x800
        else if c < 0xF0 then (c - 0xE0) * 4096
        else if c == 0xF0 then 0x10000
        else (c - 0xF0) * 262144;
      assert Leads(c, u);
    }
  }

  /** Some code point from 0x80 on, below where the table ends, starts with the byte. */
  predicate Leads(c: byte, u: nat) {
    0x80 <= u < 0x140000 && ToUtf8(u)[0] == c
  }

  /** The marks that are skipped: the byte order mark and the two characters that are none. */
  lemma Marks(a: byte, b: byte, c: byte)
    ensures IsMark(a, b, c) <==> [a, b, c] in {ToUtf8(0xFEFF), ToUtf8(0xFFFE), ToUtf8(0xFFFF)}
  {
    assert ToUtf8(0xFEFF) == [0xEF, 0xBB, 0xBF];
    assert ToUtf8(0xFFFE) == [0xEF, 0xBF, 0xBE];
    assert ToUtf8(0xFFFF) == [0xEF, 0xBF, 0xBF];
  }

  /** What ends a value without quotes. */
  lemma Terminators(c: byte)
    ensures EndsUnquoted(c) <==> c == 0 || IsWhiteSpace(c) || c == '/' as int || c == '>' as int
  {
  }

  /** An ampersand that introduces nothing known is dropped, and what follows it is kept. */
  lemma UnknownEntity(t: seq<byte>, encoding: Encoding)
    requires t != [] && t[0] == '&' as int && At(t, 1) != '#' as int
    requires !(Ascii("&amp;") <= t) && !(Ascii("&lt;") <= t) && !(Ascii("&gt;") <= t)
    requires !(Ascii("&quot;") <= t) && !(Ascii("&apos;") <= t)
    ensures ReadEntity(t, encoding) == Some(([], 1))
  {
    EntitiesWritten();
  }

  /** Ignoring case, two bytes agree exactly if they are equal or the two cases of one letter. */
  lemma SameLetter(c: byte, d: byte)
    ensures XmlReader.Alike(c, d, true) <==>
              c == d || (c as int + 32 == d && 'A' as int <= c <= 'Z' as int)
                     || (d as int + 32 == c && 'A' as int <= d <= 'Z' as int)
  {
  }
}
