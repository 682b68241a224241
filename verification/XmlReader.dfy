/** The loops that write and read attribute values, proved against the specification in XmlText. */
module XmlReader {
  import opened Bytes
  import opened XmlText

  // ----- Writing -----

  lemma PassOn(v: seq<byte>, i: nat)
    requires 1 <= i < |v|
    ensures v[i] == SEMICOLON || i == |v| - 1 ==> PassThrough(v, i) == i
    ensures !(v[i] == SEMICOLON || i == |v| - 1) ==> PassThrough(v, i) == PassThrough(v, i + 1)
  {
  }

  /** Copies a hexadecimal reference as it is, up to its semicolon or to the last byte. */
  method CopyReference(str: seq<byte>, start: nat, before: seq<byte>) returns (out: seq<byte>, i: nat)
    requires start <= |str| && StartsHexReference(str[start..])
    ensures i == start + PassThrough(str[start..], 1)
    ensures out == before + str[start..i]
  {
    out, i := before, start;
    ghost var v := str[start..];
    while i < |str| - 1
      invariant start <= i < |str| && out == before + str[start..i]
      invariant i > start ==> PassThrough(v, 1) == PassThrough(v, i - start) && str[i] != SEMICOLON
    {
      out := out + [str[i]];
      i := i + 1;
      assert v[i - start] == str[i];
      PassOn(v, i - start);
      if str[i] == SEMICOLON {
        break;
      }
    }
  }

  method EncodeString(str: seq<byte>) returns (out: seq<byte>)
    ensures out == Encoded(str)
  {
    hide EncodeByte, Encoded, PassThrough, StartsHexReference;
    out := [];
    var i := 0;
    EncodedNothing();
    assert str[0..] == str;
    while i < |str|
      invariant 0 <= i <= |str|
      invariant out + Encoded(str[i..]) == Encoded(str)
    {
      ghost var v, before := str[i..], out;
      var c := str[i];
      EncodedSteps(str, i);
      HexPrefix(v);
      if c == AMP && i < |str| - 2 && str[i + 1] == HASH && str[i + 2] == LOWER_X {
        out, i := CopyReference(str, i, out);
      } else {
        out := out + EncodeByte(c);
        i := i + 1;
      }
    }
    assert str[i..] == [];
  }

  lemma EncodedNothing()
    ensures Encoded([]) == []
  {
  }

  lemma EncodedSteps(str: seq<byte>, i: nat)
    requires i < |str|
    ensures !StartsHexReference(str[i..]) ==> Encoded(str[i..]) == EncodeByte(str[i]) + Encoded(str[i + 1..])
    ensures StartsHexReference(str[i..]) ==>
              var k := i + PassThrough(str[i..], 1);
              Encoded(str[i..]) == str[i..k] + Encoded(str[k..])
  {
    var v := str[i..];
    assert v[1..] == str[i + 1..];
    if StartsHexReference(v) {
      var k := PassThrough(v, 1);
      assert v[..k] == str[i..i + k];
      assert v[k..] == str[i + k..];
    }
  }

  // ----- Reading -----

  /** Writes the UTF-8 form of a code point from its last byte to its first. */
  method ConvertUtf32ToUtf8(input: nat, output: array<byte>) returns (length: nat)
    requires output.Length >= 4
    modifies output
    ensures length == |ToUtf8(input)| && output[..length] == ToUtf8(input)
  {
    length := if input < 0x80 then 1 else if input < 0x800 then 2 else if input < 0x10000 then 3
              else if input < 0x200000 then 4 else 0;
    if length == 0 {
      return;
    }
    var rest, o := input, length;
    Divisions(input);
    if length >= 4 {
      rest, o := PutContinuation(output, rest, o);
    }
    if length >= 3 {
      rest, o := PutContinuation(output, rest, o);
    }
    if length >= 2 {
      rest, o := PutContinuation(output, rest, o);
    }
    o := o - 1;
    output[o] := rest + (if length == 1 then 0 else if length == 2 then 0xC0 else if length == 3 then 0xE0 else 0xF0);
  }

  lemma Divisions(u: nat)
    ensures u / 64 / 64 == u / 4096 && u / 64 / 64 / 64 == u / 262144
  {
  }

  /** Writes six bits as a continuation byte in front of `o`. */
  method PutContinuation(output: array<byte>, word: nat, o: nat) returns (rest: nat, p: nat)
    requires 1 <= o <= output.Length
    modifies output
    ensures p == o - 1 && rest == word / 64 && output[p] == 0x80 + word % 64
    ensures forall i | 0 <= i < output.Length && i != p :: output[i] == old(output[i])
  {
    p, rest := o - 1, word / 64;
    output[p] := 0x80 + word % 64;
  }

  /** The C library's search for a semicolon. */
  method SearchSemicolon(t: seq<byte>, from: nat) returns (r: Option<nat>)
    ensures r == FindSemicolon(t, from)
  {
    var i := from;
    while i < |t| && t[i] != 0 && t[i] != SEMICOLON
      invariant from <= i && FindSemicolon(t, from) == FindSemicolon(t, i)
      decreases |t| - i
    {
      i := i + 1;
    }
    r := if i < |t| && t[i] == SEMICOLON then Some(i) else None;
  }

  /** Sums digits from right to left until the mark. */
  method SumDigits(t: seq<byte>, last: nat, mark: byte, base: nat) returns (r: Option<nat>)
    requires last < |t| && exists m :: 0 <= m <= last && t[m] == mark
    ensures r == Digits(t, last, mark, base, 1, 0)
  {
    ghost var m :| 0 <= m <= last && t[m] == mark;
    var q, mult, ucs := last, 1, 0;
    while t[q] != mark
      invariant m <= q <= last && 0 <= mult && 0 <= ucs
      invariant Digits(t, q, mark, base, mult, ucs) == Digits(t, last, mark, base, 1, 0)
      decreases q
    {
      var d := DigitValue(t[q], base);
      if d == None {
        return None;
      }
      ucs := (ucs + mult * d.value % 0x1_0000_0000) % 0x1_0000_0000_0000_0000;
      mult := mult * base % 0x1_0000_0000;
      q := q - 1;
    }
    r := Some(ucs);
  }

  method GetReference(t: seq<byte>, first: nat, mark: byte, base: nat, encoding: Encoding)
      returns (r: Option<(seq<byte>, nat)>)
    requires 2 <= first && first - 1 < |t| && t[first - 1] == mark
    ensures r == ReadReference(t, first, mark, base, encoding)
  {
    var end := SearchSemicolon(t, first);
    if end == None {
      return None;
    }
    var u := SumDigits(t, end.value - 1, mark, base);
    if u == None {
      return None;
    }
    if encoding.Utf8? {
      var cArr := new byte[4](_ => 0);
      var length := ConvertUtf32ToUtf8(u.value, cArr);
      r := Some((cArr[..length], end.value + 1));
    } else {
      r := Some(([u.value % 256], end.value + 1));
    }
  }

  method GetEntity(t: seq<byte>, encoding: Encoding) returns (r: Option<(seq<byte>, nat)>)
    requires t != []
    ensures r == ReadEntity(t, encoding)
  {
    if At(t, 1) == HASH && At(t, 2) != 0 {
      if At(t, 2) == LOWER_X {
        if At(t, 3) == 0 {
          return None;
        }
        r := GetReference(t, 3, LOWER_X, 16, encoding);
      } else {
        r := GetReference(t, 2, HASH, 10, encoding);
      }
      return;
    }
    var names := [ENTITY_AMP, ENTITY_LT, ENTITY_GT, ENTITY_QUOT, ENTITY_APOS];
    var chars := [AMP, LESS, GREATER, QUOTE, APOSTROPHE];
    for i := 0 to 5
      invariant forall j | 0 <= j < i :: !(names[j] <= t)
    {
      if names[i] <= t {
        return Some(([chars[i]], |names[i]|));
      }
    }
    assert !(names[0] <= t) && !(names[1] <= t) && !(names[2] <= t) && !(names[3] <= t) && !(names[4] <= t);
    r := Some(([], 1));
  }

  method GetChar(t: seq<byte>, encoding: Encoding) returns (r: Option<(seq<byte>, nat)>)
    requires t != []
    ensures r == ReadChar(t, encoding)
  {
    var length := if encoding.Utf8? then SequenceLength(t[0]) else 1;
    if length == 1 {
      if t[0] == AMP {
        r := GetEntity(t, encoding);
      } else {
        r := Some(([t[0]], 1));
      }
      return;
    }
    var value := CopyCharacter(t, length);
    r := Some((value, length));
  }

  lemma {:induction false} CopyBytesStop(t: seq<byte>, i: nat, n: nat)
    requires i <= n && i <= |t| && 0 !in t[..i]
    requires i == n || At(t, i) == 0
    ensures CopyBytes(t, n) == t[..i] + seq(n - i, _ => 0)
  {
    if i > 0 {
      assert t[1..][..i - 1] == t[..i][1..];
      assert t[0] == t[..i][0];
      CopyBytesStop(t[1..], i - 1, n - 1);
    }
  }

  method CopyCharacter(t: seq<byte>, n: nat) returns (value: seq<byte>)
    requires n <= 4
    ensures value == CopyBytes(t, n)
  {
    hide CopyBytes;
    var cArr := new byte[4](_ => 0);
    var i := 0;
    while i < n && At(t, i) != 0
      invariant 0 <= i <= n && i <= |t| && 0 !in t[..i]
      invariant cArr[..i] == t[..i]
      invariant forall k | i <= k < 4 :: cArr[k] == 0
    {
      cArr[i] := t[i];
      i := i + 1;
    }
    value := cArr[..n];
    assert value == t[..i] + seq(n - i, _ => 0);
    CopyBytesStop(t, i, n);
  }

  function ToLower(c: byte): byte {
    if 65 <= c <= 90 then c + 32 else c
  }

  predicate Alike(c: byte, d: byte, ignoreCase: bool) {
    if ignoreCase then ToLower(c) == ToLower(d) else c == d
  }

  method StringEqual(t: seq<byte>, tag: seq<byte>, ignoreCase: bool) returns (equal: bool)
    requires 0 !in tag
    ensures equal <==> |tag| <= |t| && forall i | 0 <= i < |tag| :: Alike(t[i], tag[i], ignoreCase)
    ensures !ignoreCase ==> (equal <==> tag <= t)
  {
    var i := 0;
    while At(t, i) != 0 && i < |tag| && Alike(t[i], tag[i], ignoreCase)
      invariant 0 <= i <= |tag| && i <= |t| && forall j | 0 <= j < i :: Alike(t[j], tag[j], ignoreCase)
      decreases |tag| - i
    {
      i := i + 1;
    }
    equal := i == |tag|;
  }

  // ----- Staying inside -----

  /** Reading up to the tag never steps past the end of the text. */
  predicate StaysInside(t: seq<byte>, tag: seq<byte>, encoding: Encoding)
    decreases |t|
  {
    At(t, 0) == 0 || tag <= t ||
    match ReadChar(t, encoding)
    case None => true
    case Some((_, k)) => k <= |t| && StaysInside(t[k..], tag, encoding)
  }

  lemma EntityEnds(t: seq<byte>, encoding: Encoding)
    requires t != [] && t[0] == AMP && ReadEntity(t, encoding).Some?
    ensures 1 <= ReadEntity(t, encoding).value.1 <= |t|
  {
    hide Digits, ToUtf8;
  }

  /** No character that starts in the last three bytes is cut off by the end of the text. */
  predicate EndsComplete(t: seq<byte>, encoding: Encoding) {
    encoding.Utf8? ==> forall i | 0 <= i < |t| && |t| <= i + 3 :: i + SequenceLength(t[i]) <= |t|
  }

  /** Then every step of reading stays inside, whatever comes before. */
  lemma {:induction false} CompleteStaysInside(t: seq<byte>, tag: seq<byte>, encoding: Encoding)
    requires EndsComplete(t, encoding)
    ensures StaysInside(t, tag, encoding)
    decreases |t|
  {
    hide ReadEntity, CopyBytes;
    if At(t, 0) != 0 && !(tag <= t) && ReadChar(t, encoding).Some? {
      var k := ReadChar(t, encoding).value.1;
      if t[0] == AMP {
        EntityEnds(t, encoding);
      }
      assert k <= |t|;
      var rest := t[k..];
      assert forall i | 0 <= i < |rest| :: rest[i] == t[k + i];
      CompleteStaysInside(rest, tag, encoding);
    }
  }

  /** Well-formed text ends so. */
  lemma {:induction false} ReadableEndsComplete(t: seq<byte>, encoding: Encoding)
    requires Readable(t, encoding)
    ensures EndsComplete(t, encoding)
    decreases |t|
  {
    if t != [] && encoding.Utf8? {
      var n := SequenceLength(t[0]);
      var rest := t[n..];
      ReadableEndsComplete(rest, encoding);
      forall i | 0 <= i < |t| && |t| <= i + 3 ensures i + SequenceLength(t[i]) <= |t| {
        if i >= n {
          assert rest[i - n] == t[i];
        }
      }
    }
  }

  /** The condition is needed: a text that ends in the first byte of two. */
  lemma CutOff()
    ensures !EndsComplete([0xC3], Utf8) && !StaysInside([0xC3], [QUOTE], Utf8)
  {
    var t: seq<byte> := [0xC3];
    assert t[0] == 0xC3 && ReadChar(t, Utf8).value.1 == 2;
  }

  /** One turn of the reading loop, at position `p`. */
  lemma ReadTextAt(t: seq<byte>, p: nat, tag: seq<byte>, encoding: Encoding)
    requires p <= |t|
    ensures At(t, p) == 0 ==> ReadText(t[p..], tag, encoding) == ([], None)
    ensures At(t, p) != 0 && tag <= t[p..] ==>
              ReadText(t[p..], tag, encoding) == ([], if At(t, p + |tag|) != 0 then Some(|tag|) else None)
    ensures At(t, p) != 0 && !(tag <= t[p..]) ==>
              var r := ReadChar(t[p..], encoding);
              ReadText(t[p..], tag, encoding) ==
              if r == None then ([], None)
              else if p + r.value.1 > |t| then (r.value.0, None)
              else
                var rest := ReadText(t[p + r.value.1..], tag, encoding);
                (r.value.0 + rest.0, Shift(rest.1, r.value.1))
  {
    hide ReadChar;
    var r := if p < |t| then ReadChar(t[p..], encoding) else None;
    if r.Some? && p + r.value.1 <= |t| {
      assert t[p..][r.value.1..] == t[p + r.value.1..];
    }
  }

  /** The text up to a tag, keeping all white space. */
  method ReadTextFrom(t: seq<byte>, tag: seq<byte>, encoding: Encoding) returns (out: seq<byte>, next: Option<nat>)
    requires 0 !in tag
    ensures (out, next) == ReadText(t, tag, encoding)
  {
    hide ReadChar, ReadText;
    out := [];
    var p := 0;
    assert t[0..] == t;
    while true
      invariant 0 <= p <= |t|
      invariant ReadText(t, tag, encoding).0 == out + ReadText(t[p..], tag, encoding).0
      invariant ReadText(t, tag, encoding).1 == Shift(ReadText(t[p..], tag, encoding).1, p)
      decreases |t| - p
    {
      ReadTextAt(t, p, tag, encoding);
      assert out + [] == out;
      if At(t, p) == 0 {
        return out, None;
      }
      var ended := StringEqual(t[p..], tag, false);
      if ended {
        return out, if At(t, p + |tag|) != 0 then Some(p + |tag|) else None;
      }
      var r := GetChar(t[p..], encoding);
      if r == None {
        return out, None;
      }
      out := out + r.value.0;
      if p + r.value.1 > |t| {
        return out, None;
      }
      p := p + r.value.1;
    }
  }
}
