/**
  * End-of-line handling (section 2.11 of XML 1.0): the loop that normalises a buffer in
  * place with a read head and a write head.
  */
module XmlNewlines {
  import opened Bytes

  const CR: byte := 13
  const LF: byte := 10

  /** A carriage return, alone or with the line feed after it, becomes one line feed. */
  function Normalize(s: seq<byte>): seq<byte> {
    if s == [] then []
    else if s[0] == CR then [LF] + Normalize(if |s| > 1 && s[1] == LF then s[2..] else s[1..])
    else [s[0]] + Normalize(s[1..])
  }

  /** The same rule seen from the other end: drop each line feed that follows a carriage return, rename the rest. */
  function Renamed(s: seq<byte>, previous: byte): seq<byte> {
    if s == [] then []
    else (if s[0] == LF && previous == CR then [] else [if s[0] == CR then LF else s[0]]) + Renamed(s[1..], s[0])
  }

  lemma {:induction false} NormalizeIsRenamed(s: seq<byte>, previous: byte)
    ensures Renamed(s, previous) == if s != [] && s[0] == LF && previous == CR then Normalize(s[1..]) else Normalize(s)
    decreases |s|
  {
    if s != [] {
      NormalizeIsRenamed(s[1..], s[0]);
      if s[0] == CR && |s| > 1 && s[1] == LF {
        assert s[1..][1..] == s[2..];
      }
    }
  }

  lemma {:induction false} NoCarriageReturn(s: seq<byte>)
    ensures CR !in Normalize(s)
    decreases |s|
  {
    if s != [] {
      NoCarriageReturn(if s[0] == CR && |s| > 1 && s[1] == LF then s[2..] else s[1..]);
    }
  }

  lemma {:induction false} NothingToDo(s: seq<byte>)
    requires CR !in s
    ensures Normalize(s) == s
    decreases |s|
  {
    if s != [] {
      NothingToDo(s[1..]);
    }
  }

  lemma NormalizeTwice(s: seq<byte>)
    ensures Normalize(Normalize(s)) == Normalize(s)
  {
    NoCarriageReturn(s);
    NothingToDo(Normalize(s));
  }

  predicate SplitsPair(a: seq<byte>, b: seq<byte>) {
    a != [] && b != [] && a[|a| - 1] == CR && b[0] == LF
  }

  /** A text may be normalised in two parts exactly when the cut does not fall inside a CR LF pair. */
  lemma {:induction false} NormalizeInParts(a: seq<byte>, b: seq<byte>)
    ensures Normalize(a + b) == Normalize(a) + Normalize(b) <==> !SplitsPair(a, b)
    decreases |a|
  {
    if a == [] {
      assert a + b == b;
    } else if a[0] == CR && |a + b| > 1 && (a + b)[1] == LF {
      if |a| == 1 {
        assert (a + b)[2..] == b[1..];
        assert Normalize(a) == [LF];
        assert Normalize(b) == [LF] + Normalize(b[1..]);
      } else {
        assert (a + b)[2..] == a[2..] + b;
        NormalizeInParts(a[2..], b);
        Cons(LF, Normalize(a[2..]), Normalize(b), Normalize(a[2..] + b));
      }
    } else {
      assert (a + b)[1..] == a[1..] + b;
      NormalizeInParts(a[1..], b);
      Cons(if a[0] == CR then LF else a[0], Normalize(a[1..]), Normalize(b), Normalize(a[1..] + b));
    }
  }

  lemma Cons(x: byte, p: seq<byte>, q: seq<byte>, r: seq<byte>)
    ensures [x] + r == [x] + p + q <==> r == p + q
  {
    if [x] + r == [x] + p + q {
      assert r == ([x] + r)[1..] == ([x] + p + q)[1..] == p + q;
    }
    if r == p + q {
      assert [x] + r == [x] + p + q;
    }
  }

  /** The text of a buffer: the bytes before its first NUL. */
  function TextOf(s: seq<byte>): (r: seq<byte>)
    ensures |r| <= |s| && r == s[..|r|] && 0 !in r
    ensures |r| < |s| ==> s[|r|] == 0
  {
    if s == [] || s[0] == 0 then [] else [s[0]] + TextOf(s[1..])
  }

  lemma {:induction false} TextUnique(s: seq<byte>, n: nat)
    requires n < |s| && s[n] == 0 && 0 !in s[..n]
    ensures TextOf(s) == s[..n]
    decreases n
  {
    if n > 0 {
      assert s[0] == s[..n][0];
      assert s[1..][..n - 1] == s[..n][1..];
      TextUnique(s[1..], n - 1);
    }
  }

  /** Normalises the buffer's text in place; the buffer has one byte more than the text for the NUL. */
  method NormalizeInPlace(buf: array<byte>, length: nat)
    requires buf.Length == length + 1
    modifies buf
    ensures TextOf(buf[..]) == Normalize(TextOf(old(buf[..length]) + [0]))
  {
    hide Normalize, TextOf;
    ghost var before := buf[..length] + [0];
    ghost var text := TextOf(before);
    var p, q := 0, 0;
    buf[length] := 0;
    assert buf[..] == before;
    assert text[0..] == text;
    while buf[p] != 0
      invariant 0 <= q <= p <= |text| <= length && 0 !in buf[..q]
      invariant forall i | p <= i <= length :: buf[i] == before[i]
      invariant buf[..q] + Normalize(text[p..]) == Normalize(text)
      decreases |text| - p
    {
      ghost var done, at := buf[..q], p;
      Advance(text, p);
      if buf[p] == CR {
        buf[q] := LF;
        q, p := q + 1, p + 1;
        assert buf[..q] == done + [LF];
        if buf[p] == LF {
          p := p + 1;
        }
      } else {
        buf[q] := buf[p];
        q, p := q + 1, p + 1;
        assert buf[..q] == done + [text[at]];
      }
      Associate(done, buf[q - 1], Normalize(text[p..]));
    }
    ghost var done := buf[..q];
    assert text[p..] == [] && Normalize([]) == [] by { NothingToDo([]); }
    buf[q] := 0;
    assert buf[..q] == done;
    TextUnique(buf[..], q);
  }

  lemma Associate(a: seq<byte>, x: byte, b: seq<byte>)
    ensures a + ([x] + b) == (a + [x]) + b
  {
  }

  lemma Advance(text: seq<byte>, p: nat)
    requires p < |text|
    ensures text[p] != CR ==> Normalize(text[p..]) == [text[p]] + Normalize(text[p + 1..])
    ensures text[p] == CR && p + 1 < |text| && text[p + 1] == LF ==>
        Normalize(text[p..]) == [LF] + Normalize(text[p + 2..])
    ensures text[p] == CR && !(p + 1 < |text| && text[p + 1] == LF) ==>
        Normalize(text[p..]) == [LF] + Normalize(text[p + 1..])
  {
    var s := text[p..];
    assert s[1..] == text[p + 1..];
    if |s| > 1 {
      assert s[2..] == text[p + 2..] && s[1] == text[p + 1];
    }
  }
}
