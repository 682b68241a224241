/**
  * Eight bytes compared as one little-endian word: the exclusive-or of two words is
  * zero when the bytes agree, and the number of its trailing zero bits locates the
  * first byte at which they differ.
  */
module Lz4Words {
  import opened Bytes

  function Octet(b: byte): bv64 {
    (b as bv8) as bv64
  }

  /** `w` with `b` shifted in below it. */
  function Prepend(b: bv64, w: bv64): bv64 {
    b | (w << 8)
  }

  /** The little-endian word of up to eight bytes. */
  function Word(s: seq<byte>): bv64
    requires |s| <= 8
  {
    if s == [] then 0 else Prepend(Octet(s[0]), Word(s[1..]))
  }

  function Xor(a: bv64, b: bv64): bv64 {
    a ^ b
  }

  function Difference(a: seq<byte>, b: seq<byte>): bv64
    requires |a| <= 8 && |b| <= 8
  {
    Xor(Word(a), Word(b))
  }

  predicate LowByteClear(v: bv64) {
    v & 0xff == 0
  }

  function DropLow(v: bv64): bv64 {
    v >> 8
  }

  /** The number of trailing zero bits. */
  function TrailingZeros(v: bv64): nat
    requires v != 0
    decreases v
  {
    if v & 1 == 1 then 0 else 1 + TrailingZeros(v >> 1)
  }

  function NbCommonBytes(v: bv64): nat
    requires v != 0
  {
    TrailingZeros(v) / 8
  }

  lemma OctetValue(b: byte)
    ensures (b as bv8) as int == b
  {
    assert (b as bv8) as int < 256;
  }

  lemma OctetInjective(a: byte, b: byte)
    ensures Octet(a) == Octet(b) ==> a == b
  {
    OctetValue(a);
    OctetValue(b);
  }

  lemma OctetRange(b: byte)
    ensures OneByte(Octet(b))
  {
  }

  lemma Shift4(v: bv64)
    requires v != 0 && v & 0xf == 0
    ensures v >> 4 != 0 && TrailingZeros(v) == 4 + TrailingZeros(v >> 4)
  {
    assert v & 1 == 0 && (v >> 1) & 1 == 0 && (v >> 2) & 1 == 0 && (v >> 3) & 1 == 0;
    assert (v >> 1) >> 1 == v >> 2;
    assert (v >> 2) >> 1 == v >> 3;
    assert (v >> 3) >> 1 == v >> 4;
    assert TrailingZeros(v) == 2 + TrailingZeros(v >> 2);
    assert TrailingZeros(v >> 2) == 2 + TrailingZeros(v >> 4);
  }

  lemma Below4(v: bv64)
    requires v & 0xf != 0
    ensures TrailingZeros(v) < 4
  {
    assert (v >> 1) >> 1 == v >> 2;
    assert (v >> 2) >> 1 == v >> 3;
    if v & 1 == 1 {
    } else if (v >> 1) & 1 == 1 {
    } else if (v >> 2) & 1 == 1 {
      assert TrailingZeros(v >> 1) == 1 + TrailingZeros(v >> 2);
    } else {
      assert (v >> 3) & 1 == 1;
      assert TrailingZeros(v >> 2) == 1 + TrailingZeros(v >> 3);
      assert TrailingZeros(v >> 1) == 1 + TrailingZeros(v >> 2);
    }
  }

  lemma LowByteZeros(v: bv64)
    requires v != 0 && LowByteClear(v)
    ensures DropLow(v) != 0 && TrailingZeros(v) == 8 + TrailingZeros(DropLow(v))
  {
    hide TrailingZeros;
    NibbleShifts(v);
    Shift4(v);
    Shift4(v >> 4);
  }

  lemma NibbleShifts(v: bv64)
    requires v != 0 && v & 0xff == 0
    ensures v & 0xf == 0 && v >> 4 != 0 && (v >> 4) & 0xf == 0 && (v >> 4) >> 4 == v >> 8
  {
  }

  lemma LowByteSet(v: bv64)
    requires !LowByteClear(v)
    ensures v != 0 && TrailingZeros(v) < 8
  {
    if v & 0xf != 0 {
      Below4(v);
    } else {
      Shift4(v);
      Below4(v >> 4);
    }
  }

  /** A clear low byte counts as one common byte; a set one ends the count. */
  lemma CommonBytesStep(v: bv64)
    requires v != 0
    ensures !LowByteClear(v) ==> NbCommonBytes(v) == 0
    ensures LowByteClear(v) ==> DropLow(v) != 0 && NbCommonBytes(v) == 1 + NbCommonBytes(DropLow(v))
  {
    hide LowByteClear, DropLow, TrailingZeros;
    if LowByteClear(v) {
      LowByteZeros(v);
    } else {
      LowByteSet(v);
    }
  }

  /** `w` has no bit above its lowest `n` bytes. */
  predicate Fits(w: bv64, n: nat) {
    match n
    case 0 => w == 0
    case 1 => w <= 0xff
    case 2 => w <= 0xffff
    case 3 => w <= 0xff_ffff
    case 4 => w <= 0xffff_ffff
    case 5 => w <= 0xff_ffff_ffff
    case 6 => w <= 0xffff_ffff_ffff
    case 7 => w <= 0xff_ffff_ffff_ffff
    case _ => true
  }

  predicate OneByte(w: bv64) {
    w <= 0xff
  }

  predicate SevenBytes(w: bv64) {
    w <= 0xff_ffff_ffff_ffff
  }

  lemma Join(a: bv64, w: bv64, n: nat)
    requires n < 8 && OneByte(a) && Fits(w, n)
    ensures Fits(Prepend(a, w), n + 1)
  {
  }

  lemma WordFront(s: seq<byte>)
    requires 1 <= |s| <= 8
    ensures Word(s) == Prepend(Octet(s[0]), Word(s[1..]))
  {
  }

  lemma {:induction false} WordFits(s: seq<byte>)
    requires |s| <= 8
    ensures Fits(Word(s), |s|)
    decreases |s|
  {
    hide *;
    if s == [] {
      EmptyWordFits();
    } else {
      WordFits(s[1..]);
      OctetRange(s[0]);
      Join(Octet(s[0]), Word(s[1..]), |s| - 1);
      WordFront(s);
    }
  }

  lemma EmptyWordFits()
    ensures Fits(Word([]), 0)
  {
  }

  lemma FitsBelow(w: bv64, n: nat)
    requires n <= 7 && Fits(w, n)
    ensures SevenBytes(w)
  {
  }

  lemma XorSplit(a: bv64, b: bv64, c: bv64, d: bv64)
    requires OneByte(a) && OneByte(b) && SevenBytes(c) && SevenBytes(d)
    ensures LowByteClear(Xor(Prepend(a, c), Prepend(b, d))) <==> a == b
    ensures DropLow(Xor(Prepend(a, c), Prepend(b, d))) == Xor(c, d)
  {
  }

  lemma DifferenceSplit(a: seq<byte>, b: seq<byte>)
    requires 1 <= |a| == |b| <= 8
    ensures LowByteClear(Difference(a, b)) <==> a[0] == b[0]
    ensures DropLow(Difference(a, b)) == Difference(a[1..], b[1..])
  {
    hide LowByteClear, DropLow, Prepend, Octet, Word, Fits, Xor, OneByte, SevenBytes;
    WordFront(a);
    WordFront(b);
    WordFits(a[1..]);
    WordFits(b[1..]);
    FitsBelow(Word(a[1..]), |a| - 1);
    FitsBelow(Word(b[1..]), |a| - 1);
    OctetRange(a[0]);
    OctetRange(b[0]);
    XorSplit(Octet(a[0]), Octet(b[0]), Word(a[1..]), Word(b[1..]));
    OctetInjective(a[0], b[0]);
  }

  lemma ZeroSplit(v: bv64)
    ensures v == 0 <==> LowByteClear(v) && DropLow(v) == 0
  {
  }

  /** The word difference is zero on equal bytes, and otherwise locates the first difference. */
  lemma {:induction false} FirstDifference(a: seq<byte>, b: seq<byte>)
    requires |a| == |b| <= 8
    ensures Difference(a, b) == 0 <==> a == b
    ensures a != b ==>
              var k := NbCommonBytes(Difference(a, b));
              k < |a| && a[..k] == b[..k] && a[k] != b[k]
    decreases |a|
  {
    if a == [] {
      assert Difference(a, b) == 0;
    } else {
      hide *;
      DifferenceSplit(a, b);
      FirstDifference(a[1..], b[1..]);
      assert a == [a[0]] + a[1..] && b == [b[0]] + b[1..];
      var v := Difference(a, b);
      ZeroSplit(v);
      if a != b {
        CommonBytesStep(v);
        var k := NbCommonBytes(v);
        if a[0] == b[0] {
          assert a[..k] == [a[0]] + a[1..][..k - 1];
          assert b[..k] == [b[0]] + b[1..][..k - 1];
        }
      }
    }
  }
}
