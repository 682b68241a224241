/** Numeric character references: decimal and hexadecimal numerals are read by place value. */
module XmlReferences {
  import opened Bytes
  import opened XmlText

  /** A digit and, from ten on, the case of its letter. */
  datatype Digit = Digit(value: nat, upper: bool)

  predicate InBase(ds: seq<Digit>, base: nat) {
    forall i | 0 <= i < |ds| :: ds[i].value < base
  }

  function DigitByte(d: Digit): byte
    requires d.value < 16
  {
    if d.value < 10 then '0' as int + d.value
    else (if d.upper then 'A' as int else 'a' as int) + (d.value - 10)
  }

  function Spelled(ds: seq<Digit>): (r: seq<byte>)
    requires InBase(ds, 16)
    ensures |r| == |ds|
  {
    seq(|ds|, i requires 0 <= i < |ds| => DigitByte(ds[i]))
  }

  /** What a numeral means, its most significant digit first. */
  function Value(ds: seq<Digit>, base: nat): nat {
    if ds == [] then 0 else Value(ds[..|ds| - 1], base) * base + ds[|ds| - 1].value
  }

  /** What a reference to a character adds to the text. */
  function CharacterOf(n: nat, encoding: Encoding): seq<byte> {
    if encoding.Utf8? then ToUtf8(n) else [n % 256]
  }

  // ----- Reading from the right -----

  lemma DigitRead(d: Digit, base: nat)
    requires (base == 10 || base == 16) && d.value < base
    ensures DigitValue(DigitByte(d), base) == Some(d.value)
    ensures DigitByte(d) != 0 && DigitByte(d) != SEMICOLON && DigitByte(d) != HASH && DigitByte(d) != LOWER_X
  {
  }

  /** One digit: its weight is exact, or it is zero. */
  lemma OneDigit(power: nat, weight: nat, base: nat, d: nat, rest: nat, sum: nat)
    requires (base == 10 || base == 16) && d < base && 1 <= power
    requires power < 0x1_0000_0000 ==> weight == power
    requires sum + power * (rest * base + d) < 0x1_0000_0000
    ensures var more := (sum + weight * d % 0x1_0000_0000) % 0x1_0000_0000_0000_0000;
            && more == sum + power * d
            && more + power * base * rest == sum + power * (rest * base + d)
    ensures power * base < 0x1_0000_0000 ==> weight * base % 0x1_0000_0000 == power * base
  {
    Distribute(power, base, d, rest);
    if d == 0 {
      assert weight * d == 0;
    } else {
      Bounded(power, d, rest * base);
    }
    if power * base < 0x1_0000_0000 {
      Bounded(power, base, 0);
    }
  }

  lemma Distribute(power: nat, base: nat, d: nat, rest: nat)
    ensures power * (rest * base + d) == power * base * rest + power * d
  {
    assert power * (rest * base + d) == power * (rest * base) + power * d;
    assert power * (rest * base) == power * base * rest;
  }

  lemma Bounded(power: nat, d: nat, more: nat)
    requires 1 <= d
    ensures power <= power * d <= power * (more + d)
  {
    assert power * (more + d) == power * more + power * d;
    assert power * d == power + power * (d - 1);
  }

  /** The digits of a numeral, summed from the last one to the mark. */
  lemma {:induction false} DigitsSum(t: seq<byte>, first: nat, ds: seq<Digit>, mark: byte, base: nat,
                                     power: nat, weight: nat, sum: nat)
    requires (base == 10 || base == 16) && InBase(ds, base) && 1 <= power && (mark == HASH || mark == LOWER_X)
    requires 1 <= first && first + |ds| <= |t| && t[first - 1] == mark
    requires forall i | 0 <= i < |ds| :: t[first + i] == DigitByte(ds[i])
    requires power < 0x1_0000_0000 ==> weight == power
    requires sum + power * Value(ds, base) < 0x1_0000_0000
    ensures Digits(t, first - 1 + |ds|, mark, base, weight, sum) == Some(sum + power * Value(ds, base))
    decreases |ds|
  {
    hide DigitValue, DigitByte;
    if ds != [] {
      var n := |ds| - 1;
      var d, front := ds[n], ds[..n];
      assert t[first + n] == DigitByte(d);
      DigitRead(d, base);
      OneDigit(power, weight, base, d.value, Value(front, base), sum);
      var more := (sum + weight * d.value % 0x1_0000_0000) % 0x1_0000_0000_0000_0000;
      assert 1 <= power * base;
      DigitsSum(t, first, front, mark, base, power * base, weight * base % 0x1_0000_0000, more);
    }
  }

  lemma {:induction false} SemicolonAfter(t: seq<byte>, i: nat, k: nat)
    requires i <= k < |t| && t[k] == SEMICOLON && forall m | i <= m < k :: t[m] != SEMICOLON && t[m] != 0
    ensures FindSemicolon(t, i) == Some(k)
    decreases k - i
  {
    if i < k {
      SemicolonAfter(t, i + 1, k);
    }
  }

  /** A numeral between its mark and a semicolon is read as its value. */
  lemma NumeralReads(t: seq<byte>, first: nat, ds: seq<Digit>, mark: byte, base: nat, encoding: Encoding)
    requires (base == 10 || base == 16) && InBase(ds, base) && (mark == HASH || mark == LOWER_X)
    requires 2 <= first && first + |ds| < |t| && t[first - 1] == mark && t[first + |ds|] == SEMICOLON
    requires forall i | 0 <= i < |ds| :: t[first + i] == DigitByte(ds[i])
    requires Value(ds, base) < 0x1_0000_0000
    ensures ReadReference(t, first, mark, base, encoding)
         == Some((CharacterOf(Value(ds, base), encoding), first + |ds| + 1))
  {
    hide Digits, DigitByte, FindSemicolon, Value, ToUtf8;
    forall m | first <= m < first + |ds| ensures t[m] != SEMICOLON && t[m] != 0 {
      DigitRead(ds[m - first], base);
      assert t[first + (m - first)] == DigitByte(ds[m - first]);
    }
    SemicolonAfter(t, first, first + |ds|);
    assert 0 + 1 * Value(ds, base) == Value(ds, base);
    DigitsSum(t, first, ds, mark, base, 1, 1, 0);
  }

  function DecimalReference(ds: seq<Digit>): seq<byte>
    requires InBase(ds, 16)
  {
    Ascii("&#") + Spelled(ds) + Ascii(";")
  }

  function HexReference(ds: seq<Digit>): seq<byte>
    requires InBase(ds, 16)
  {
    Ascii("&#x") + Spelled(ds) + Ascii(";")
  }

  /**
    * A decimal reference, with any number of leading zeros, is read as the character of its
    * value, and nothing after its semicolon is taken.
    */
  lemma DecimalReads(ds: seq<Digit>, rest: seq<byte>, encoding: Encoding)
    requires InBase(ds, 10) && Value(ds, 10) < 0x1_0000_0000
    ensures ReadEntity(DecimalReference(ds) + rest, encoding)
         == Some((CharacterOf(Value(ds, 10), encoding), |DecimalReference(ds)|))
  {
    hide ReadReference, DigitByte, Value;
    var t := DecimalReference(ds) + rest;
    assert t[1] == HASH && t[2 + |ds|] == SEMICOLON;
    assert forall i | 0 <= i < |ds| :: t[2 + i] == Spelled(ds)[i];
    if ds != [] {
      DigitRead(ds[0], 10);
      assert t[2 + 0] == DigitByte(ds[0]);
    }
    NumeralReads(t, 2, ds, HASH, 10, encoding);
  }

  /** A hexadecimal reference, in either case of its letters, likewise. */
  lemma HexReads(ds: seq<Digit>, rest: seq<byte>, encoding: Encoding)
    requires InBase(ds, 16) && Value(ds, 16) < 0x1_0000_0000
    ensures ReadEntity(HexReference(ds) + rest, encoding)
         == Some((CharacterOf(Value(ds, 16), encoding), |HexReference(ds)|))
  {
    hide ReadReference, DigitByte, Value;
    var t := HexReference(ds) + rest;
    assert t[1] == HASH && t[2] == LOWER_X && t[3 + |ds|] == SEMICOLON;
    assert forall i | 0 <= i < |ds| :: t[3 + i] == Spelled(ds)[i];
    if ds != [] {
      DigitRead(ds[0], 16);
      assert t[3 + 0] == DigitByte(ds[0]);
    }
    NumeralReads(t, 3, ds, LOWER_X, 16, encoding);
  }

  // ----- Every number has its numeral -----

  function Front(n: nat, base: nat): nat {
    if base == 10 then n / 10 else n / 16
  }

  function Last(n: nat, base: nat): (d: nat)
    ensures (base == 10 || base == 16) ==> d < base && Front(n, base) * base + d == n
  {
    if base == 10 then n % 10 else n % 16
  }

  function Numeral(n: nat, base: nat, upper: bool): (ds: seq<Digit>)
    requires base == 10 || base == 16
    ensures ds != []
  {
    if n < base then [Digit(n, upper)] else Numeral(Front(n, base), base, upper) + [Digit(Last(n, base), upper)]
  }

  lemma {:induction false} NumeralMeans(n: nat, base: nat, upper: bool)
    requires base == 10 || base == 16
    ensures Value(Numeral(n, base, upper), base) == n && InBase(Numeral(n, base, upper), base)
    decreases n
  {
    if n >= base {
      NumeralMeans(Front(n, base), base, upper);
      var front := Numeral(Front(n, base), base, upper);
      assert Numeral(n, base, upper)[..|front|] == front;
    } else {
      var ds := [Digit(n, upper)];
      assert ds[..0] == [] && Value(ds[..0], base) == 0;
    }
  }

  /** Every number below 2 to the 32 is read back from its decimal and its hexadecimal reference. */
  lemma NumberReads(n: nat, upper: bool, rest: seq<byte>, encoding: Encoding)
    requires n < 0x1_0000_0000
    ensures InBase(Numeral(n, 10, upper), 16) && InBase(Numeral(n, 16, upper), 16)
    ensures var text := DecimalReference(Numeral(n, 10, upper));
            ReadEntity(text + rest, encoding) == Some((CharacterOf(n, encoding), |text|))
    ensures var text := HexReference(Numeral(n, 16, upper));
            ReadEntity(text + rest, encoding) == Some((CharacterOf(n, encoding), |text|))
  {
    hide ReadEntity, Numeral, Value, DecimalReference, HexReference, CharacterOf;
    NumeralMeans(n, 10, upper);
    NumeralMeans(n, 16, upper);
    DecimalReads(Numeral(n, 10, upper), rest, encoding);
    HexReads(Numeral(n, 16, upper), rest, encoding);
  }

  /** `&#65;` is the letter A; read in base 16 it would be another one. */
  lemma LetterA(rest: seq<byte>, encoding: Encoding)
    ensures ReadEntity(Ascii("&#65;") + rest, encoding) == Some((Ascii("A"), 5))
  {
    hide ReadEntity;
    var ds := [Digit(6, false), Digit(5, false)];
    assert ds[..1] == [Digit(6, false)] && ds[..1][..0] == [];
    assert Value(ds[..1], 10) == 6;
    assert Value(ds, 10) == 65;
    assert DecimalReference(ds) == Ascii("&#65;");
    DecimalReads(ds, rest, encoding);
    assert Ascii("A") == [65];
  }
}
