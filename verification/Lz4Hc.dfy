/**
  * The LZ4 HC compressor: a lazy parser that keeps up to three overlapping matches in
  * hand.  The source's labels `_Search2` and `_Search3` are the states of a machine.
  */
module Lz4Hc {
  import opened Bytes
  import opened Lz4Block
  import opened Lz4Common
  import opened Lz4Encoder
  import opened Lz4HashChain

  const OPTIMAL_ML := 18

  // ----- Encoding one sequence -----

  /** The match length beyond its nibble, two bytes at a time. */
  method WriteMatchTail(dest: array<byte>, op: nat, length: nat) returns (o: nat)
    requires op + |LengthTail(length)| <= dest.Length
    modifies dest
    ensures o == op + |LengthTail(length)|
    ensures dest[..o] == old(dest[..op]) + LengthTail(length)
  {
    o := op;
    var len := length;
    ghost var result := dest[..op] + LengthTail(length);
    while len >= 510
      invariant op <= o && o + |LengthTail(len)| == op + |LengthTail(length)|
      invariant dest[..o] + LengthTail(len) == result
    {
      ghost var before := dest[..o];
      dest[o] := 255;
      dest[o + 1] := 255;
      assert dest[..o + 2] == before + [255, 255];
      TwoMore(before, len);
      o := o + 2;
      len := len - 510;
    }
    if len >= 255 {
      ghost var before := dest[..o];
      len := len - 255;
      dest[o] := 255;
      assert dest[..o + 1] == before + [255];
      assert before + LengthTail(len + 255) == (before + [255]) + LengthTail(len);
      o := o + 1;
    }
    ghost var before := dest[..o];
    dest[o] := len;
    o := o + 1;
    assert dest[..o] == before + [len];
  }

  lemma TwoMore(before: seq<byte>, len: nat)
    requires len >= 510
    ensures |LengthTail(len)| == 2 + |LengthTail(len - 510)|
    ensures before + LengthTail(len) == (before + [255, 255]) + LengthTail(len - 510)
  {
    assert LengthTail(len) == [255] + ([255] + LengthTail(len - 510));
  }

  method WriteMatchCode(dest: array<byte>, token: nat, op: nat, code: nat) returns (o: nat)
    requires token < op && op + |Extension(code)| <= dest.Length && dest[token] <= 240
    modifies dest
    ensures o == op + |Extension(code)|
    ensures dest[..o] == old(dest[..op])[token := old(dest[token]) + Nibble(code)] + Extension(code)
  {
    ghost var before := dest[..op];
    dest[token] := dest[token] + Nibble(code);
    assert dest[..op] == before[token := before[token] + Nibble(code)];
    o := op;
    if code >= ML_MASK {
      o := WriteMatchTail(dest, op, code - ML_MASK);
    }
  }

  /** `n` bytes at `start` that repeat those at `ref`. */
  datatype Match = Match(start: nat, ref: nat, len: nat) {
    function End(): nat {
      start + len
    }
  }

  predicate Usable(src: seq<byte>, m: Match) {
    m.start <= |src| - MFLIMIT && IsMatch(src, m.start, m.ref, m.len, |src| - LASTLITERALS)
  }

  /** A match as the finder gives it: usable, and as long as it can be. */
  predicate Full(src: seq<byte>, m: Match) {
    Usable(src, m) && Ends(src, m.start, m.ref, m.len, |src| - LASTLITERALS)
  }

  function AsSequence(src: seq<byte>, anchor: nat, m: Match): Sequence
    requires anchor <= m.start && Usable(src, m)
  {
    Sequence(src[anchor..m.start], m.start - m.ref, m.len)
  }

  method WriteSequence(dest: array<byte>, op: nat, src: seq<byte>, anchor: nat, m: Match) returns (o: nat)
    requires anchor <= m.start && Usable(src, m) && Encodable(AsSequence(src, anchor, m))
    requires op + |EncodeSequence(AsSequence(src, anchor, m))| + 8 <= dest.Length
    modifies dest
    ensures o == op + |EncodeSequence(AsSequence(src, anchor, m))|
    ensures dest[..o] == old(dest[..op]) + EncodeSequence(AsSequence(src, anchor, m))
  {
    hide EncodeSequence, Extension, EncodeRun, OffsetBytes, Token;
    ghost var x := AsSequence(src, anchor, m);
    ghost var before := dest[..op];
    SequenceSize(x);
    o := WriteLiterals(dest, op, src, anchor, m.start - anchor);
    o := WriteOffset(dest, o, m.start - m.ref);
    ghost var half := dest[..o];
    SequenceFromHalves(before, x);
    assert dest[op] == half[op];
    TokenRoom(m.start - anchor);
    o := WriteMatchCode(dest, op, o, m.len - MINMATCH);
    TokenSum(m.start - anchor, m.len - MINMATCH);
  }

  /** Emits the literals up to a match, and the match. */
  method Emit(e: Encoder, m: Match)
    requires e.Valid() && e.Roomy() && e.anchor <= m.start && Usable(e.src, m)
    modifies e, e.dest
    ensures e.Valid() && e.Roomy() && e.anchor == m.End()
    ensures old(Usable(e.src, m) && e.anchor <= m.start)
         && e.emitted == old(e.emitted) + [old(AsSequence(e.src, e.anchor, m))]
  {
    hide EncodeSequence, EncodeSequences, Plain, AllPlaced, AllEncodable, Extension;
    ghost var x := AsSequence(e.src, e.anchor, m);
    Extend(e.src, e.emitted, e.anchor, m.start, m.ref, m.len);
    SequenceSize(x);
    e.op := WriteSequence(e.dest, e.op, e.src, e.anchor, m);
    e.anchor := m.start + m.len;
    e.emitted := e.emitted + [x];
  }

  // ----- The parser -----

  /** What the parser holds: a position to search from, or matches still to be arranged. */
  datatype State =
    | Scan(ip: nat)
    | Search2(first: Match, saved: Match)
    | Search3(first: Match, second: Match)

  /** The furthest source position the state has accounted for. */
  function Reach(s: State): nat {
    match s
    case Scan(ip) => ip
    case Search2(first, _) => first.End()
    case Search3(_, second) => second.End()
  }

  function Rank(s: State): nat {
    if s.Scan? then 0 else 1
  }

  /**
    * The invariant of each label.  `n` is the length of the source, `anchor` the end of the
    * encoded text and `next` the first position not yet in the chains.
    */
  predicate Holding(src: seq<byte>, s: State, anchor: nat, next: int) {
    var n := |src|;
    match s
    case Scan(ip) =>
      1 <= ip && anchor <= ip <= n - LASTLITERALS && next <= ip
    case Search2(first, saved) =>
      && Full(src, first) && Full(src, saved)
      && anchor <= saved.start <= first.start <= saved.start + 2
      && (saved == first || saved.End() < n - MFLIMIT)
      && next + 2 <= first.End()
    case Search3(first, second) =>
      && Full(src, first) && Full(src, second)
      && anchor <= first.start <= second.start <= first.End() + 1
      && (second.start > first.End() ==> second.len >= 5)
      && first.End() < n - MFLIMIT
      && first.start + 8 <= second.End()
      && next + 3 <= second.End()
  }

  /** A match with its first `k` bytes dropped, and one cut to `k` bytes. */
  function Drop(m: Match, k: nat): Match
    requires k <= m.len
  {
    Match(m.start + k, m.ref + k, m.len - k)
  }

  function Cut(m: Match, k: nat): Match {
    Match(m.start, m.ref, k)
  }

  lemma DropUsable(src: seq<byte>, m: Match, k: nat)
    requires Usable(src, m) && k + MINMATCH <= m.len && m.start + k <= |src| - MFLIMIT
    ensures Usable(src, Drop(m, k)) && (Full(src, m) ==> Full(src, Drop(m, k)))
  {
    CommonSuffix(src, m.ref, m.start, m.len, k);
  }

  lemma CutUsable(src: seq<byte>, m: Match, k: nat)
    requires Usable(src, m) && MINMATCH <= k <= m.len
    ensures Usable(src, Cut(m, k))
  {
    CommonPrefix(src, m.ref, m.start, m.len, k);
  }

  /** How much of `first` to keep before `second` takes over. */
  function Kept(first: Match, second: Match): nat
    requires first.start + MINMATCH <= second.End()
  {
    var ml := if first.len > OPTIMAL_ML then OPTIMAL_ML else first.len;
    if first.start + ml > second.End() - MINMATCH then second.End() - MINMATCH - first.start else ml
  }

  /** At most eighteen bytes of the first match are kept, at most all of it, and four are left for the second. */
  lemma KeptIsLeast(first: Match, second: Match)
    requires first.start + MINMATCH <= second.End()
    ensures var kept := Kept(first, second);
            && kept <= 18 && kept <= first.len && first.start + kept + 4 <= second.End()
            && (kept == 18 || kept == first.len || first.start + kept + 4 == second.End())
  {
  }

  /** `second` without the bytes that the kept part of `first` overlaps. */
  function Yield(first: Match, second: Match): Match
    requires first.start <= second.start && first.start + MINMATCH <= second.End()
  {
    var correction := Kept(first, second) - (second.start - first.start);
    if correction > 0 then Drop(second, correction) else second
  }

  lemma YieldUsable(src: seq<byte>, first: Match, second: Match)
    requires Usable(src, first) && Usable(src, second) && first.start <= second.start
    requires first.start + 8 <= second.End() && first.End() <= |src| - MFLIMIT
    ensures MINMATCH <= Kept(first, second) <= first.len
    ensures
      var m := Yield(first, second);
      && Usable(src, m) && m.End() == second.End() && (Full(src, second) ==> Full(src, m))
      && second.start <= m.start
      && first.start + Kept(first, second) <= m.start
      && (m == second || m.start == first.start + Kept(first, second))
  {
    var correction := Kept(first, second) - (second.start - first.start);
    if correction > 0 {
      DropUsable(src, second, correction);
    }
  }

  /** The chains and the encoder work on the same source and share no array. */
  ghost predicate Ready(c: HashChain, e: Encoder)
    reads c, c.hashTable, c.chainTable, e, e.dest
  {
    && c.Valid() && e.Valid() && e.Roomy()
    && c.src == e.src && MFLIMIT < |e.src|
    && e.dest as object != c.hashTable && e.dest as object != c.chainTable
  }

  ghost predicate Parsing(c: HashChain, e: Encoder, s: State)
    reads c, c.hashTable, c.chainTable, e, e.dest
  {
    && Ready(c, e)
    && Holding(e.src, s, e.anchor, c.nextToUpdate - BASE)
  }

  /** Every step reaches further, or reaches as far and goes back to scanning. */
  predicate Advances(s: State, t: State) {
    Reach(t) > Reach(s) || (Reach(t) == Reach(s) && Rank(t) < Rank(s))
  }

  // ----- What a search has established -----

  /** If the attempts suffice, no earlier text within reach shares four bytes with `p`. */
  ghost predicate Barren(src: seq<byte>, p: nat, attempts: nat)
    requires 1 <= p && p + MINMATCH <= |src|
  {
    |Candidates(src, p + BASE)| <= attempts ==>
      forall ref: nat | ref < p <= ref + MAX_DISTANCE :: !Common(src, ref, p, MINMATCH)
  }

  ghost predicate Searched(src: seq<byte>, from: int, to: int, attempts: nat) {
    forall p: nat | 1 <= p && from <= p < to && p + MINMATCH <= |src| :: Barren(src, p, attempts)
  }

  /** The outcome of looking through `ip` for a match that is longer than `best`. */
  ghost predicate Looked(src: seq<byte>, ip: nat, low: nat, best: nat, attempts: nat, found: Option<Match>)
    requires ip + MFLIMIT <= |src|
  {
    match found
    case None => NoneWider(src, ip, low, |src| - LASTLITERALS, best, attempts)
    case Some(m) =>
      && best < m.len && low <= m.start <= ip && FullMatch(src, m.start, m.ref, m.len, |src| - LASTLITERALS)
      && NoneWider(src, ip, low, |src| - LASTLITERALS, m.len, attempts)
  }

  lemma NothingBarren(src: seq<byte>, ip: nat, attempts: nat)
    requires 1 <= ip < |src| - MFLIMIT && NoneLonger(src, ip, |src| - LASTLITERALS, 0, attempts)
    ensures Barren(src, ip, attempts)
  {
    hide Common, Candidates;
    if |Candidates(src, ip + BASE)| <= attempts {
      var limit := |src| - LASTLITERALS;
      forall ref: nat | ref < ip <= ref + MAX_DISTANCE ensures !Common(src, ref, ip, MINMATCH) {
        assert Covered(src, ref, ip, limit, 0);
      }
    }
  }

  /** Looks for a wider match; the encoder is left alone. */
  method Look(c: HashChain, e: Encoder, ip: nat, low: nat, best: nat, attempts: nat) returns (found: Option<Match>)
    requires Ready(c, e) && c.nextToUpdate <= ip + BASE && ip + MFLIMIT <= |e.src|
    requires low <= ip <= low + best <= |e.src| - LASTLITERALS
    modifies c`nextToUpdate, c.hashTable, c.chainTable
    ensures Ready(c, e) && c.nextToUpdate == ip + BASE
    ensures Looked(e.src, ip, low, best, attempts, found)
  {
    hide NoneWider;
    var ml, ref, start := c.InsertAndGetWiderMatch(ip, low, |c.src| - LASTLITERALS, best, attempts);
    found := if ml == best then None else Some(Match(start, ref, ml));
  }

  /** Emitting leaves the chains alone. */
  method EmitBeside(c: HashChain, e: Encoder, m: Match)
    requires Ready(c, e) && e.anchor <= m.start && Usable(e.src, m)
    modifies e, e.dest
    ensures Ready(c, e) && e.anchor == m.End()
    ensures Wrote(old(e.emitted), e.emitted, [m.len])
  {
    hide Usable;
    Emit(e, m);
  }

  /** The sequences written since, by the lengths of their matches. */
  ghost predicate Wrote(before: seq<Sequence>, after: seq<Sequence>, lengths: seq<nat>) {
    && |after| == |before| + |lengths| && after[..|before|] == before
    && forall i | 0 <= i < |lengths| :: after[|before| + i].matchLength == lengths[i]
  }

  lemma WroteNothing(emitted: seq<Sequence>)
    ensures Wrote(emitted, emitted, [])
  {
  }

  lemma WroteTwo(a: seq<Sequence>, b: seq<Sequence>, c: seq<Sequence>, m: nat, n: nat)
    requires Wrote(a, b, [m]) && Wrote(b, c, [n])
    ensures Wrote(a, c, [m, n])
  {
    assert c[..|a|] == c[..|b|][..|a|];
    var x, y := [m], [n];
    assert x[0] == m && y[0] == n;
    assert c[|a|] == c[..|b|][|a|] && b[|a| + 0].matchLength == x[0];
    assert c[|b| + 0].matchLength == y[0];
  }

  method StepScan(c: HashChain, e: Encoder, ip: nat, maxNbAttempts: nat) returns (s: State)
    requires Parsing(c, e, Scan(ip)) && ip < |e.src| - MFLIMIT
    modifies c`nextToUpdate, c.hashTable, c.chainTable
    ensures Parsing(c, e, s) && Advances(Scan(ip), s)
    ensures s.Scan? ==> s.ip == ip + 1 && Barren(e.src, ip, maxNbAttempts)
    ensures !s.Scan? ==>
              && s.Search2? && s.first == s.saved && s.first.start == ip
              && NoneLonger(e.src, ip, |e.src| - LASTLITERALS, s.first.len, maxNbAttempts)
  {
    hide Barren, NoneLonger;
    var ml, ref := c.InsertAndFindBestMatch(ip, |c.src| - LASTLITERALS, maxNbAttempts);
    if ml == 0 {
      s := Scan(ip + 1);
      NothingBarren(e.src, ip, maxNbAttempts);
    } else {
      s := Search2(Match(ip, ref, ml), Match(ip, ref, ml));
    }
  }

  method StepSearch2(c: HashChain, e: Encoder, first: Match, saved: Match, maxNbAttempts: nat)
      returns (s: State, found: Option<Match>)
    requires Parsing(c, e, Search2(first, saved))
    modifies c`nextToUpdate, c.hashTable, c.chainTable, e, e.dest
    ensures Parsing(c, e, s) && Advances(Search2(first, saved), s)
    ensures if first.End() < |e.src| - MFLIMIT
            then Looked(e.src, first.End() - 2, first.start, first.len, maxNbAttempts, found) else found == None
    ensures found.None? ==> s == Scan(first.End()) && e.anchor == first.End()
    ensures found.Some? ==> s == Arrange2(first, saved, found.value) && e.anchor == old(e.anchor)
    ensures Wrote(old(e.emitted), e.emitted, if found.None? then [first.len] else [])
  {
    hide Looked, Ready, Wrote;
    found := None;
    if first.End() < |e.src| - MFLIMIT {
      found := Look(c, e, first.End() - 2, first.start, first.len, maxNbAttempts);
    }
    if found == None {
      EmitBeside(c, e, first);
      return Scan(first.End()), None;
    }
    WroteNothing(e.emitted);
    LookedFound(e.src, first.End() - 2, first.start, first.len, maxNbAttempts, found.value);
    s := Arrange2(first, saved, found.value);
    Arrange2Holds(e.src, first, saved, found.value, e.anchor);
  }

  lemma LookedFound(src: seq<byte>, ip: nat, low: nat, best: nat, attempts: nat, m: Match)
    requires ip + MFLIMIT <= |src| && Looked(src, ip, low, best, attempts, Some(m))
    ensures best < m.len && low <= m.start <= ip
    ensures FullMatch(src, m.start, m.ref, m.len, |src| - LASTLITERALS)
  {
  }

  /** A longer second match was found: restore the saved match if it still fits, drop the first if it is too short. */
  function Arrange2(first: Match, saved: Match, second: Match): State {
    var kept := Restored(first, saved, second);
    if second.start - kept.start < 3 then Search2(second, saved) else Search3(kept, second)
  }

  /** The first match as it was when it was saved, unless the second starts too far on. */
  function Restored(first: Match, saved: Match, second: Match): Match {
    if saved.start < first.start && second.start < first.start + saved.len then saved else first
  }

  /**
    * The first match starts elsewhere than it was saved exactly if it has moved and the second
    * starts too far on; both then go on to _Search3.
    */
  lemma StartsWhereSaved(src: seq<byte>, first: Match, saved: Match, second: Match, anchor: nat, next: int)
    requires Holding(src, Search2(first, saved), anchor, next)
    ensures
      var moved := saved.start < first.start && second.start >= first.start + saved.len;
      && (Restored(first, saved, second).start != saved.start <==> moved)
      && (moved ==> Arrange2(first, saved, second) == Search3(first, second))
  {
  }

  /** A source in which bytes 30 to 45 bring back three earlier stretches, each longer and later than the last. */
  function Stretches(): (src: seq<byte>)
    ensures |src| == 64
  {
    seq(64, i requires 0 <= i < 64 =>
      if i < 4 then i
      else if 6 <= i < 16 then i - 5
      else if 18 <= i < 29 then i - 13
      else if 30 <= i < 46 then i - 30
      else i + 50)
  }

  /**
    * The moved match is met: in this source a match of four bytes is saved, gives way to one of
    * ten that starts a byte later, and then a match of eleven starts too far on to restore it.
    * None of the three can be extended.
    */
  lemma MovedMatchStays()
    ensures
      var src := Stretches();
      var saved, first, second := Match(30, 0, 4), Match(31, 6, 10), Match(35, 18, 11);
      && Full(src, saved) && Full(src, first) && Full(src, second)
      && Holding(src, Search2(saved, saved), 0, saved.End() - 2)
      && Arrange2(saved, saved, first) == Search2(first, saved)
      && Holding(src, Search2(first, saved), 0, first.End() - 2) && first.End() < |src| - MFLIMIT
      && first.start <= second.start <= first.End() - 2 && first.len < second.len
      && Arrange2(first, saved, second) == Search3(first, second) && first.start != saved.start
  {
    var src := Stretches();
    assert src[0..4] == src[30..34];
    assert src[6..16] == src[31..41];
    assert src[18..29] == src[35..46];
    assert src[4] != src[34] && src[16] != src[41] && src[29] != src[46];
  }

  lemma Arrange2Holds(src: seq<byte>, first: Match, saved: Match, second: Match, anchor: nat)
    requires Holding(src, Search2(first, saved), anchor, first.End() - 2)
    requires first.End() < |src| - MFLIMIT
    requires first.start <= second.start <= first.End() - 2 && first.len < second.len
    requires FullMatch(src, second.start, second.ref, second.len, |src| - LASTLITERALS)
    ensures Holding(src, Arrange2(first, saved, second), anchor, first.End() - 2)
    ensures Reach(Arrange2(first, saved, second)) > first.End()
  {
    assert Full(src, second);
  }

  /** Where the third match leaves the first two. */
  function Arrange3(first: Match, second: Match, third: Match): State
    requires first.End() <= third.start < first.End() + 3 && second.len >= MINMATCH
  {
    var saved :=
      if second.start >= first.End() then second
      else if second.End() < first.End() + MINMATCH then third
      else Drop(second, first.End() - second.start);
    Search2(third, saved)
  }

  /** What is saved for _Search2: the rest of the second match past the first, if four bytes of it are left. */
  lemma Arrange3Saves(first: Match, second: Match, third: Match)
    requires first.End() <= third.start < first.End() + 3 && second.len >= MINMATCH
    ensures var s := Arrange3(first, second, third);
            && s.Search2? && s.first == third
            && (var from := if second.start < first.End() then first.End() else second.start;
                if from + 4 <= second.End() then s.saved.End() == second.End() && s.saved.start == from
                else s.saved == third)
  {
  }

  lemma Arrange3Holds(src: seq<byte>, first: Match, second: Match, third: Match, anchor: nat)
    requires Holding(src, Search3(first, second), anchor, second.End() - 3)
    requires second.End() < |src| - MFLIMIT
    requires second.start <= third.start <= second.End() - 3 && second.len < third.len
    requires FullMatch(src, third.start, third.ref, third.len, |src| - LASTLITERALS)
    requires first.End() <= third.start < first.End() + 3
    ensures Holding(src, Arrange3(first, second, third), first.End(), second.End() - 3)
    ensures Reach(Arrange3(first, second, third)) > second.End() && Arrange3(first, second, third).Search2?
  {
    assert Full(src, third);
    if second.start < first.End() && first.End() + MINMATCH <= second.End() {
      DropUsable(src, second, first.End() - second.start);
    }
  }

  lemma ReplaceHolds(src: seq<byte>, first: Match, second: Match, third: Match, anchor: nat)
    requires Holding(src, Search3(first, second), anchor, second.End() - 3)
    requires second.End() < |src| - MFLIMIT
    requires second.start <= third.start <= second.End() - 3 && second.len < third.len
    requires FullMatch(src, third.start, third.ref, third.len, |src| - LASTLITERALS)
    requires third.start < first.End()
    ensures Holding(src, Search3(first, third), anchor, second.End() - 3)
  {
    assert Full(src, third);
  }

  /** Three ascending matches: how the first is cut and what the second becomes. */
  function Settle(first: Match, second: Match): (Match, Match)
    requires first.start <= second.start && first.start + MINMATCH <= second.End()
  {
    if second.start >= first.End() then (first, second)
    else if second.start - first.start < ML_MASK then (Cut(first, Kept(first, second)), Yield(first, second))
    else (Cut(first, second.start - first.start), second)
  }

  /** The first match ends where the second starts; only a close second loses bytes, and then the first keeps few. */
  lemma SettleCuts(first: Match, second: Match)
    requires first.start <= second.start && first.start + MINMATCH <= second.End() && first.start + 8 <= second.End()
    requires first.len >= MINMATCH
    ensures
      var (a, b) := Settle(first, second);
      && a.start == first.start && b.End() == second.End() && second.start <= b.start
      && (second.start >= first.End() ==> a == first && b == second)
      && (second.start < first.End() ==> a.End() <= b.start && (a.End() == b.start || b == second))
      && (second.start - first.start >= 15 ==> b == second)
      && (b != second ==> a.len <= 18)
      && (second.start < first.End() && second.start - first.start >= 15 ==> a.End() == second.start)
  {
  }

  lemma SettleHolds(src: seq<byte>, first: Match, second: Match, third: Match, anchor: nat)
    requires Holding(src, Search3(first, second), anchor, second.End() - 3)
    requires first.start + MINMATCH <= second.start && second.End() < |src| - MFLIMIT
    requires second.start <= third.start <= second.End() - 3 && second.len < third.len
    requires FullMatch(src, third.start, third.ref, third.len, |src| - LASTLITERALS)
    requires first.End() + 3 <= third.start
    ensures
      var (a, b) := Settle(first, second);
      Usable(src, a) && a.start == first.start && Holding(src, Search3(b, third), a.End(), second.End() - 3)
  {
    hide Common, Ends;
    assert Full(src, third);
    if second.start < first.End() {
      YieldUsable(src, first, second);
      if second.start - first.start < ML_MASK {
        CutUsable(src, first, Kept(first, second));
      } else {
        CutUsable(src, first, second.start - first.start);
      }
    }
  }

  lemma YieldHolds(src: seq<byte>, first: Match, second: Match, anchor: nat, next: int)
    requires Holding(src, Search3(first, second), anchor, next)
    ensures
      var m := Yield(first, second);
      && Holding(src, Search3(first, m), anchor, next)
      && m.End() == second.End() && first.start + MINMATCH <= m.start
  {
    YieldUsable(src, first, second);
  }

  /** The second match as the first leaves it. */
  function Corrected(first: Match, second: Match): Match
    requires first.start <= second.start && first.start + MINMATCH <= second.End()
  {
    if second.start - first.start < OPTIMAL_ML then Yield(first, second) else second
  }

  method StepSearch3(c: HashChain, e: Encoder, first: Match, original: Match, maxNbAttempts: nat)
      returns (s: State, found: Option<Match>)
    requires Parsing(c, e, Search3(first, original))
    modifies c`nextToUpdate, c.hashTable, c.chainTable, e, e.dest
    ensures Parsing(c, e, s) && Advances(Search3(first, original), s)
    ensures first.start <= original.start && first.start + MINMATCH <= original.End()
    ensures var second := Corrected(first, original);
            if 3 <= second.End() < |e.src| - MFLIMIT
            then Looked(e.src, second.End() - 3, second.start, second.len, maxNbAttempts, found) else found == None
    ensures found.None? ==> s == Scan(original.End()) && e.anchor == original.End()
    ensures found.Some? ==> !s.Scan? && s == Place(first, Corrected(first, original), found.value)
    ensures Wrote(old(e.emitted), e.emitted,
                  if found.Some? then Emission(first, Corrected(first, original), found.value)
                  else [UpTo(first, Corrected(first, original)), Corrected(first, original).len])
  {
    hide Yield, Looked, Ready, Common, Ends, Kept, Wrote, Place, Emission;
    var second := Corrected(first, original);
    YieldHolds(e.src, first, original, e.anchor, c.nextToUpdate - BASE);
    found := None;
    if second.End() < |e.src| - MFLIMIT {
      found := Look(c, e, second.End() - 3, second.start, second.len, maxNbAttempts);
    }
    if found == None {
      s := EmitTwo(c, e, first, second);
    } else {
      LookedFound(e.src, second.End() - 3, second.start, second.len, maxNbAttempts, found.value);
      s := PlaceThird(c, e, first, second, found.value);
    }
  }

  /** How much of the first match comes before the second. */
  function UpTo(first: Match, second: Match): nat {
    if first.start <= second.start < first.End() then second.start - first.start else first.len
  }

  /** A longer third match was found: where that leaves the three. */
  function Place(first: Match, second: Match, third: Match): State
    requires first.start <= second.start && first.start + MINMATCH <= second.End() && second.len >= MINMATCH
  {
    if third.start < first.End() then Search3(first, third)
    else if third.start < first.End() + 3 then Arrange3(first, second, third)
    else Search3(Settle(first, second).1, third)
  }

  /** And what is written then. */
  function Emission(first: Match, second: Match, third: Match): seq<nat>
    requires first.start <= second.start && first.start + MINMATCH <= second.End()
  {
    if third.start < first.End() then []
    else if third.start < first.End() + 3 then [first.len]
    else [Settle(first, second).0.len]
  }

  /** A longer third match was found. */
  method PlaceThird(c: HashChain, e: Encoder, first: Match, second: Match, third: Match) returns (s: State)
    requires Parsing(c, e, Search3(first, second)) && c.nextToUpdate - BASE == second.End() - 3
    requires first.start + MINMATCH <= second.start && second.End() < |e.src| - MFLIMIT
    requires second.start <= third.start <= second.End() - 3 && second.len < third.len
    requires FullMatch(e.src, third.start, third.ref, third.len, |e.src| - LASTLITERALS)
    modifies e, e.dest
    ensures Parsing(c, e, s) && Reach(s) > second.End() && !s.Scan?
    ensures s == Place(first, second, third) && Wrote(old(e.emitted), e.emitted, Emission(first, second, third))
  {
    hide Settle, Arrange3, Ready, Wrote;
    WroteNothing(e.emitted);
    if third.start < first.End() + 3 {
      if third.start >= first.End() {
        Arrange3Holds(e.src, first, second, third, e.anchor);
        EmitBeside(c, e, first);
        s := Arrange3(first, second, third);
      } else {
        ReplaceHolds(e.src, first, second, third, e.anchor);
        s := Search3(first, third);
      }
    } else {
      SettleHolds(e.src, first, second, third, e.anchor);
      var settled := Settle(first, second);
      EmitBeside(c, e, settled.0);
      s := Search3(settled.1, third);
    }
  }

  /** No better third match: both matches are emitted, the first up to the second. */
  method EmitTwo(c: HashChain, e: Encoder, first: Match, second: Match) returns (s: State)
    requires Ready(c, e) && Usable(e.src, first) && Usable(e.src, second)
    requires e.anchor <= first.start && first.start + MINMATCH <= second.start
    requires c.nextToUpdate - BASE <= second.End()
    modifies e, e.dest
    ensures Parsing(c, e, s) && s == Scan(second.End()) && e.anchor == second.End()
    ensures Wrote(old(e.emitted), e.emitted, [UpTo(first, second), second.len])
  {
    hide Ready, Wrote;
    var ml := if second.start < first.End() then second.start - first.start else first.len;
    CutUsable(e.src, first, ml);
    EmitBeside(c, e, Cut(first, ml));
    ghost var between := e.emitted;
    EmitBeside(c, e, second);
    WroteTwo(old(e.emitted), between, e.emitted, ml, second.len);
    s := Scan(second.End());
  }

  method Step(c: HashChain, e: Encoder, s: State, maxNbAttempts: nat) returns (t: State)
    requires Parsing(c, e, s) && (s.Scan? ==> s.ip < |e.src| - MFLIMIT)
    modifies c`nextToUpdate, c.hashTable, c.chainTable, e, e.dest
    ensures Parsing(c, e, t) && Advances(s, t)
    ensures t.Scan? && !s.Scan? ==> t.ip == e.anchor
    ensures s.Scan? ==> 1 <= s.ip
    ensures t.Scan? && s.Scan? ==> t.ip == s.ip + 1 && e.anchor == old(e.anchor) && Barren(e.src, s.ip, maxNbAttempts)
  {
    hide Barren, Looked, Arrange2, Corrected, Wrote, Place, Emission;
    var found;
    match s
    case Scan(ip) => t := StepScan(c, e, ip, maxNbAttempts);
    case Search2(first, saved) =>
      t, found := StepSearch2(c, e, first, saved, maxNbAttempts);
      if found.Some? {
        NotScan(first, saved, found.value);
      }
    case Search3(first, second) => t, found := StepSearch3(c, e, first, second, maxNbAttempts);
  }

  lemma NotScan(first: Match, saved: Match, second: Match)
    ensures !Arrange2(first, saved, second).Scan?
  {
  }

  /** Compression into a destination that the bound allows for: it always ends, and decodes to the source. */
  method CompressHashChain(src: seq<byte>, dest: array<byte>, maxNbAttempts: nat) returns (size: nat)
    requires CompressBound(|src|) <= dest.Length
    modifies dest
    ensures |src| > LZ4_MAX_INPUT_SIZE ==> size == 0
    ensures |src| <= LZ4_MAX_INPUT_SIZE ==>
              && 0 < size <= CompressBound(|src|) && ValidBlock(dest[..size]) && Decoded(dest[..size]) == src
              && RunBarren(src, dest[..size], maxNbAttempts)
  {
    hide ValidBlock, Decoded, Barren, RunBarren, Parse;
    if |src| > LZ4_MAX_INPUT_SIZE {
      return 0;
    }
    var e := new Encoder(src, dest);
    if |src| >= MFLIMIT + 1 {
      ParseSource(e, maxNbAttempts);
    }
    ghost var b := Block(e.emitted, src[e.anchor..]);
    size := e.Finish();
    ValidNotEmpty(dest[..size]);
    ClosingRun(src, dest[..size], b, maxNbAttempts);
  }

  /** The closing run of the block starts no repeat that the attempts could have found. */
  ghost predicate RunBarren(src: seq<byte>, block: seq<byte>, attempts: nat) {
    Parse(block).Some? && Searched(src, |src| - |Parse(block).value.last|, |src| - MFLIMIT, attempts)
  }

  lemma ClosingRun(src: seq<byte>, block: seq<byte>, b: Block, attempts: nat)
    requires Parse(block) == Some(b) && |b.last| <= |src|
    requires |src| > MFLIMIT ==> Searched(src, |src| - |b.last|, |src| - MFLIMIT, attempts)
    ensures RunBarren(src, block, attempts)
  {
    hide Barren, Parse;
  }

  /** A repeat that the attempts could find is not left to the closing run: some sequence is written. */
  lemma RepeatIsUsed(src: seq<byte>, block: seq<byte>, attempts: nat, p: nat, ref: nat)
    requires ValidBlock(block) && Decoded(block) == src && RunBarren(src, block, attempts)
    requires 1 <= p < |src| - MFLIMIT && |Candidates(src, p + BASE)| <= attempts
    requires ref < p <= ref + MAX_DISTANCE && Common(src, ref, p, MINMATCH)
    ensures Parse(block).value.sequences != []
    ensures p < |src| - |Parse(block).value.last|
  {
    hide Parse, Common, Candidates, WellFormed;
    var b := Parse(block).value;
    assert p >= |src| - |b.last| ==> Barren(src, p, attempts);
    assert b.sequences == [] ==> Text(b) == b.last;
  }

  method ParseSource(e: Encoder, maxNbAttempts: nat)
    requires e.Valid() && e.Roomy() && MFLIMIT < |e.src| && e.anchor == 0
    modifies e, e.dest
    ensures e.Valid() && e.Roomy() && Searched(e.src, e.anchor, |e.src| - MFLIMIT, maxNbAttempts)
  {
    hide Holding, Barren, Searched, Ready;
    var c := new HashChain(e.src);
    var s := Scan(1);
    assert Holding(e.src, s, 0, 0) by { ScanHolds(e.src); }
    assert Ready(c, e) by { Fresh(c, e); }
    NothingSearched(e.src, maxNbAttempts);
    while !(s.Scan? && s.ip >= |e.src| - MFLIMIT)
      invariant Parsing(c, e, s)
      invariant s.Scan? ==> Searched(e.src, e.anchor, s.ip, maxNbAttempts)
      invariant fresh(c) && fresh(c.hashTable) && fresh(c.chainTable)
      decreases |e.src| - Reach(s), Rank(s)
    {
      ghost var before := s;
      ghost var anchor := e.anchor;
      s := Step(c, e, s, maxNbAttempts);
      if s.Scan? {
        SearchedOn(e.src, anchor, e.anchor, before, s.ip, maxNbAttempts);
      }
      ReachBounded(e.src, s, e.anchor, c.nextToUpdate - BASE);
    }
    Parsed(c, e, s.ip, maxNbAttempts);
  }

  lemma Fresh(c: HashChain, e: Encoder)
    requires c.Valid() && e.Valid() && e.Roomy() && c.src == e.src && MFLIMIT < |e.src|
    requires e.dest as object != c.hashTable && e.dest as object != c.chainTable
    ensures Ready(c, e)
  {
  }

  lemma Parsed(c: HashChain, e: Encoder, ip: nat, attempts: nat)
    requires Ready(c, e) && Searched(e.src, e.anchor, ip, attempts) && ip >= |e.src| - MFLIMIT
    ensures e.Valid() && e.Roomy() && Searched(e.src, e.anchor, |e.src| - MFLIMIT, attempts)
  {
    hide Barren;
  }

  lemma NothingSearched(src: seq<byte>, attempts: nat)
    ensures Searched(src, 0, 1, attempts)
  {
  }

  /** Scanning one position on, or starting afresh at the anchor. */
  lemma SearchedOn(src: seq<byte>, was: nat, anchor: nat, s: State, ip: nat, attempts: nat)
    requires s.Scan? ==>
               && ip == s.ip + 1 && was == anchor && Searched(src, was, s.ip, attempts)
               && 1 <= s.ip < |src| - MFLIMIT && Barren(src, s.ip, attempts)
    requires !s.Scan? ==> ip == anchor
    ensures Searched(src, anchor, ip, attempts)
  {
    hide Barren;
  }

  lemma ScanHolds(src: seq<byte>)
    requires MFLIMIT < |src|
    ensures Holding(src, Scan(1), 0, 0)
  {
  }

  lemma ReachBounded(src: seq<byte>, s: State, anchor: nat, next: int)
    requires Holding(src, s, anchor, next)
    ensures Reach(s) <= |src|
  {
  }
}
