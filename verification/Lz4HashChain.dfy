/**
  * The LZ4 HC match finder: a hash table of the newest position per hash and a table of
  * 16-bit distances from each position in a 64 KB window to the previous one with the
  * same hash.  An index is a position in the source plus BASE.
  */
module Lz4HashChain {
  import opened Bytes
  import opened Lz4Block
  import opened Lz4Common

  const BASE := 65536
  const HASHTABLESIZE := 32768
  const MAXD := 131072

  /** A multiplicative hash of four bytes. */
  function Hash(s: seq<byte>): (h: nat)
    requires |s| == 4
    ensures h < HASHTABLESIZE
  {
    var b0: int, b1: int, b2: int, b3: int := s[0], s[1], s[2], s[3];
    var word := b0 + 256 * b1 + 65536 * b2 + 16777216 * b3;
    ((word * 2654435761) % 0x1_0000_0000) / 131072
  }

  /** The hashes of the bytes with a single 1 determine the multiplier. */
  lemma HashOfUnit()
    ensures Hash([1, 0, 0, 0]) == 20251 && Hash([0, 1, 0, 0]) == 7100
    ensures Hash([0, 0, 1, 0]) == 15576 && Hash([0, 0, 0, 1]) == 22656
  {
  }

  // ----- Matches -----

  /** No match of `start` with `ref` that ends by `limit` is longer than `best`. */
  predicate Covered(src: seq<byte>, ref: nat, start: nat, limit: nat, best: nat) {
    forall n: nat | MINMATCH <= n && start + n <= limit && Common(src, ref, start, n) :: n <= best
  }

  /** Counting past four equal bytes gives the longest match at this reference. */
  lemma CountCovers(src: seq<byte>, ref: nat, start: nat, limit: nat, n: nat)
    requires ref < start && start + MINMATCH <= limit <= |src|
    requires Common(src, ref, start, MINMATCH)
    requires LongestCommon(src, ref + MINMATCH, start + MINMATCH, limit, n)
    ensures Common(src, ref, start, MINMATCH + n)
    ensures Covered(src, ref, start, limit, MINMATCH + n)
    ensures Ends(src, start, ref, MINMATCH + n, limit)
  {
    CommonExtends(src, ref, start, MINMATCH, n);
    forall m: nat | MINMATCH <= m && start + m <= limit && Common(src, ref, start, m)
      ensures m <= MINMATCH + n
    {
      if m > MINMATCH + n {
        CommonAt(src, ref, start, m, MINMATCH + n);
      }
    }
  }

  /** The quick test on the byte past the best length, and the test on four bytes, skip nothing longer. */
  lemma SkipCovers(src: seq<byte>, ref: nat, start: nat, limit: nat, best: nat)
    requires ref < start && start + best < |src| && start + MINMATCH <= |src|
    requires src[ref + best] != src[start + best] || !Common(src, ref, start, MINMATCH)
    ensures Covered(src, ref, start, limit, best)
  {
    forall m: nat | MINMATCH <= m && start + m <= limit && Common(src, ref, start, m)
      ensures m <= best
    {
      if m > best {
        CommonAt(src, ref, start, m, best);
        CommonPrefix(src, ref, start, m, MINMATCH);
      }
    }
  }

  // ----- Chains -----

  /** The hash at an index. */
  function Key(src: seq<byte>, p: nat): (h: nat)
    requires BASE <= p <= BASE + |src| - MINMATCH
    ensures h < HASHTABLESIZE
  {
    Hash(src[p - BASE..p - BASE + MINMATCH])
  }

  /** The newest index before `p` with hash `h`, or 0. */
  function Prev(src: seq<byte>, p: nat, h: nat): (q: nat)
    requires p <= BASE + |src| - MINMATCH + 1
    ensures q == 0 || (BASE <= q < p && Key(src, q) == h)
    ensures forall i | BASE <= i < p && Key(src, i) == h :: i <= q
  {
    if p <= BASE then 0
    else if Key(src, p - 1) == h then p - 1
    else Prev(src, p - 1, h)
  }

  function Delta(src: seq<byte>, p: nat): nat
    requires BASE <= p <= BASE + |src| - MINMATCH
  {
    var d := p - Prev(src, p, Key(src, p));
    if d > MAX_DISTANCE then MAX_DISTANCE else d
  }

  function LowLimit(p: nat): nat
    requires BASE <= p
  {
    if BASE + 65536 > p then BASE else p - 65535
  }

  /** The window indices before `p` and after `m` that share the hash of `p`. */
  ghost function Newer(src: seq<byte>, p: nat, m: int): set<nat>
    requires BASE <= p <= BASE + |src| - MINMATCH
  {
    set q: nat | m < q < p && LowLimit(p) <= q && Key(src, q) == Key(src, p)
  }

  /** All the window indices before `p` that share its hash. */
  ghost function Candidates(src: seq<byte>, p: nat): set<nat>
    requires BASE <= p <= BASE + |src| - MINMATCH
  {
    Newer(src, p, LowLimit(p) - 1)
  }

  lemma NewerStep(src: seq<byte>, p: nat, m: nat, next: nat)
    requires BASE <= p <= BASE + |src| - MINMATCH
    requires LowLimit(p) <= m < p && next < m && Key(src, m) == Key(src, p)
    requires forall q | LowLimit(p) <= q && next < q < m :: Key(src, q) != Key(src, p)
    ensures Newer(src, p, next) == Newer(src, p, m) + {m}
    ensures |Newer(src, p, next)| == |Newer(src, p, m)| + 1
  {
    var a, b := Newer(src, p, next), Newer(src, p, m) + {m};
    forall q ensures q in a <==> q in b {
      if q in a && q != m {
        assert q > m;
      }
    }
  }

  /** When the walk stops with attempts to spare, or runs out after as many as there are, it met every candidate. */
  lemma WalkComplete(src: seq<byte>, p: nat, m: nat, attempts: nat)
    requires BASE <= p <= BASE + |src| - MINMATCH && m < p
    requires m >= LowLimit(p) ==> Key(src, m) == Key(src, p) && attempts <= |Newer(src, p, m)|
    requires |Candidates(src, p)| <= attempts
    ensures Candidates(src, p) <= Newer(src, p, m)
  {
    if m >= LowLimit(p) {
      var all, met := Candidates(src, p), Newer(src, p, m);
      assert m in all && m !in met;
      assert met + {m} <= all;
      SubsetSize(met + {m}, all);
    }
  }

  lemma SubsetSize(a: set<nat>, b: set<nat>)
    requires a <= b
    ensures |a| <= |b|
  {
    assert b == a + (b - a);
  }

  /** A reference that matches four bytes has the same hash, so covering the candidates covers all references. */
  lemma CandidatesCover(src: seq<byte>, ip: nat, limit: nat, best: nat, ref: nat)
    requires ip + MINMATCH <= |src| && ref < ip <= ref + MAX_DISTANCE
    requires AllCovered(src, Candidates(src, ip + BASE), ip, limit, best)
    ensures Covered(src, ref, ip, limit, best)
  {
    forall n: nat | MINMATCH <= n && ip + n <= limit && Common(src, ref, ip, n) ensures n <= best {
      CommonPrefix(src, ref, ip, n, MINMATCH);
      assert Key(src, ref + BASE) == Key(src, ip + BASE);
      assert ref + BASE in Candidates(src, ip + BASE);
    }
  }

  ghost predicate AllCovered(src: seq<byte>, indices: set<nat>, ip: nat, limit: nat, best: nat) {
    forall q | q in indices :: BASE <= q && Covered(src, q - BASE, ip, limit, best)
  }

  lemma CoverOneMore(src: seq<byte>, indices: set<nat>, m: nat, ip: nat, limit: nat, best: nat, ml: nat)
    requires AllCovered(src, indices, ip, limit, best) && best <= ml
    requires BASE <= m && Covered(src, m - BASE, ip, limit, ml)
    ensures AllCovered(src, indices + {m}, ip, limit, ml)
  {
    forall q | q in indices ensures Covered(src, q - BASE, ip, limit, ml) {
      assert Covered(src, q - BASE, ip, limit, best);
    }
  }

  lemma CoverSubset(src: seq<byte>, some: set<nat>, all: set<nat>, ip: nat, limit: nat, best: nat)
    requires AllCovered(src, all, ip, limit, best) && some <= all
    ensures AllCovered(src, some, ip, limit, best)
  {
  }

  /** If the attempts suffice for all candidates, no match at `ip` within reach is longer than `best`. */
  ghost predicate NoneLonger(src: seq<byte>, ip: nat, limit: nat, best: nat, attempts: nat)
    requires ip + MINMATCH <= |src|
  {
    |Candidates(src, ip + BASE)| <= attempts ==>
      forall ref: nat | ref < ip <= ref + MAX_DISTANCE :: Covered(src, ref, ip, limit, best)
  }

  /** If the attempts suffice for all candidates, no match through `ip` from `low` on is longer than `best`. */
  ghost predicate NoneWider(src: seq<byte>, ip: nat, low: nat, limit: nat, best: nat, attempts: nat)
    requires ip + MINMATCH <= |src|
  {
    |Candidates(src, ip + BASE)| <= attempts ==>
      forall d: nat | 0 < d <= ip && d <= MAX_DISTANCE :: WideCovered(src, d, ip, low, limit, best)
  }

  class HashChain {
    const src: seq<byte>
    const hashTable: array<nat>
    const chainTable: array<nat>
    var nextToUpdate: nat

    /** Both tables describe exactly the indices below `next`. */
    ghost predicate Holds(next: nat)
      reads hashTable, chainTable
    {
      && hashTable.Length == HASHTABLESIZE && chainTable.Length == MAXD
      && hashTable != chainTable
      && BASE <= next && (next == BASE || next <= BASE + |src| - MINMATCH + 1)
      && (forall h | 0 <= h < HASHTABLESIZE ::
            hashTable[h] == if next == BASE then 0 else Prev(src, next, h))
      && (forall p | BASE <= p < next <= p + 65536 :: chainTable[p % 65536] == Delta(src, p))
    }

    ghost predicate Valid()
      reads this, hashTable, chainTable
    {
      Holds(nextToUpdate)
    }

    constructor (source: seq<byte>)
      ensures src == source && nextToUpdate == BASE && Valid()
      ensures fresh(hashTable) && fresh(chainTable)
    {
      src := source;
      hashTable := new nat[HASHTABLESIZE](_ => 0);
      chainTable := new nat[MAXD](_ => 0xFFFF);
      nextToUpdate := BASE;
    }

    /** Inserts every index below `ip`; going back leaves the tables as they are. */
    method Insert(ip: nat)
      requires Valid() && ip + MINMATCH <= |src|
      modifies this`nextToUpdate, hashTable, chainTable
      ensures nextToUpdate == ip + BASE
      ensures old(nextToUpdate) <= ip + BASE ==> Valid()
      ensures old(nextToUpdate) >= ip + BASE ==>
                hashTable[..] == old(hashTable[..]) && chainTable[..] == old(chainTable[..])
    {
      InsertRange(nextToUpdate, ip + BASE);
      nextToUpdate := ip + BASE;
    }

    method InsertRange(first: nat, target: nat)
      requires Holds(first) && target <= BASE + |src| - MINMATCH
      modifies hashTable, chainTable
      ensures first <= target ==> Holds(target)
      ensures first >= target ==> hashTable[..] == old(hashTable[..]) && chainTable[..] == old(chainTable[..])
    {
      hide Holds;
      var idx := first;
      while idx < target
        invariant Holds(idx) && first <= idx && (idx <= target || idx == first)
        invariant idx == first ==> hashTable[..] == old(hashTable[..]) && chainTable[..] == old(chainTable[..])
      {
        InsertOne(idx);
        idx := idx + 1;
      }
    }

    method InsertOne(idx: nat)
      requires Holds(idx) && idx <= BASE + |src| - MINMATCH
      modifies hashTable, chainTable
      ensures Holds(idx + 1)
    {
      hide Hash, Key;
      var h := Key(src, idx);
      var delta := idx - hashTable[h];
      if delta > MAX_DISTANCE {
        delta := MAX_DISTANCE;
      }
      chainTable[idx % 65536] := delta;
      hashTable[h] := idx;
    }

    /** One step back along the chain skips no window index with the same hash. */
    lemma ChainStep(ip: nat, m: nat)
      requires ip + MINMATCH <= |src| && Holds(ip + BASE)
      requires LowLimit(ip + BASE) <= m < ip + BASE && Key(src, m) == Key(src, ip + BASE)
      ensures chainTable.Length == MAXD && 1 <= chainTable[m % 65536] <= m
      ensures
        var next := m - chainTable[m % 65536];
        && (LowLimit(ip + BASE) <= next ==> Key(src, next) == Key(src, ip + BASE))
        && forall q | LowLimit(ip + BASE) <= q && next < q < m :: Key(src, q) != Key(src, ip + BASE)
    {
      assert chainTable[m % 65536] == Delta(src, m);
      var prev := Prev(src, m, Key(src, m));
      assert forall i | BASE <= i < m && Key(src, i) == Key(src, m) :: i <= prev;
    }

    /** The indices met by stepping back from `m` while they stay in the window of `ip`. */
    ghost function Chain(ip: nat, m: nat): seq<nat>
      requires ip + MINMATCH <= |src| && Holds(ip + BASE)
      requires LowLimit(ip + BASE) <= m ==> m < ip + BASE && Key(src, m) == Key(src, ip + BASE)
      reads hashTable, chainTable
    {
      if m < LowLimit(ip + BASE) then []
      else
        ChainStep(ip, m);
        [m] + Chain(ip, m - chainTable[m % 65536])
    }

    lemma {:induction false} ChainMembers(ip: nat, m: nat, q: nat)
      requires ip + MINMATCH <= |src| && Holds(ip + BASE)
      requires LowLimit(ip + BASE) <= m ==> m < ip + BASE && Key(src, m) == Key(src, ip + BASE)
      ensures q in Chain(ip, m) <==> q in Candidates(src, ip + BASE) && q <= m
    {
      hide Hash, Key, Holds;
      if m >= LowLimit(ip + BASE) {
        ChainStep(ip, m);
        ChainMembers(ip, m - chainTable[m % 65536], q);
      }
    }

    /** The chain from any of its members lists the candidates up to it, nearest first, each once. */
    lemma {:induction false} ChainVisits(ip: nat, m: nat)
      requires ip + MINMATCH <= |src| && Holds(ip + BASE)
      requires LowLimit(ip + BASE) <= m ==> m < ip + BASE && Key(src, m) == Key(src, ip + BASE)
      ensures forall q :: q in Chain(ip, m) <==> q in Candidates(src, ip + BASE) && q <= m
      ensures forall i, j | 0 <= i < j < |Chain(ip, m)| :: Chain(ip, m)[i] > Chain(ip, m)[j]
    {
      hide Hash, Key, Candidates, Holds;
      forall q: nat ensures q in Chain(ip, m) <==> q in Candidates(src, ip + BASE) && q <= m {
        ChainMembers(ip, m, q);
      }
      if m >= LowLimit(ip + BASE) {
        ChainStep(ip, m);
        var next := m - chainTable[m % 65536];
        var rest := Chain(ip, next);
        ChainVisits(ip, next);
        forall j | 0 <= j < |rest| ensures rest[j] < m {
          ChainMembers(ip, next, rest[j]);
        }
      }
    }

    /** Walking from the hash table's entry for `ip` visits exactly its candidates. */
    lemma ChainVisitsAll(ip: nat)
      requires ip + MINMATCH <= |src| && Holds(ip + BASE)
      ensures
        var chain := Chain(ip, hashTable[Key(src, ip + BASE)]);
        && (forall q :: q in chain <==> q in Candidates(src, ip + BASE))
        && forall i, j | 0 <= i < j < |chain| :: chain[i] > chain[j]
    {
      ChainVisits(ip, hashTable[Key(src, ip + BASE)]);
    }

    /**
      * The longest match for `ip` among the newest `maxNbAttempts` window positions with its
      * hash, ending by `iLimit`; 0 when there is none.
      */
    method InsertAndFindBestMatch(ip: nat, iLimit: nat, maxNbAttempts: nat) returns (ml: nat, matchpos: nat)
      requires Valid() && nextToUpdate <= ip + BASE && ip + MINMATCH <= iLimit < |src|
      modifies this`nextToUpdate, hashTable, chainTable
      ensures Valid() && nextToUpdate == ip + BASE
      ensures ml == 0 || FullMatch(src, ip, matchpos, ml, iLimit)
      ensures NoneLonger(src, ip, iLimit, ml, maxNbAttempts)
    {
      Insert(ip);
      ml, matchpos := WalkChain(ip, iLimit, maxNbAttempts);
      if |Candidates(src, ip + BASE)| <= maxNbAttempts {
        forall ref: nat | ref < ip <= ref + MAX_DISTANCE ensures Covered(src, ref, ip, iLimit, ml) {
          CandidatesCover(src, ip, iLimit, ml, ref);
        }
      }
    }

    /**
      * The longest match that spans `ip`, starts at `iLowLimit` or later and ends by
      * `iHighLimit`, if it beats `best`; searched among the newest `maxNbAttempts` positions.
      */
    method InsertAndGetWiderMatch(ip: nat, iLowLimit: nat, iHighLimit: nat, best: nat, maxNbAttempts: nat)
        returns (longest: nat, matchpos: nat, startpos: nat)
      requires Valid() && nextToUpdate <= ip + BASE && ip + MINMATCH <= iHighLimit < |src|
      requires iLowLimit <= ip <= iLowLimit + best <= iHighLimit
      modifies this`nextToUpdate, hashTable, chainTable
      ensures Valid() && nextToUpdate == ip + BASE
      ensures best <= longest
      ensures longest > best ==> iLowLimit <= startpos <= ip && FullMatch(src, startpos, matchpos, longest, iHighLimit)
      ensures NoneWider(src, ip, iLowLimit, iHighLimit, longest, maxNbAttempts)
    {
      Insert(ip);
      longest, matchpos, startpos := WalkChainWider(ip, iLowLimit, iHighLimit, best, maxNbAttempts);
      if |Candidates(src, ip + BASE)| <= maxNbAttempts {
        forall d: nat | 0 < d <= ip && d <= MAX_DISTANCE
          ensures WideCovered(src, d, ip, iLowLimit, iHighLimit, longest)
        {
          WideCandidates(src, ip, iLowLimit, iHighLimit, longest, d);
        }
      }
    }

    method WalkChainWider(ip: nat, iLowLimit: nat, iHighLimit: nat, best: nat, maxNbAttempts: nat)
        returns (longest: nat, matchpos: nat, startpos: nat)
      requires Holds(ip + BASE) && ip + MINMATCH <= iHighLimit < |src|
      requires iLowLimit <= ip <= iLowLimit + best <= iHighLimit
      ensures best <= longest
      ensures longest > best ==> iLowLimit <= startpos <= ip && FullMatch(src, startpos, matchpos, longest, iHighLimit)
      ensures |Candidates(src, ip + BASE)| <= maxNbAttempts ==>
                AllWideCovered(src, Candidates(src, ip + BASE), ip, iLowLimit, iHighLimit, longest)
    {
      hide Hash, Key, WideCovered, Candidates;
      ghost var p := ip + BASE;
      var lowLimit := LowLimit(ip + BASE);
      var nbAttempts := maxNbAttempts;
      longest, matchpos, startpos := best, 0, 0;
      var matchIndex: nat := hashTable[Key(src, ip + BASE)];
      assert Newer(src, p, matchIndex) == {};
      while matchIndex >= lowLimit && nbAttempts != 0
        invariant matchIndex < p
        invariant matchIndex >= lowLimit ==> Key(src, matchIndex) == Key(src, p)
        invariant best <= longest && iLowLimit + longest <= iHighLimit
        invariant longest > best ==>
                    iLowLimit <= startpos <= ip && FullMatch(src, startpos, matchpos, longest, iHighLimit)
        invariant 0 <= nbAttempts && nbAttempts + |Newer(src, p, matchIndex)| == maxNbAttempts
        invariant AllWideCovered(src, Newer(src, p, matchIndex), ip, iLowLimit, iHighLimit, longest)
        decreases nbAttempts
      {
        nbAttempts := nbAttempts - 1;
        ghost var before := longest;
        longest, matchpos, startpos :=
          TryWider(src, ip, matchIndex - BASE, iLowLimit, iHighLimit, longest, matchpos, startpos);
        WideOneMore(src, Newer(src, p, matchIndex), matchIndex, ip, iLowLimit, iHighLimit, before, longest);
        ChainStep(ip, matchIndex);
        NewerStep(src, p, matchIndex, matchIndex - chainTable[matchIndex % 65536]);
        matchIndex := matchIndex - chainTable[matchIndex % 65536];
      }
      if |Candidates(src, p)| <= maxNbAttempts {
        WalkComplete(src, p, matchIndex, maxNbAttempts);
      }
    }

    method WalkChain(ip: nat, iLimit: nat, maxNbAttempts: nat) returns (ml: nat, matchpos: nat)
      requires Holds(ip + BASE) && ip + MINMATCH <= iLimit < |src|
      ensures ml == 0 || FullMatch(src, ip, matchpos, ml, iLimit)
      ensures |Candidates(src, ip + BASE)| <= maxNbAttempts ==>
                AllCovered(src, Candidates(src, ip + BASE), ip, iLimit, ml)
    {
      hide Hash, Key, Covered, Candidates;
      ghost var p := ip + BASE;
      var lowLimit := LowLimit(ip + BASE);
      var nbAttempts := maxNbAttempts;
      ml, matchpos := 0, 0;
      var matchIndex: nat := hashTable[Key(src, ip + BASE)];
      assert Newer(src, p, matchIndex) == {};
      while matchIndex >= lowLimit && nbAttempts != 0
        invariant matchIndex < p
        invariant matchIndex >= lowLimit ==> Key(src, matchIndex) == Key(src, p)
        invariant ml == 0 || FullMatch(src, ip, matchpos, ml, iLimit)
        invariant 0 <= nbAttempts && nbAttempts + |Newer(src, p, matchIndex)| == maxNbAttempts
        invariant AllCovered(src, Newer(src, p, matchIndex), ip, iLimit, ml)
        decreases nbAttempts
      {
        nbAttempts := nbAttempts - 1;
        ghost var best := ml;
        ml, matchpos := TryMatch(src, ip, matchIndex - BASE, iLimit, ml, matchpos);
        CoverOneMore(src, Newer(src, p, matchIndex), matchIndex, ip, iLimit, best, ml);
        ChainStep(ip, matchIndex);
        NewerStep(src, p, matchIndex, matchIndex - chainTable[matchIndex % 65536]);
        matchIndex := matchIndex - chainTable[matchIndex % 65536];
      }
      if |Candidates(src, p)| <= maxNbAttempts {
        WalkComplete(src, p, matchIndex, maxNbAttempts);
        CoverSubset(src, Candidates(src, p), Newer(src, p, matchIndex), ip, iLimit, ml);
      }
    }
  }

  // ----- Wider matches: extended backwards as well -----

  /** `n` bytes at `start` repeat the bytes `d` before them. */
  predicate Repeats(src: seq<byte>, d: nat, start: nat, n: nat) {
    d <= start && Common(src, start - d, start, n)
  }

  /** No repeat at distance `d` over the four bytes at `ip`, from `low` or later to `limit` at most, exceeds `best`. */
  predicate WideCovered(src: seq<byte>, d: nat, ip: nat, low: nat, limit: nat, best: nat) {
    forall start: nat, n: nat
      | low <= start <= ip && ip + MINMATCH <= start + n <= limit && Repeats(src, d, start, n)
      :: n <= best
  }

  ghost predicate AllWideCovered(src: seq<byte>, indices: set<nat>, ip: nat, low: nat, limit: nat, best: nat) {
    forall q | q in indices :: BASE <= q < ip + BASE && WideCovered(src, ip + BASE - q, ip, low, limit, best)
  }

  lemma RepeatsAt(src: seq<byte>, d: nat, start: nat, n: nat, i: nat)
    requires Repeats(src, d, start, n) && start <= i < start + n
    ensures src[i - d] == src[i]
  {
    CommonAt(src, start - d, start, n, i - start);
  }

  lemma RepeatsPart(src: seq<byte>, d: nat, start: nat, n: nat, i: nat, k: nat)
    requires Repeats(src, d, start, n) && start <= i && i + k <= start + n
    ensures Repeats(src, d, i, k)
  {
    CommonSuffix(src, start - d, start, n, i - start);
    CommonPrefix(src, i - d, i, n - (i - start), k);
  }

  lemma WideSkip(src: seq<byte>, d: nat, ip: nat, low: nat, limit: nat, best: nat)
    requires 0 < d <= ip && low <= ip <= low + best < |src| && ip + MINMATCH <= |src| && d <= low + best
    requires src[low + best - d] != src[low + best] || !Repeats(src, d, ip, MINMATCH)
    ensures WideCovered(src, d, ip, low, limit, best)
  {
    forall start: nat, n: nat
      | low <= start <= ip && ip + MINMATCH <= start + n <= limit && Repeats(src, d, start, n)
      ensures n <= best
    {
      if n > best {
        RepeatsAt(src, d, start, n, low + best);
        RepeatsPart(src, d, start, n, ip, MINMATCH);
      }
    }
  }

  lemma WideExtent(src: seq<byte>, d: nat, ip: nat, low: nat, limit: nat, first: nat, n: nat)
    requires 0 < d <= ip && ip + MINMATCH <= limit <= |src| && low <= first <= ip && d <= first
    requires first == low || first == d || src[first - 1 - d] != src[first - 1]
    requires Covered(src, ip - d, ip, limit, n)
    ensures WideCovered(src, d, ip, low, limit, n + (ip - first))
  {
    forall start: nat, m: nat
      | low <= start <= ip && ip + MINMATCH <= start + m <= limit && Repeats(src, d, start, m)
      ensures m <= n + (ip - first)
    {
      if start < first {
        RepeatsAt(src, d, start, m, first - 1);
      }
      RepeatsPart(src, d, start, m, ip, start + m - ip);
    }
  }

  lemma WideMore(src: seq<byte>, d: nat, ip: nat, low: nat, limit: nat, best: nat, more: nat)
    requires WideCovered(src, d, ip, low, limit, best) && best <= more
    ensures WideCovered(src, d, ip, low, limit, more)
  {
  }

  lemma WideOneMore(src: seq<byte>, indices: set<nat>, m: nat, ip: nat, low: nat, limit: nat, best: nat, ml: nat)
    requires AllWideCovered(src, indices, ip, low, limit, best) && best <= ml
    requires BASE <= m < ip + BASE && WideCovered(src, ip + BASE - m, ip, low, limit, ml)
    ensures AllWideCovered(src, indices + {m}, ip, low, limit, ml)
  {
    forall q | q in indices ensures WideCovered(src, ip + BASE - q, ip, low, limit, ml) {
      assert WideCovered(src, ip + BASE - q, ip, low, limit, best);
    }
  }

  lemma WideCandidates(src: seq<byte>, ip: nat, low: nat, limit: nat, best: nat, d: nat)
    requires ip + MINMATCH <= |src| && 0 < d <= ip && d <= MAX_DISTANCE
    requires AllWideCovered(src, Candidates(src, ip + BASE), ip, low, limit, best)
    ensures WideCovered(src, d, ip, low, limit, best)
  {
    forall start: nat, n: nat
      | low <= start <= ip && ip + MINMATCH <= start + n <= limit && Repeats(src, d, start, n)
      ensures n <= best
    {
      RepeatsPart(src, d, start, n, ip, MINMATCH);
      assert Key(src, ip - d + BASE) == Key(src, ip + BASE);
      assert ip - d + BASE in Candidates(src, ip + BASE);
    }
  }

  /** The length of the match of `ip` with `ref` and how far it extends backwards. */
  method MeasureBothWays(src: seq<byte>, ip: nat, ref: nat, low: nat, limit: nat) returns (mlt: nat, back: nat)
    requires ref < ip && low <= ip && ip + MINMATCH <= limit <= |src|
    requires Common(src, ref, ip, MINMATCH)
    ensures MINMATCH <= mlt && ip + mlt <= limit && back <= ip - low && back <= ref
    ensures Common(src, ref - back, ip - back, mlt + back)
    ensures Ends(src, ip - back, ref - back, mlt + back, limit)
    ensures WideCovered(src, ip - ref, ip, low, limit, mlt + back)
  {
    hide Covered, WideCovered, Common;
    var n := Count(src, ip + MINMATCH, ref + MINMATCH, limit);
    CountCovers(src, ref, ip, limit, n);
    mlt := n + MINMATCH;
    back := ExtendBack(src, ip, ref, low, mlt);
    WideExtent(src, ip - ref, ip, low, limit, ip - back, mlt);
  }

  /** Extends the match of `ip` with `ref` both ways and keeps it if it is longer than the best so far. */
  method TryWider(src: seq<byte>, ip: nat, ref: nat, low: nat, limit: nat, best: nat, bestRef: nat, bestStart: nat)
      returns (longest: nat, matchpos: nat, startpos: nat)
    requires ref < ip <= ref + MAX_DISTANCE && ip + MINMATCH <= limit < |src|
    requires low <= ip <= low + best <= limit
    ensures best <= longest && WideCovered(src, ip - ref, ip, low, limit, longest)
    ensures longest == best ==> matchpos == bestRef && startpos == bestStart
    ensures longest > best ==> low <= startpos <= ip && FullMatch(src, startpos, matchpos, longest, limit)
  {
    hide WideCovered;
    longest, matchpos, startpos := best, bestRef, bestStart;
    if src[low + longest] == src[ref - (ip - low) + longest] && src[ref..ref + MINMATCH] == src[ip..ip + MINMATCH] {
      var mlt, back := MeasureBothWays(src, ip, ref, low, limit);
      if mlt + back > longest {
        longest, matchpos, startpos := mlt + back, ref - back, ip - back;
      } else {
        WideMore(src, ip - ref, ip, low, limit, mlt + back, longest);
      }
    } else {
      WideSkip(src, ip - ref, ip, low, limit, longest);
    }
  }

  method ExtendBack(src: seq<byte>, ip: nat, ref: nat, low: nat, n: nat) returns (back: nat)
    requires ref < ip && low <= ip && Common(src, ref, ip, n)
    ensures back <= ip - low && back <= ref && Common(src, ref - back, ip - back, n + back)
    ensures ip - back == low || ref - back == 0 || src[ip - back - 1] != src[ref - back - 1]
  {
    back := 0;
    while ip - back > low && ref - back > 0 && src[ip - back - 1] == src[ref - back - 1]
      invariant back <= ip - low && back <= ref
      invariant Common(src, ref - back, ip - back, n + back)
      decreases ip - back
    {
      CommonBack(src, ref - back, ip - back, n + back);
      back := back + 1;
    }
  }

  /** Keeps the better of the match so far and the match with `ref`. */
  method TryMatch(src: seq<byte>, ip: nat, ref: nat, limit: nat, best: nat, bestRef: nat)
      returns (ml: nat, matchpos: nat)
    requires ref < ip <= ref + MAX_DISTANCE && ip + MINMATCH <= limit < |src|
    requires best == 0 || FullMatch(src, ip, bestRef, best, limit)
    ensures ml == 0 || FullMatch(src, ip, matchpos, ml, limit)
    ensures best <= ml && Covered(src, ref, ip, limit, ml)
  {
    ml, matchpos := best, bestRef;
    if src[ref + ml] == src[ip + ml] && src[ref..ref + MINMATCH] == src[ip..ip + MINMATCH] {
      var n := Count(src, ip + MINMATCH, ref + MINMATCH, limit);
      CountCovers(src, ref, ip, limit, n);
      if n + MINMATCH > ml {
        ml, matchpos := n + MINMATCH, ref;
      }
    } else {
      SkipCovers(src, ref, ip, limit, ml);
    }
  }
}
