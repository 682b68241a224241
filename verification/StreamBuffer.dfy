/**
  * The checker of one feedcode, as a specification: a buffer that puts statistics feeds back
  * into the order of their exchange timestamps, expects one every half second, and reports
  * the ones that are missing.
  */
module StreamBuffer {
  const INTERVAL: int := 500000000
  const MAX_WAITING: nat := 120

  /** A feed never changes; its identity is the address that queues and maps hold. */
  class StatisticsFeed {
    const feedcode: string
    const time: int
    const value: real
    const volume: int

    constructor (feedcode: string, time: int, value: real, volume: int)
      ensures this.feedcode == feedcode && this.time == time && this.value == value && this.volume == volume
    {
      this.feedcode, this.time, this.value, this.volume := feedcode, time, value, volume;
    }
  }

  datatype Report =
    | InvalidTurnover(feed: StatisticsFeed)
    | NotMonotone(feed: StatisticsFeed)
    | Delay(feed: StatisticsFeed, late: int)
    | Miss(time: int)

  datatype Buffer = Buffer(queue: set<StatisticsFeed>, due: int, preValue: real, preVolume: int)

  // ----- The drain -----

  /** The k-th timestamp of a grid that starts at `first`. */
  function Grid(first: int, k: int): int {
    first + k * INTERVAL
  }

  function Times(queue: set<StatisticsFeed>): set<int> {
    set f | f in queue :: f.time
  }

  /** How many timestamps of the grid from `et` on are present before the first absent one. */
  function Hits(times: set<int>, et: int): (n: nat)
    ensures Grid(et, n) !in times
    ensures forall k: nat | k < n :: Grid(et, k) in times
    decreases times
  {
    if et !in times then 0
    else
      var n := Hits(times - {et}, et + INTERVAL);
      assert forall k: nat | 0 < k <= n :: Grid(et, k) == Grid(et + INTERVAL, k - 1);
      n + 1
  }

  /** The least timestamp of the grid from `et` on that no queued feed has. */
  function Gap(queue: set<StatisticsFeed>, et: int): int {
    Grid(et, Hits(Times(queue), et))
  }

  function Below(queue: set<StatisticsFeed>, et: int): set<StatisticsFeed> {
    set f | f in queue && f.time < et
  }

  /** The absent timestamp is unique, however the drain got there. */
  lemma GapUnique(queue: set<StatisticsFeed>, et: int, n: nat)
    requires Grid(et, n) !in Times(queue)
    requires forall k: nat | k < n :: Grid(et, k) in Times(queue)
    ensures n == Hits(Times(queue), et)
  {
    var m := Hits(Times(queue), et);
    assert Grid(et, m) !in Times(queue) && Grid(et, n) !in Times(queue);
  }

  /** Part of the way through a drain: `n` timestamps of the grid were found, `left` is still queued. */
  predicate Draining(queue: set<StatisticsFeed>, et: int, left: set<StatisticsFeed>, n: nat) {
    && left <= queue
    && (forall f | f in queue && f !in left :: f.time < Grid(et, n))
    && (forall k: nat | k < n :: Grid(et, k) in Times(queue))
  }

  lemma DrainTop(queue: set<StatisticsFeed>, et: int, left: set<StatisticsFeed>, n: nat, top: StatisticsFeed)
    requires Draining(queue, et, left, n) && top in left && top.time <= Grid(et, n)
    ensures Draining(queue, et, left - {top}, if top.time == Grid(et, n) then n + 1 else n)
    ensures queue - (left - {top}) == (queue - left) + {top}
  {
    assert top.time in Times(queue);
  }

  lemma DrainEnd(queue: set<StatisticsFeed>, et: int, left: set<StatisticsFeed>, n: nat)
    requires Draining(queue, et, left, n) && forall f | f in left :: f.time > Grid(et, n)
    ensures n == Hits(Times(queue), et) && queue - left == Below(queue, Gap(queue, et))
    ensures left == queue - Below(queue, Gap(queue, et))
  {
    GapUnique(queue, et, n);
  }

  // ----- One feed -----

  function Opening(sf: StatisticsFeed): Buffer {
    Buffer({}, sf.time, if sf.value > 0.0 then sf.value else 0.0, if sf.volume > 0 then sf.volume else 0)
  }

  predicate Drops(b: Buffer, sf: StatisticsFeed) {
    sf.value < b.preValue || sf.volume < b.preVolume
  }

  /** The feeds still waiting once `sf` has joined and the buffer was drained. */
  function Waiting(b: Buffer, sf: StatisticsFeed): set<StatisticsFeed> {
    var queue := b.queue + {sf};
    queue - Below(queue, Gap(queue, b.due))
  }

  function Receive(b: Buffer, sf: StatisticsFeed): Buffer {
    if sf.time == b.due then b.(due := b.due + INTERVAL)
    else if sf.time < b.due then b
    else
      var gap := Gap(b.queue + {sf}, b.due);
      var keep := gap == b.due || Drops(b, sf);
      Buffer(Waiting(b, sf),
             if |Waiting(b, sf)| > MAX_WAITING then gap + INTERVAL else gap,
             if keep then b.preValue else sf.value,
             if keep then b.preVolume else sf.volume)
  }

  /** The feeds whose messages are let go. */
  function Released(b: Buffer, sf: StatisticsFeed): set<StatisticsFeed> {
    if sf.time == b.due then {sf}
    else if sf.time < b.due then {}
    else b.queue + {sf} - Waiting(b, sf)
  }

  function Repeated(r: Report, n: nat): seq<Report> {
    seq(n, _ => r)
  }

  function DrainReports(b: Buffer, sf: StatisticsFeed): seq<Report> {
    if Drops(b, sf) then Repeated(NotMonotone(sf), Hits(Times(b.queue + {sf}), b.due)) else []
  }

  function Reports(b: Buffer, sf: StatisticsFeed): seq<Report> {
    if sf.time == b.due then []
    else if sf.time < b.due then [Delay(sf, b.due - sf.time)]
    else
      DrainReports(b, sf) +
      if |Waiting(b, sf)| > MAX_WAITING then [Miss(Gap(b.queue + {sf}, b.due))] else []
  }

  /** The turnover to compare with and the reports, after `n` comparisons with `sf`. */
  predicate Compared(b: Buffer, sf: StatisticsFeed, n: nat, preValue: real, preVolume: int, reports: seq<Report>) {
    var keep := n == 0 || Drops(b, sf);
    && preValue == (if keep then b.preValue else sf.value)
    && preVolume == (if keep then b.preVolume else sf.volume)
    && reports == if Drops(b, sf) then Repeated(NotMonotone(sf), n) else []
  }

  lemma Reordered(b: Buffer, sf: StatisticsFeed, left: set<StatisticsFeed>,
                  preValue: real, preVolume: int, drained: seq<Report>)
    requires sf.time > b.due
    requires var queue := b.queue + {sf};
             && left == queue - Below(queue, Gap(queue, b.due))
             && Compared(b.(queue := queue), sf, Hits(Times(queue), b.due), preValue, preVolume, drained)
    ensures var gap := Gap(b.queue + {sf}, b.due);
            && Receive(b, sf) == Buffer(left, if |left| > MAX_WAITING then gap + INTERVAL else gap, preValue, preVolume)
            && Reports(b, sf) == drained + (if |left| > MAX_WAITING then [Miss(gap)] else [])
            && Released(b, sf) == Below(b.queue + {sf}, gap)
  {
    hide Hits, Times;
  }

  // ----- Whole runs -----

  /** The buffer after a run of feeds of one feedcode. */
  function After(feeds: seq<StatisticsFeed>): Buffer
    requires feeds != []
    decreases |feeds|, 1
  {
    Receive(Before(feeds), feeds[|feeds| - 1])
  }

  /** The buffer that meets the last feed of a run. */
  function Before(feeds: seq<StatisticsFeed>): Buffer
    requires feeds != []
    decreases |feeds|, 0
  {
    if |feeds| == 1 then Opening(feeds[0]) else After(feeds[..|feeds| - 1])
  }

  function ReportsAt(feeds: seq<StatisticsFeed>, n: nat): seq<Report>
    requires n < |feeds|
  {
    Reports(Before(feeds[..n + 1]), feeds[n])
  }

  /** The expected timestamp moved past `g` when feed `n` came in. */
  predicate PassedAt(feeds: seq<StatisticsFeed>, n: nat, g: int)
    requires n < |feeds|
  {
    Before(feeds[..n + 1]).due <= g < After(feeds[..n + 1]).due
  }

  predicate OnGrid(first: int, g: int) {
    first <= g && (g - first) % INTERVAL == 0
  }

  /** What every run keeps: no feed at or after the expected timestamp is lost. */
  predicate Faithful(b: Buffer, first: int, feeds: seq<StatisticsFeed>) {
    && OnGrid(first, b.due)
    && (forall f | f in b.queue :: f in feeds)
    && (forall f | f in feeds :: f.time >= b.due ==> f in b.queue)
  }

  predicate NoneHas(feeds: seq<StatisticsFeed>, g: int) {
    forall f | f in feeds :: f.time != g
  }

  lemma GridOnGrid(first: int, et: int, n: nat)
    requires OnGrid(first, et)
    ensures OnGrid(first, Grid(et, n)) && et <= Grid(et, n)
  {
  }

  lemma GridIndex(first: int, et: int, g: int) returns (k: nat)
    requires OnGrid(first, et) && OnGrid(first, g) && et <= g
    ensures g == Grid(et, k)
  {
    k := (g - et) / INTERVAL;
  }

  lemma StepKeeps(b: Buffer, first: int, feeds: seq<StatisticsFeed>, sf: StatisticsFeed)
    requires Faithful(b, first, feeds)
    ensures Faithful(Receive(b, sf), first, feeds + [sf]) && b.due <= Receive(b, sf).due
  {
    var n := Hits(Times(b.queue + {sf}), b.due);
    GridOnGrid(first, b.due, n);
    GridOnGrid(first, b.due, n + 1);
    GridOnGrid(first, b.due, 1);
  }

  /** A timestamp passed by one feed is reported as missing exactly when no feed so far has it. */
  lemma StepPasses(b: Buffer, first: int, feeds: seq<StatisticsFeed>, sf: StatisticsFeed, g: int)
    requires Faithful(b, first, feeds) && OnGrid(first, g)
    requires b.due <= g < Receive(b, sf).due
    ensures Miss(g) in Reports(b, sf) <==> NoneHas(feeds + [sf], g)
  {
    var k := GridIndex(first, b.due, g);
    if sf.time == b.due {
      assert sf in feeds + [sf];
    } else {
      var queue := b.queue + {sf};
      var n := Hits(Times(queue), b.due);
      assert forall i | 0 <= i < |DrainReports(b, sf)| :: DrainReports(b, sf)[i].NotMonotone?;
      if k < n {
        assert Grid(b.due, k) in Times(queue);
        var f :| f in queue && f.time == g;
        assert f in feeds + [sf];
      } else {
        assert k == n;
        assert g !in Times(queue);
        forall f | f in feeds + [sf] ensures f.time != g {
          assert f in queue ==> f.time in Times(queue);
        }
      }
    }
  }

  /** Nothing else is ever reported as missing. */
  lemma StepMisses(b: Buffer, first: int, sf: StatisticsFeed, g: int)
    requires OnGrid(first, b.due) && Miss(g) in Reports(b, sf)
    ensures OnGrid(first, g) && b.due <= g < Receive(b, sf).due
  {
    GridOnGrid(first, b.due, Hits(Times(b.queue + {sf}), b.due));
    assert forall i | 0 <= i < |DrainReports(b, sf)| :: DrainReports(b, sf)[i].NotMonotone?;
  }

  /** One feed brings at most one report of a missing timestamp. */
  lemma OneMiss(b: Buffer, sf: StatisticsFeed, g: int)
    ensures multiset(Reports(b, sf))[Miss(g)] <= 1
  {
    var drained := DrainReports(b, sf);
    assert forall i | 0 <= i < |drained| :: drained[i].NotMonotone?;
    assert multiset(drained)[Miss(g)] == 0;
  }

  lemma {:induction false} RunFaithful(feeds: seq<StatisticsFeed>)
    requires feeds != []
    ensures Faithful(Before(feeds), feeds[0].time, feeds[..|feeds| - 1])
    ensures Faithful(After(feeds), feeds[0].time, feeds)
    ensures feeds[0].time <= Before(feeds).due <= After(feeds).due
    decreases |feeds|
  {
    hide Receive;
    var n := |feeds| - 1;
    if n > 0 {
      RunFaithful(feeds[..n]);
    }
    StepKeeps(Before(feeds), feeds[0].time, feeds[..n], feeds[n]);
    assert feeds == feeds[..n] + [feeds[n]];
  }

  lemma {:induction false} ExpectGrows(feeds: seq<StatisticsFeed>, m: nat, n: nat)
    requires 1 <= m <= n <= |feeds|
    ensures After(feeds[..m]).due <= After(feeds[..n]).due
    decreases n
  {
    hide Receive;
    if m < n {
      ExpectGrows(feeds, m, n - 1);
      RunFaithful(feeds[..n]);
      assert feeds[..n][..n - 1] == feeds[..n - 1];
    }
  }

  /** The step at which the expected timestamp moves past `g`. */
  lemma {:induction false} PassingStep(feeds: seq<StatisticsFeed>, g: int) returns (n: nat)
    requires feeds != [] && feeds[0].time <= g < After(feeds).due
    ensures n < |feeds| && PassedAt(feeds, n, g)
    decreases |feeds|
  {
    hide Receive;
    var last := |feeds| - 1;
    assert feeds[..last + 1] == feeds;
    if Before(feeds).due <= g {
      n := last;
    } else {
      n := PassingStep(feeds[..last], g);
      assert feeds[..last][..n + 1] == feeds[..n + 1];
    }
  }

  lemma PassedOnlyOnce(feeds: seq<StatisticsFeed>, m: nat, n: nat, g: int)
    requires m < n < |feeds| && PassedAt(feeds, m, g)
    ensures !PassedAt(feeds, n, g)
  {
    hide Receive;
    ExpectGrows(feeds, m + 1, n);
    assert feeds[..n + 1][..n] == feeds[..n];
  }

  lemma MissAt(feeds: seq<StatisticsFeed>, n: nat, g: int)
    requires n < |feeds| && OnGrid(feeds[0].time, g)
    ensures Miss(g) in ReportsAt(feeds, n) <==> PassedAt(feeds, n, g) && NoneHas(feeds[..n + 1], g)
  {
    hide Receive, Reports, Faithful;
    var sofar := feeds[..n + 1];
    RunFaithful(sofar);
    var b := Before(sofar);
    assert sofar == sofar[..n] + [feeds[n]];
    if PassedAt(feeds, n, g) {
      StepPasses(b, feeds[0].time, sofar[..n], feeds[n], g);
    } else if Miss(g) in ReportsAt(feeds, n) {
      assert OnGrid(feeds[0].time, b.due) by { FaithfulOnGrid(b, feeds[0].time, sofar[..n]); }
      StepMisses(b, feeds[0].time, feeds[n], g);
    }
  }

  lemma FaithfulOnGrid(b: Buffer, first: int, feeds: seq<StatisticsFeed>)
    requires Faithful(b, first, feeds)
    ensures OnGrid(first, b.due)
  {
  }

  /**
    * In every run, each timestamp of the grid below the expected one was passed by exactly one
    * feed, and is reported as missing exactly once if no feed had brought it by then, and
    * never otherwise.
    */
  lemma ConsumedOnce(feeds: seq<StatisticsFeed>, g: int) returns (n: nat)
    requires feeds != [] && OnGrid(feeds[0].time, g) && g < After(feeds).due
    ensures n < |feeds| && PassedAt(feeds, n, g)
    ensures forall m: nat | m < |feeds| && m != n :: !PassedAt(feeds, m, g) && Miss(g) !in ReportsAt(feeds, m)
    ensures multiset(ReportsAt(feeds, n))[Miss(g)] == if NoneHas(feeds[..n + 1], g) then 1 else 0
  {
    hide After, Before, PassedAt, Reports;
    n := PassingStep(feeds, g);
    OneMiss(Before(feeds[..n + 1]), feeds[n], g);
    MissAt(feeds, n, g);
    forall m: nat | m < |feeds| && m != n ensures !PassedAt(feeds, m, g) && Miss(g) !in ReportsAt(feeds, m) {
      MissAt(feeds, m, g);
      if m < n {
        if PassedAt(feeds, m, g) {
          PassedOnlyOnce(feeds, m, n, g);
        }
      } else {
        PassedOnlyOnce(feeds, n, m, g);
      }
    }
  }

  /** Only timestamps of the grid that have been passed are reported as missing. */
  lemma MissesOnGrid(feeds: seq<StatisticsFeed>, n: nat, g: int)
    requires n < |feeds| && Miss(g) in ReportsAt(feeds, n)
    ensures OnGrid(feeds[0].time, g) && g < After(feeds).due && NoneHas(feeds[..n + 1], g)
  {
    hide Receive, Reports;
    var sofar := feeds[..n + 1];
    RunFaithful(sofar);
    StepMisses(Before(sofar), feeds[0].time, feeds[n], g);
    MissAt(feeds, n, g);
    ExpectGrows(feeds, n + 1, |feeds|);
    assert feeds[..|feeds|] == feeds;
  }

  /** The turnover kept for comparison never falls. */
  lemma {:induction false} TurnoverGrows(feeds: seq<StatisticsFeed>)
    requires feeds != []
    ensures Before(feeds).preValue <= After(feeds).preValue && Before(feeds).preVolume <= After(feeds).preVolume
    ensures 0.0 <= After(feeds).preValue && 0 <= After(feeds).preVolume
    decreases |feeds|
  {
    hide Gap, Waiting;
    if |feeds| > 1 {
      TurnoverGrows(feeds[..|feeds| - 1]);
    }
  }
}
