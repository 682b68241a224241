/**
  * How the queue of a feedcode behaves where one might expect more: when it is left undrained,
  * when it grows, and when a falling turnover is reported.
  */
module StreamQueue {
  import opened StreamBuffer

  // ----- Draining -----

  /** Nothing in the queue is due: the drain has no work left. */
  predicate Settled(b: Buffer) {
    b.due !in Times(b.queue)
  }

  /**
    * A feed leaves a drained queue drained, except exactly in two cases: a feed in order whose
    * successor is already waiting, and a missed timestamp whose successor is.
    */
  lemma SettledAfter(b: Buffer, sf: StatisticsFeed)
    requires Settled(b)
    ensures Settled(Receive(b, sf)) <==>
              if sf.time == b.due then b.due + INTERVAL !in Times(b.queue)
              else if sf.time < b.due then true
              else |Waiting(b, sf)| > MAX_WAITING ==>
                     Gap(b.queue + {sf}, b.due) + INTERVAL !in Times(b.queue + {sf})
  {
  }

  /** Three feeds, the last two swapped: the third one is due, and stays in the queue. */
  lemma SwappedFeedsStay(a: StatisticsFeed, b: StatisticsFeed, c: StatisticsFeed)
    requires a.time == 0 && b.time == 2 * INTERVAL && c.time == INTERVAL
    ensures After([a, b, c]).due == b.time && After([a, b, c]).queue == {b}
    ensures !Settled(After([a, b, c]))
  {
    hide Receive;
    AfterOne(a);
    var x := After([a]);
    AfterMore([a], b);
    assert [a] + [b] == [a, b];
    Joins(x, b);
    AfterMore([a, b], c);
    assert [a, b] + [c] == [a, b, c];
    InOrder(After([a, b]), c);
    assert b.time in Times({b});
  }

  lemma AfterOne(a: StatisticsFeed)
    ensures After([a]) == Opening(a).(due := a.time + INTERVAL)
  {
  }

  /** The first feed sets the turnover to compare with, or nothing if it is not positive. */
  lemma FirstTurnover(a: StatisticsFeed)
    ensures After([a]).preValue == (if a.value < 0.0 then 0.0 else a.value)
    ensures After([a]).preVolume == (if a.volume < 0 then 0 else a.volume)
  {
    AfterOne(a);
  }

  lemma AfterMore(feeds: seq<StatisticsFeed>, sf: StatisticsFeed)
    requires feeds != []
    ensures After(feeds + [sf]) == Receive(After(feeds), sf)
  {
    hide Receive;
    assert (feeds + [sf])[..|feeds|] == feeds;
  }

  lemma InOrder(b: Buffer, sf: StatisticsFeed)
    requires sf.time == b.due
    ensures Receive(b, sf) == b.(due := b.due + INTERVAL)
  {
  }

  // ----- Growing -----

  /** Every feed in the queue is still to come. */
  predicate AllAhead(b: Buffer) {
    forall f | f in b.queue :: f.time > b.due
  }

  /** A feed that is to come joins a queue of feeds to come, and nothing leaves. */
  lemma Joins(b: Buffer, sf: StatisticsFeed)
    requires AllAhead(b) && sf.time > b.due
    ensures Receive(b, sf).queue == b.queue + {sf}
    ensures Receive(b, sf).due == if |b.queue + {sf}| > MAX_WAITING then b.due + INTERVAL else b.due
    ensures Receive(b, sf).preValue == b.preValue && Receive(b, sf).preVolume == b.preVolume
  {
    var queue := b.queue + {sf};
    assert b.due !in Times(queue);
    assert Below(queue, b.due) == {};
  }

  /** One feed enlarges the queue exactly if it and everything in the queue are still to come. */
  lemma GrowsWhen(b: Buffer, sf: StatisticsFeed)
    requires sf !in b.queue
    ensures |Receive(b, sf).queue| > |b.queue| <==> sf.time > b.due && AllAhead(b)
  {
  }

  /** A feed that is due or overdue leaves whenever the queue is drained. */
  lemma Leaves(b: Buffer, sf: StatisticsFeed, f: StatisticsFeed)
    requires sf.time > b.due && f in b.queue && f.time <= b.due
    ensures Receive(b, sf).queue <= b.queue + {sf} - {f}
  {
    var queue := b.queue + {sf};
    assert f.time in Times(queue);
    assert Grid(b.due, 0) == b.due;
    assert f.time < Gap(queue, b.due);
  }

  function Members(feeds: seq<StatisticsFeed>): set<StatisticsFeed> {
    set f | f in feeds
  }

  /** All feeds after the first are far ahead of anything the run can come to expect. */
  predicate FarAhead(feeds: seq<StatisticsFeed>, horizon: nat)
    requires feeds != []
  {
    forall i | 1 <= i < |feeds| :: feeds[i].time > Grid(feeds[0].time, horizon)
  }

  /** The queue has no bound: it keeps every feed of a run that is far ahead. */
  lemma {:induction false} KeepsAllAhead(feeds: seq<StatisticsFeed>, horizon: nat)
    requires feeds != [] && FarAhead(feeds, horizon) && |feeds| <= horizon
    ensures After(feeds).queue == Members(feeds[1..])
    ensures After(feeds).due <= Grid(feeds[0].time, |feeds|)
    decreases |feeds|
  {
    hide Receive;
    var n := |feeds| - 1;
    if n == 0 {
      assert feeds == [feeds[0]];
      AfterOne(feeds[0]);
    } else {
      var before, sf := feeds[..n], feeds[n];
      KeepsAllAhead(before, horizon);
      assert feeds == before + [sf];
      AfterMore(before, sf);
      assert Grid(feeds[0].time, n) <= Grid(feeds[0].time, horizon);
      assert AllAhead(After(before)) by {
        assert forall f | f in before[1..] :: f.time > Grid(feeds[0].time, horizon);
      }
      Joins(After(before), sf);
      assert feeds[1..] == before[1..] + [sf];
    }
  }

  lemma {:induction false} DistinctMembers(feeds: seq<StatisticsFeed>)
    requires forall i, j | 0 <= i < j < |feeds| :: feeds[i] != feeds[j]
    ensures |Members(feeds)| == |feeds|
  {
    if feeds != [] {
      var n := |feeds| - 1;
      DistinctMembers(feeds[..n]);
      assert feeds == feeds[..n] + [feeds[n]];
      assert Members(feeds) == Members(feeds[..n]) + {feeds[n]};
    }
  }

  /** For every size there is a run that leaves that many feeds in the queue. */
  method Crowd(size: nat) returns (feeds: seq<StatisticsFeed>)
    ensures feeds != [] && |After(feeds).queue| == size
  {
    var first := new StatisticsFeed("", 0, 1.0, 1);
    feeds := [first];
    for i := 0 to size
      invariant |feeds| == i + 1 && feeds[0].time == 0 && FarAhead(feeds, size + 1)
      invariant forall j, k | 0 <= j < k < |feeds| :: feeds[j] != feeds[k]
    {
      var sf := new StatisticsFeed("", (size + 2) * INTERVAL, 1.0, 1);
      feeds := feeds + [sf];
    }
    KeepsAllAhead(feeds, size + 1);
    DistinctMembers(feeds[1..]);
  }

  // ----- Falling turnover -----

  /**
    * A falling turnover is reported exactly if the incoming feed waits behind one that is due and
    * is itself below the turnover kept; the feeds that leave the queue are not looked at.
    */
  lemma ReportedWhen(b: Buffer, sf: StatisticsFeed, f: StatisticsFeed)
    ensures NotMonotone(f) in Reports(b, sf) <==>
              f == sf && sf.time > b.due && b.due in Times(b.queue) && Drops(b, sf)
  {
    if sf.time > b.due {
      var queue := b.queue + {sf};
      var n := Hits(Times(queue), b.due);
      assert Grid(b.due, 0) == b.due;
      assert b.due in Times(queue) <==> b.due in Times(b.queue) by {
        if b.due in Times(queue) {
          var g :| g in queue && g.time == b.due;
          assert g in b.queue;
        }
        if b.due in Times(b.queue) {
          var g :| g in b.queue && g.time == b.due;
          assert g in queue;
        }
      }
      assert n > 0 <==> b.due in Times(queue);
      var drained := DrainReports(b, sf);
      assert forall i | 0 <= i < |drained| :: drained[i] == NotMonotone(sf);
      assert n > 0 && Drops(b, sf) ==> drained[0] == NotMonotone(sf);
      assert Reports(b, sf)[..|drained|] == drained;
    }
  }

  /** Four feeds of which the third in time falls below the second; it leaves the queue unreported. */
  lemma FallUnreported(a: StatisticsFeed, c: StatisticsFeed, b: StatisticsFeed, d: StatisticsFeed, f: StatisticsFeed)
    requires a.time == 0 && b.time == INTERVAL && c.time == 2 * INTERVAL && d.time == 3 * INTERVAL
    requires a.value == b.value == 10.0 && c.value == 5.0 && d.value == 20.0
    requires a.volume == b.volume == c.volume == d.volume == 1
    ensures c.value < b.value && c in Released(After([a, c, b]), d)
    ensures NotMonotone(f) !in ReportsAt([a, c, b, d], 0) && NotMonotone(f) !in ReportsAt([a, c, b, d], 1)
    ensures NotMonotone(f) !in ReportsAt([a, c, b, d], 2) && NotMonotone(f) !in ReportsAt([a, c, b, d], 3)
  {
    hide Receive, Reports, Released;
    var run := [a, c, b, d];
    assert run[..1] == [a] && run[..2] == [a, c] && run[..3] == [a, c, b] && run[..4] == run;
    assert [a, c][..1] == [a] && [a, c, b][..2] == [a, c] && run[..4][..3] == [a, c, b];
    AfterOne(a);
    AfterMore([a], c);
    assert [a] + [c] == [a, c];
    Joins(After([a]), c);
    AfterMore([a, c], b);
    assert [a, c] + [b] == [a, c, b];
    InOrder(After([a, c]), b);
    ReportedWhen(Opening(a), a, f);
    ReportedWhen(After([a]), c, f);
    ReportedWhen(After([a, c]), b, f);
    ReportedWhen(After([a, c, b]), d, f);
    DueLeaves(After([a, c, b]), d, c);
  }

  lemma DueLeaves(b: Buffer, sf: StatisticsFeed, f: StatisticsFeed)
    requires sf.time > b.due && f in b.queue && f.time <= b.due
    ensures f in Released(b, sf)
  {
    Leaves(b, sf, f);
  }

  /** The turnover kept changes exactly at a comparison that is not reported, to that of the incoming feed. */
  lemma TurnoverKept(b: Buffer, sf: StatisticsFeed)
    ensures var compared := sf.time > b.due && b.due in Times(b.queue) && !Drops(b, sf);
            && Receive(b, sf).preValue == (if compared then sf.value else b.preValue)
            && Receive(b, sf).preVolume == (if compared then sf.volume else b.preVolume)
  {
    if sf.time > b.due {
      var queue := b.queue + {sf};
      assert Grid(b.due, 0) == b.due;
      assert b.due in Times(queue) <==> b.due in Times(b.queue) by {
        TimesOf(b.queue, sf, b.due);
      }
    }
  }

  lemma TimesOf(queue: set<StatisticsFeed>, sf: StatisticsFeed, t: int)
    requires sf.time != t
    ensures t in Times(queue + {sf}) <==> t in Times(queue)
  {
    if t in Times(queue) {
      var g :| g in queue && g.time == t;
      assert g in queue + {sf};
    }
  }

  // ----- Overdue feeds -----

  /** The reports of a delay among the reports. */
  function Delays(reports: seq<Report>): seq<Report> {
    if reports == [] then []
    else Delays(reports[..|reports| - 1]) + if reports[|reports| - 1].Delay? then [reports[|reports| - 1]] else []
  }

  lemma {:induction false} NoDelays(reports: seq<Report>)
    requires forall i | 0 <= i < |reports| :: !reports[i].Delay?
    ensures Delays(reports) == []
  {
    if reports != [] {
      NoDelays(reports[..|reports| - 1]);
    }
  }

  lemma {:induction false} DelaysAppend(a: seq<Report>, c: seq<Report>)
    ensures Delays(a + c) == Delays(a) + Delays(c)
    decreases |c|
  {
    if c == [] {
      assert a + c == a;
    } else {
      DelaysAppend(a, c[..|c| - 1]);
      assert (a + c)[..|a + c| - 1] == a + c[..|c| - 1];
    }
  }

  /** A feed is reported as delayed exactly if it is overdue, once, by what it lacks to the expected timestamp. */
  lemma DelayedWhen(b: Buffer, sf: StatisticsFeed)
    ensures sf.time >= b.due ==> Delays(Reports(b, sf)) == []
    ensures sf.time < b.due ==>
              var delays := Delays(Reports(b, sf));
              |delays| == 1 && delays[0].Delay? && delays[0].feed == sf && sf.time + delays[0].late == b.due
  {
    if sf.time < b.due {
      assert Reports(b, sf)[..0] == [];
    } else {
      NoDelays(Reports(b, sf));
    }
  }

  // ----- The numbers -----

  /**
    * A run of distinct feeds far ahead: half a second is passed for the first one, and half a
    * second more for every one beyond the hundred and twentieth that waits.
    */
  lemma {:induction false} DueWhenCrowded(feeds: seq<StatisticsFeed>, horizon: nat)
    requires feeds != [] && FarAhead(feeds, horizon) && |feeds| <= horizon
    requires forall i, j | 0 <= i < j < |feeds| :: feeds[i] != feeds[j]
    ensures var waiting := |feeds| - 1;
            After(feeds).due == feeds[0].time + 500_000_000 * (1 + if waiting > 120 then waiting - 120 else 0)
    decreases |feeds|
  {
    hide After, Receive;
    var n := |feeds| - 1;
    if n == 0 {
      assert feeds == [feeds[0]];
      AfterOne(feeds[0]);
    } else {
      DueWhenCrowded(feeds[..n], horizon);
      NextAhead(feeds, horizon);
      KeepsAllAhead(feeds, horizon);
      DistinctMembers(feeds[1..]);
    }
  }

  /** The last feed of such a run joins the queue; only the size of the queue decides whether time is passed. */
  lemma NextAhead(feeds: seq<StatisticsFeed>, horizon: nat)
    requires |feeds| > 1 && FarAhead(feeds, horizon) && |feeds| <= horizon
    ensures var n := |feeds| - 1;
            After(feeds).due == After(feeds[..n]).due + if |After(feeds).queue| > MAX_WAITING then INTERVAL else 0
  {
    hide After, Receive;
    var n := |feeds| - 1;
    var before, sf := feeds[..n], feeds[n];
    KeepsAllAhead(before, horizon);
    assert feeds == before + [sf];
    AfterMore(before, sf);
    assert Grid(feeds[0].time, n) <= Grid(feeds[0].time, horizon);
    assert AllAhead(After(before)) by {
      assert forall f | f in before[1..] :: f.time > Grid(feeds[0].time, horizon);
    }
    Joins(After(before), sf);
  }
}
