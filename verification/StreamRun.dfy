/** What a whole run of the event loop reports about one feedcode, in terms of the messages of the log. */
module StreamRun {
  import opened StreamBuffer
  import opened StreamChecker
  import opened StreamLoop

  type Histories = seq<map<string, seq<StatisticsFeed>>>

  function HistoryOf(received: map<string, seq<StatisticsFeed>>, c: string): seq<StatisticsFeed> {
    if c in received then received[c] else []
  }

  /** A message from the log with statistics for the feedcode. */
  predicate Brings(event: Event, c: string) {
    event.Consume? && event.payload.StatisticsPayload? && event.payload.feedcode == c
  }

  lemma OneEvent(was: map<string, seq<StatisticsFeed>>, received: map<string, seq<StatisticsFeed>>, event: Event,
                 reports: seq<Report>, c: string)
    requires Told(was, received, event, reports)
    ensures !Brings(event, c) ==> HistoryOf(received, c) == HistoryOf(was, c)
    ensures Brings(event, c) ==>
              var h := HistoryOf(received, c);
              && h != [] && h[..|h| - 1] == HistoryOf(was, c) && h[|h| - 1].time == event.payload.time
              && forall g :: multiset(reports)[Miss(g)] == multiset(ReportsAt(h, |h| - 1))[Miss(g)]
  {
    hide ReportsAt;
  }

  lemma {:induction false} HistoryGrows(histories: Histories, events: seq<Event>, reports: seq<seq<Report>>,
                                        c: string, j: nat, k: nat)
    requires Transcript(histories, events, reports) && j <= k <= |events|
    ensures HistoryOf(histories[j], c) <= HistoryOf(histories[k], c)
    decreases k - j
  {
    hide Told;
    if j < k {
      HistoryGrows(histories, events, reports, c, j, k - 1);
      OneEvent(histories[k - 1], histories[k], events[k - 1], reports[k - 1], c);
    }
  }

  /** Which feed of the whole history a message brought, and which misses were reported with it. */
  lemma BroughtAt(histories: Histories, events: seq<Event>, reports: seq<seq<Report>>, c: string, j: nat)
    requires Transcript(histories, events, reports) && j < |events| && Brings(events[j], c)
    ensures var h, m := HistoryOf(histories[|events|], c), |HistoryOf(histories[j], c)|;
            && m < |h| && |HistoryOf(histories[j + 1], c)| == m + 1 && h[m].time == events[j].payload.time
            && forall g :: multiset(reports[j])[Miss(g)] == multiset(ReportsAt(h, m))[Miss(g)]
  {
    hide Told, Reports;
    OneEvent(histories[j], histories[j + 1], events[j], reports[j], c);
    HistoryGrows(histories, events, reports, c, j + 1, |events|);
    var h, part, m := HistoryOf(histories[|events|], c), HistoryOf(histories[j + 1], c), |HistoryOf(histories[j], c)|;
    assert part[..m + 1] == h[..m + 1];
    assert ReportsAt(part, m) == ReportsAt(h, m);
  }

  /** Every feed of the history was brought by a message. */
  lemma {:induction false} BringerOf(histories: Histories, events: seq<Event>, reports: seq<seq<Report>>, c: string,
                                     m: nat, k: nat) returns (j: nat)
    requires Transcript(histories, events, reports) && c !in histories[0]
    requires k <= |events| && m < |HistoryOf(histories[k], c)|
    ensures j < k && Brings(events[j], c) && |HistoryOf(histories[j], c)| == m
    decreases k
  {
    hide Told;
    OneEvent(histories[k - 1], histories[k], events[k - 1], reports[k - 1], c);
    if m < |HistoryOf(histories[k - 1], c)| {
      j := BringerOf(histories, events, reports, c, m, k - 1);
    } else {
      j := k - 1;
    }
  }

  /** No message for the feedcode up to `i` has the timestamp. */
  predicate NoneBrings(events: seq<Event>, i: nat, c: string, g: int) {
    forall j | 0 <= j < |events| && j <= i && Brings(events[j], c) :: events[j].payload.time != g
  }

  lemma NoneBringsNoneHas(histories: Histories, events: seq<Event>, reports: seq<seq<Report>>, c: string, g: int,
                          i: nat, m: nat)
    requires Transcript(histories, events, reports) && c !in histories[0]
    requires i < |events| && Brings(events[i], c) && m == |HistoryOf(histories[i], c)|
    requires m < |HistoryOf(histories[|events|], c)|
    ensures NoneBrings(events, i, c, g) <==> NoneHas(HistoryOf(histories[|events|], c)[..m + 1], g)
  {
    hide Told, ReportsAt;
    var h := HistoryOf(histories[|events|], c);
    if NoneBrings(events, i, c, g) {
      forall n | 0 <= n <= m ensures h[n].time != g {
        BroughtAt(histories, events, reports, c, i);
        var j := BringerOf(histories, events, reports, c, n, i + 1);
        BroughtAt(histories, events, reports, c, j);
      }
    }
    if NoneHas(h[..m + 1], g) {
      forall j | 0 <= j < |events| && j <= i && Brings(events[j], c) ensures events[j].payload.time != g {
        BroughtAt(histories, events, reports, c, j);
        HistoryGrows(histories, events, reports, c, j, i);
        assert h[..m + 1][|HistoryOf(histories[j], c)|] == h[|HistoryOf(histories[j], c)|];
      }
    }
  }

  /**
    * In any run of messages and commits that starts without a history for the feedcode, each timestamp of the grid
    * below the expected one is settled by exactly one message: its absence is reported with that message, once, if
    * no message up to then brought it, and never otherwise.
    */
  lemma MissedOnce(histories: Histories, events: seq<Event>, reports: seq<seq<Report>>, c: string, g: int)
      returns (i: nat)
    requires Transcript(histories, events, reports) && c !in histories[0]
    requires var h := HistoryOf(histories[|events|], c); h != [] && OnGrid(h[0].time, g) && g < After(h).due
    ensures i < |events| && Brings(events[i], c)
    ensures multiset(reports[i])[Miss(g)] == if NoneBrings(events, i, c, g) then 1 else 0
    ensures forall j | 0 <= j < |events| && j != i && Brings(events[j], c) :: Miss(g) !in reports[j]
  {
    hide Told, ReportsAt, After, NoneHas, NoneBrings, OnGrid;
    var h := HistoryOf(histories[|events|], c);
    var n := ConsumedOnce(h, g);
    i := BringerOf(histories, events, reports, c, n, |events|);
    BroughtAt(histories, events, reports, c, i);
    NoneBringsNoneHas(histories, events, reports, c, g, i, n);
    forall j | 0 <= j < |events| && j != i && Brings(events[j], c) ensures Miss(g) !in reports[j] {
      BroughtAt(histories, events, reports, c, j);
      BroughtElsewhere(histories, events, reports, c, i, j);
      assert Miss(g) !in ReportsAt(h, |HistoryOf(histories[j], c)|);
    }
  }

  lemma BroughtElsewhere(histories: Histories, events: seq<Event>, reports: seq<seq<Report>>, c: string, i: nat, j: nat)
    requires Transcript(histories, events, reports) && i < |events| && j < |events| && i != j
    requires Brings(events[i], c) && Brings(events[j], c)
    ensures |HistoryOf(histories[i], c)| != |HistoryOf(histories[j], c)|
  {
    hide Told, ReportsAt;
    if i < j {
      BroughtAt(histories, events, reports, c, i);
      HistoryGrows(histories, events, reports, c, i + 1, j);
    } else {
      BroughtAt(histories, events, reports, c, j);
      HistoryGrows(histories, events, reports, c, j + 1, i);
    }
  }
}
