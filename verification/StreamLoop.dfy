/**
  * The event loop: it takes messages from a partitioned log, has every message checked, and
  * commits, per partition, the offset up to which no message is needed any more.
  */
module StreamLoop {
  import opened StreamBuffer
  import opened StreamChecker
  import opened StreamQueue

  datatype Payload =
    | PricePayload
    | StatisticsPayload(feedcode: string, time: int, value: real, volume: int)
    | UnknownPayload

  predicate Increasing(q: seq<Message>) {
    forall i, j | 0 <= i < j < |q| :: q[i].offset < q[j].offset
  }

  /** The queue of a partition: its messages in order, all past the committed offset. */
  predicate QueueFor(q: seq<Message>, p: int, committed: map<int, int>, latest: map<int, int>) {
    && Increasing(q)
    && p in latest
    && (forall m | m in q :: m.partition == p && m.offset <= latest[p] && (p in committed ==> committed[p] < m.offset))
  }

  predicate Queues(offset: map<int, seq<Message>>, committed: map<int, int>, latest: map<int, int>) {
    && (forall p | p in offset :: QueueFor(offset[p], p, committed, latest))
    && (forall p | p in committed :: p in offset && p in latest && committed[p] <= latest[p])
    && latest.Keys == offset.Keys
  }

  predicate Queued(offset: map<int, seq<Message>>, m: Message) {
    m.partition in offset && m in offset[m.partition]
  }

  /** Every message consumed is either queued or deleted; the deleted ones are the committed ones. */
  predicate Accounted(all: set<Message>, deleted: set<Message>, offset: map<int, seq<Message>>,
                      committed: map<int, int>)
  {
    && (forall m | m in all :: m in deleted <==> !Queued(offset, m))
    && (forall p | p in offset :: forall m | m in offset[p] :: m in all)
    && (forall m | m in deleted :: m in all && m.partition in committed && m.offset <= committed[m.partition])
  }

  /** The processor holds this message. */
  predicate Holds(owners: map<StatisticsFeed, Message>, m: Message) {
    m.content.Statistics? && m.content.feed in owners && owners[m.content.feed] == m
  }

  /** A message that is not deleted is live exactly while the processor holds it. */
  ghost predicate Counted(all: set<Message>, deleted: set<Message>, owners: map<StatisticsFeed, Message>)
    reads all
  {
    && (forall m | m in all && m !in deleted :: m.live == if Holds(owners, m) then 1 else 0)
    && (forall f | f in owners :: owners[f] in all && owners[f] !in deleted)
  }

  ghost predicate IsFreePrefix(q: seq<Message>, k: nat)
    reads q
  {
    k <= |q| && (forall i | 0 <= i < k :: q[i].live == 0) && (k < |q| ==> q[k].live != 0)
  }

  function Elements(q: seq<Message>): set<Message> {
    set m | m in q
  }

  function CommittedWith(committed: map<int, int>, p: int, q: seq<Message>, k: nat): map<int, int>
    requires k <= |q|
  {
    if k == 0 then committed else committed[p := q[k - 1].offset]
  }

  /** Cutting a queue at `k`: the front is committed by its last message, the rest lies past it. */
  lemma Cut(q: seq<Message>, p: int, committed: map<int, int>, latest: map<int, int>, k: nat)
    requires QueueFor(q, p, committed, latest) && k <= |q|
    ensures forall m | m in q[..k] :: m in q && m !in q[k..] && m.partition == p && m.offset <= q[k - 1].offset
    ensures forall m | m in q[k..] :: m in q && (k > 0 ==> q[k - 1].offset < m.offset)
    ensures forall m | m in q :: m in q[..k] || m in q[k..]
    ensures k > 0 ==> q[k - 1].offset <= latest[p] && (p in committed ==> committed[p] < q[k - 1].offset)
    ensures Increasing(q[k..])
  {
    assert q == q[..k] + q[k..];
    assert forall i | 0 <= i < |q| :: q[i] in q;
  }

  lemma CommitKeepsQueues(offset: map<int, seq<Message>>, committed: map<int, int>, latest: map<int, int>, p: int,
        k: nat)
    requires Queues(offset, committed, latest) && p in offset && k <= |offset[p]|
    ensures Queues(offset[p := offset[p][k..]], CommittedWith(committed, p, offset[p], k), latest)
    ensures Advances(committed, CommittedWith(committed, p, offset[p], k))
  {
    hide Increasing;
    var q := offset[p];
    Cut(q, p, committed, latest, k);
    var after := CommittedWith(committed, p, q, k);
    assert QueueFor(q[k..], p, after, latest);
    forall r | r in offset && r != p ensures QueueFor(offset[r], r, after, latest) {
      assert QueueFor(offset[r], r, committed, latest);
    }
  }

  lemma CommitKeepsAccount(all: set<Message>, deleted: set<Message>, offset: map<int, seq<Message>>,
                           committed: map<int, int>, latest: map<int, int>, p: int, k: nat)
    requires p in offset && QueueFor(offset[p], p, committed, latest) && Accounted(all, deleted, offset, committed)
    requires k <= |offset[p]|
    ensures Accounted(all, deleted + Elements(offset[p][..k]), offset[p := offset[p][k..]],
                      CommittedWith(committed, p, offset[p], k))
  {
    hide QueueFor;
    var q := offset[p];
    Cut(q, p, committed, latest, k);
    var after := offset[p := q[k..]];
    forall m | m in all ensures m in deleted + Elements(q[..k]) <==> !Queued(after, m) {
      if m.partition == p {
        assert Queued(offset, m) <==> m in q;
      } else {
        assert Queued(offset, m) <==> Queued(after, m);
      }
    }
  }

  lemma CommitKeepsCount(all: set<Message>, deleted: set<Message>, owners: map<StatisticsFeed, Message>,
        gone: set<Message>)
    requires Counted(all, deleted, owners) && forall f | f in owners :: owners[f].content == Statistics(f)
    requires gone <= all && forall m | m in gone :: m.live == 0
    ensures Counted(all, deleted + gone, owners)
  {
    forall f | f in owners ensures owners[f] !in gone {
      assert Holds(owners, owners[f]);
    }
  }

  /** A held message whose feed waits in no buffer: the feed came in after its timestamp was passed. */
  predicate IsLate(owners: map<StatisticsFeed, Message>, buffers: map<string, Buffer>, m: Message) {
    && Holds(owners, m)
    && m.content.feed.feedcode in buffers
    && m.content.feed !in buffers[m.content.feed.feedcode].queue
  }

  /** Another feed neither lets a late message go nor puts it back into a buffer, nor makes another message late. */
  lemma LateStays(owners: map<StatisticsFeed, Message>, buffers: map<string, Buffer>, m: Message,
                  sf: StatisticsFeed, message: Message)
    requires Sorted(buffers, owners.Keys) && sf !in owners && m != message
    requires forall f | f in owners :: f.feedcode in buffers
    ensures var b := BufferFor(buffers, sf);
            IsLate(owners[sf := message] - Released(b, sf), buffers[sf.feedcode := Receive(b, sf)], m)
            <==> IsLate(owners, buffers, m)
  {
    hide Receive, Released;
    ReceiveWithin(BufferFor(buffers, sf), sf);
  }

  /** The incoming message is late exactly if its timestamp was already passed. */
  lemma LateIncoming(owners: map<StatisticsFeed, Message>, buffers: map<string, Buffer>, sf: StatisticsFeed,
        message: Message)
    requires Sorted(buffers, owners.Keys) && sf !in owners && message.content == Statistics(sf)
    ensures var b := BufferFor(buffers, sf);
            IsLate(owners[sf := message] - Released(b, sf), buffers[sf.feedcode := Receive(b, sf)], message)
            <==> sf.time < b.due
  {
    hide Gap;
    QueueHeld(buffers, owners.Keys, sf);
    if sf.time > BufferFor(buffers, sf).due {
      assert sf in Waiting(BufferFor(buffers, sf), sf) || sf in Released(BufferFor(buffers, sf), sf);
    }
  }

  /** What checking a message does to the held feeds and the buffers. */
  ghost predicate Stepped(owners: map<StatisticsFeed, Message>, buffers: map<string, Buffer>,
                          owners': map<StatisticsFeed, Message>, buffers': map<string, Buffer>, message: Message)
  {
    if message.content.Statistics? then
      var sf := message.content.feed;
      var b := BufferFor(buffers, sf);
      owners' == owners[sf := message] - Released(b, sf) && buffers' == buffers[sf.feedcode := Receive(b, sf)]
    else owners' == owners && buffers' == buffers
  }

  /** What checking a message reports, and what it adds to the history of its feedcode. */
  ghost predicate Reported(buffers: map<string, Buffer>, received: map<string, seq<StatisticsFeed>>,
                           received': map<string, seq<StatisticsFeed>>, message: Message, reports: seq<Report>)
  {
    if message.content.Statistics? then
      var sf := message.content.feed;
      && received' == received[sf.feedcode := HistoryWith(received, sf)]
      && reports == (if sf.value <= 0.0 || sf.volume <= 0 then [InvalidTurnover(sf)] else []) +
                    Reports(BufferFor(buffers, sf), sf)
    else received' == received && reports == []
  }

  lemma HeldKnown(buffers: map<string, Buffer>, received: map<string, seq<StatisticsFeed>>, held: set<StatisticsFeed>)
    requires Explained(buffers, received, held)
    ensures forall f | f in held :: f.feedcode in buffers
  {
  }

  /** The reports are the ones that the history of the feedcode explains. */
  ghost predicate ReportedFrom(received: map<string, seq<StatisticsFeed>>, received': map<string, seq<StatisticsFeed>>,
                               message: Message, reports: seq<Report>)
  {
    if message.content.Statistics? then
      var sf := message.content.feed;
      var h := HistoryWith(received, sf);
      && received' == received[sf.feedcode := h]
      && reports == (if sf.value <= 0.0 || sf.volume <= 0 then [InvalidTurnover(sf)] else []) + ReportsAt(h, |h| - 1)
    else received' == received && reports == []
  }

  lemma ReportsExplained(buffers: map<string, Buffer>, received: map<string, seq<StatisticsFeed>>,
                         held: set<StatisticsFeed>,
                         received': map<string, seq<StatisticsFeed>>, message: Message, reports: seq<Report>)
    requires Explained(buffers, received, held) && Reported(buffers, received, received', message, reports)
    ensures ReportedFrom(received, received', message, reports)
  {
    hide Reports, Receive;
    if message.content.Statistics? {
      var h := HistoryWith(received, message.content.feed);
      assert h[..|h|] == h;
      if |h| > 1 {
        assert h[..|h| - 1] == received[message.content.feed.feedcode];
      }
    }
  }

  /** What the reports of one message say about turnover that is not positive and about delay. */
  ghost predicate ReportsTell(h: seq<StatisticsFeed>, message: Message, reports: seq<Report>, late: bool) {
    if !message.content.Statistics? then reports == [] && !late
    else
      var sf := message.content.feed;
      && h != [] && (InvalidTurnover(sf) in reports <==> sf.value <= 0.0 || sf.volume <= 0)
      && (!late ==> Delays(reports) == [])
      && (late ==>
            var delays := Delays(reports);
            |delays| == 1 && delays[0].Delay? && delays[0].feed == sf && sf.time + delays[0].late == Before(h).due)
  }

  lemma Telling(buffers: map<string, Buffer>, received: map<string, seq<StatisticsFeed>>, held: set<StatisticsFeed>,
                received': map<string, seq<StatisticsFeed>>, message: Message, reports: seq<Report>, late: bool)
    requires Explained(buffers, received, held) && Reported(buffers, received, received', message, reports)
    requires late <==> message.content.Statistics? &&
                         message.content.feed.time < BufferFor(buffers, message.content.feed).due
    ensures ReportsTell(if message.content.Statistics? then HistoryWith(received, message.content.feed) else [],
                        message, reports, late)
  {
    hide Reports, Receive, Delays;
    if message.content.Statistics? {
      var sf := message.content.feed;
      var b, h := BufferFor(buffers, sf), HistoryWith(received, sf);
      assert h[..|h| - 1] == if sf.feedcode in received then received[sf.feedcode] else [];
      assert b == Before(h);
      DelayedWhen(b, sf);
      var invalid := if sf.value <= 0.0 || sf.volume <= 0 then [InvalidTurnover(sf)] else [];
      NoDelays(invalid);
      DelaysAppend(invalid, Reports(b, sf));
      assert [] + Delays(Reports(b, sf)) == Delays(Reports(b, sf));
      NoInvalid(b, sf);
    }
  }

  lemma NoInvalid(b: Buffer, sf: StatisticsFeed)
    ensures InvalidTurnover(sf) !in Reports(b, sf)
  {
  }

  /** Late messages stay late, and exactly the overdue feeds join them. */
  lemma LateAfter(owners: map<StatisticsFeed, Message>, buffers: map<string, Buffer>,
                  owners': map<StatisticsFeed, Message>, buffers': map<string, Buffer>, message: Message,
                      all: set<Message>)
    requires Stepped(owners, buffers, owners', buffers', message) && Sorted(buffers, owners.Keys)
    requires message.content.Statistics? ==> message.content.feed !in owners
    requires message !in all && forall f | f in owners :: f.feedcode in buffers
    ensures forall m | m in all :: IsLate(owners, buffers, m) <==> IsLate(owners', buffers', m)
    ensures IsLate(owners', buffers', message) <==>
              message.content.Statistics? &&
              message.content.feed.time < BufferFor(buffers, message.content.feed).due
  {
    hide Receive, Released, Sorted, IsLate;
    if message.content.Statistics? {
      var sf := message.content.feed;
      LateIncoming(owners, buffers, sf, message);
      forall m | m in all ensures IsLate(owners, buffers, m) <==> IsLate(owners', buffers', m) {
        LateStays(owners, buffers, m, sf, message);
      }
    } else {
      NotLate(owners, buffers, message);
    }
  }

  lemma NotLate(owners: map<StatisticsFeed, Message>, buffers: map<string, Buffer>, m: Message)
    requires !m.content.Statistics?
    ensures !IsLate(owners, buffers, m)
  {
  }

  predicate Carries(message: Message, partition: int, position: int, payload: Payload) {
    && message.partition == partition && message.offset == position
    && (message.content.Statistics? <==> payload.StatisticsPayload?)
    && (message.content.Statistics? ==>
          var f := message.content.feed;
          f.feedcode == payload.feedcode && f.time == payload.time && f.value == payload.value
              && f.volume == payload.volume)
  }

  method Decode(partition: int, position: int, payload: Payload) returns (message: Message)
    ensures fresh(message) && message.live == 0 && Carries(message, partition, position, payload)
    ensures message.content.Statistics? ==> fresh(message.content.feed)
  {
    var content := Unknown;
    match payload {
      case PricePayload => content := Price;
      case StatisticsPayload(feedcode, time, value, volume) =>
        var sf := new StatisticsFeed(feedcode, time, value, volume);
        content := Statistics(sf);
      case UnknownPayload =>
    }
    message := new Message(partition, position, content);
  }

  lemma PushKeepsQueues(offset: map<int, seq<Message>>, committed: map<int, int>, latest: map<int, int>, m: Message)
    requires Queues(offset, committed, latest) && (m.partition in latest ==> latest[m.partition] < m.offset)
    ensures Queues(offset[m.partition := QueueOf(offset, m.partition) + [m]], committed,
        latest[m.partition := m.offset])
  {
    var p := m.partition;
    var q := QueueOf(offset, p);
    if p in offset {
      assert QueueFor(q, p, committed, latest);
    }
    assert forall i | 0 <= i < |q| :: q[i] in q;
    assert QueueFor(q + [m], p, committed, latest[p := m.offset]);
    forall r | r in offset && r != p ensures QueueFor(offset[r], r, committed, latest[p := m.offset]) {
      assert QueueFor(offset[r], r, committed, latest);
    }
  }

  lemma PushKeepsAccount(all: set<Message>, deleted: set<Message>, offset: map<int, seq<Message>>,
                         committed: map<int, int>, m: Message)
    requires Accounted(all, deleted, offset, committed) && m !in all
    ensures Accounted(all + {m}, deleted, offset[m.partition := QueueOf(offset, m.partition) + [m]], committed)
  {
    var q := QueueOf(offset, m.partition);
    var after := offset[m.partition := q + [m]];
    forall x | x in all ensures Queued(after, x) <==> Queued(offset, x) {
      assert x in q + [m] <==> x in q;
    }
    assert Queued(after, m);
  }

  function QueueOf(offset: map<int, seq<Message>>, p: int): seq<Message> {
    if p in offset then offset[p] else []
  }

  method AnyOf<T>(todo: set<T>) returns (p: T)
    requires todo != {}
    ensures p in todo
  {
    p :| p in todo;
  }

  datatype Event = Consume(partition: int, position: int, payload: Payload) | Store

  function LatestAfter(latest: map<int, int>, event: Event): map<int, int> {
    if event.Consume? then latest[event.partition := event.position] else latest
  }

  /** The log hands out the messages of each partition in the order of their offsets. */
  predicate InLogOrder(latest: map<int, int>, events: seq<Event>)
    decreases |events|
  {
    events == [] ||
    (&& (events[0].Consume? && events[0].partition in latest ==> latest[events[0].partition] < events[0].position)
     && InLogOrder(LatestAfter(latest, events[0]), events[1..]))
  }

  function Taken(events: seq<Event>): nat {
    if events == [] then 0 else Taken(events[..|events| - 1]) + if events[|events| - 1].Consume? then 1 else 0
  }

  /** The statistics that the log sends for a feedcode. */
  function Sent(events: seq<Event>, feedcode: string): seq<Payload> {
    if events == [] then []
    else
      var event := events[|events| - 1];
      Sent(events[..|events| - 1], feedcode) +
      if event.Consume? && event.payload.StatisticsPayload? && event.payload.feedcode == feedcode
      then [event.payload] else []
  }

  function AsPayload(f: StatisticsFeed): Payload {
    StatisticsPayload(f.feedcode, f.time, f.value, f.volume)
  }

  /** The history of a feedcode, as the log sent it. */
  function Seen(received: map<string, seq<StatisticsFeed>>, feedcode: string): seq<Payload> {
    if feedcode in received then seq(|received[feedcode]|, i requires 0 <= i < |received[feedcode]| =>
                                       AsPayload(received[feedcode][i]))
    else []
  }

  /** What one event adds to the history of its feedcode, and the reports that this history explains. */
  ghost predicate Told(was: map<string, seq<StatisticsFeed>>, received: map<string, seq<StatisticsFeed>>,
                       event: Event, reports: seq<Report>)
  {
    if event.Consume? && event.payload.StatisticsPayload? then
      var c := event.payload.feedcode;
      && c in received && received[c] != []
      && var h := received[c];
      var sf := h[|h| - 1];
      && AsPayload(sf) == event.payload && h == HistoryWith(was, sf) && received == was[c := h]
      && reports == (if sf.value <= 0.0 || sf.volume <= 0 then [InvalidTurnover(sf)] else []) + ReportsAt(h, |h| - 1)
    else received == was && reports == []
  }

  /** Every event of a run told, each from the histories that the one before it left. */
  ghost predicate Transcript(histories: seq<map<string, seq<StatisticsFeed>>>, events: seq<Event>,
                             reports: seq<seq<Report>>)
  {
    && |histories| == |events| + 1 && |reports| == |events|
    && forall i | 0 <= i < |events| :: Told(histories[i], histories[i + 1], events[i], reports[i])
  }

  lemma OneTold(histories: seq<map<string, seq<StatisticsFeed>>>, events: seq<Event>, reports: seq<seq<Report>>,
                received: map<string, seq<StatisticsFeed>>, made: seq<Report>)
    requires |reports| < |events| && Transcript(histories, events[..|reports|], reports)
    requires Told(histories[|reports|], received, events[|reports|], made)
    ensures Transcript(histories + [received], events[..|reports| + 1], reports + [made])
  {
    hide Told;
  }

  lemma AsReported(was: map<string, seq<StatisticsFeed>>, received: map<string, seq<StatisticsFeed>>,
                   message: Message, partition: int, position: int, payload: Payload, reports: seq<Report>)
    requires Carries(message, partition, position, payload) && ReportedFrom(was, received, message, reports)
    ensures Told(was, received, Consume(partition, position, payload), reports)
  {
    hide ReportsAt;
  }

  /** One event adds to the history of its own feedcode only. */
  ghost predicate Grown(was: map<string, seq<StatisticsFeed>>, received: map<string, seq<StatisticsFeed>>,
                        event: Event)
  {
    forall c :: Seen(received, c) == Seen(was, c) + Sent([event], c)
  }

  lemma SentOne(event: Event, c: string)
    ensures Sent([event], c) ==
            if event.Consume? && event.payload.StatisticsPayload? && event.payload.feedcode == c
            then [event.payload] else []
  {
    assert [event][..0] == [];
  }

  lemma OneGrown(was: map<string, seq<StatisticsFeed>>, received: map<string, seq<StatisticsFeed>>, event: Event,
                 reports: seq<Report>)
    requires Told(was, received, event, reports)
    ensures Grown(was, received, event)
  {
    hide ReportsAt;
    forall c ensures Seen(received, c) == Seen(was, c) + Sent([event], c) {
      SentOne(event, c);
    }
  }

  lemma Nothing(received: map<string, seq<StatisticsFeed>>, events: seq<Event>)
    ensures Taken(events[..0]) == 0
    ensures forall c :: Seen(received, c) == Seen(received, c) + Sent(events[..0], c)
  {
    forall c ensures Seen(received, c) == Seen(received, c) + Sent(events[..0], c) {
      assert Sent(events[..0], c) == [];
    }
  }

  /** The run so far and one event more. */
  lemma OneMore(first: map<string, seq<StatisticsFeed>>, was: map<string, seq<StatisticsFeed>>,
                received: map<string, seq<StatisticsFeed>>, events: seq<Event>, i: nat)
    requires i < |events| && Grown(was, received, events[i])
    requires forall c :: Seen(was, c) == Seen(first, c) + Sent(events[..i], c)
    ensures Taken(events[..i + 1]) == Taken(events[..i]) + if events[i].Consume? then 1 else 0
    ensures forall c :: Seen(received, c) == Seen(first, c) + Sent(events[..i + 1], c)
  {
    hide Seen;
    assert events[..i + 1][..i] == events[..i];
    forall c ensures Seen(received, c) == Seen(first, c) + Sent(events[..i + 1], c) {
      SentOne(events[i], c);
      assert Sent(events[..i + 1], c) == Sent(events[..i], c) + Sent([events[i]], c);
    }
  }

  /** Commits never go back. */
  predicate Advances(before: map<int, int>, after: map<int, int>) {
    forall p | p in before :: p in after && before[p] <= after[p]
  }

  class EventLoop {
    const processor: DeficiencyProcessor
    var offset: map<int, seq<Message>>
    var committed: map<int, int>
    ghost var all: set<Message>
    ghost var deleted: set<Message>
    ghost var latest: map<int, int>

    ghost predicate Valid()
      reads this, processor, all, processor.sfToM.Values, processor.contexts.Values
    {
      && processor.Valid()
      && Queues(offset, committed, latest)
      && Accounted(all, deleted, offset, committed)
      && Counted(all, deleted, processor.sfToM)
    }

    constructor ()
      ensures Valid() && all == {} && deleted == {} && offset == map[] && committed == map[] && latest == map[]
      ensures fresh(processor) && processor.contexts == map[]
    {
      processor := new DeficiencyProcessor();
      offset, committed, latest, all, deleted := map[], map[], map[], {}, {};
    }

    // ----- Committing -----

    /** Frees a message; doing it twice, or while the message is held, would be an error. */
    method Delete(m: Message)
      requires m !in deleted && m.live == 0
      modifies this`deleted
      ensures deleted == old(deleted) + {m}
    {
      deleted := deleted + {m};
    }

    /** Takes the free messages off the front of a queue, and commits the last of them. */
    method StorePartition(p: int) returns (ghost k: nat)
      requires p in offset && Increasing(offset[p]) && (forall m | m in offset[p] :: m !in deleted)
      modifies this`offset, this`committed, this`deleted
      ensures IsFreePrefix(old(offset)[p], k)
      ensures offset == old(offset)[p := old(offset)[p][k..]]
      ensures committed == if k == 0 then old(committed) else old(committed)[p := old(offset)[p][k - 1].offset]
      ensures deleted == old(deleted) + Elements(old(offset)[p][..k])
    {
      ghost var q := offset[p];
      var cur: Message? := null;
      k := 0;
      while offset[p] != []
        invariant k <= |q| && offset == old(offset)[p := q[k..]] && committed == old(committed)
        invariant forall i | 0 <= i < k :: q[i].live == 0
        invariant cur == if k == 0 then null else q[k - 1]
        invariant deleted == old(deleted) + Elements(q[..if k == 0 then 0 else k - 1])
        decreases |q| - k
      {
        var next := offset[p][0];
        var free := next.Free();
        if !free {
          break;
        }
        if cur != null {
          Delete(cur);
        }
        cur := next;
        offset := offset[p := offset[p][1..]];
        k := k + 1;
      }
      if cur != null {
        committed := committed[p := cur.offset];
        Delete(cur);
      }
    }

    lemma QueuedAlive(p: int)
      requires Valid() && p in offset
      ensures QueueFor(offset[p], p, committed, latest) && forall m | m in offset[p] :: m in all && m !in deleted
      ensures forall f | f in processor.sfToM :: processor.sfToM[f].content == Statistics(f)
    {
      assert QueueFor(offset[p], p, committed, latest);
      assert forall m | m in offset[p] :: Queued(offset, m);
    }

    /** Commits one partition; everything kept stays behind the committed offset. */
    method StoreOne(p: int)
      requires Valid() && p in offset
      modifies this`offset, this`committed, this`deleted
      ensures Valid()
      ensures offset.Keys == old(offset).Keys && forall r | r in offset && r != p :: offset[r] == old(offset)[r]
      ensures offset[p] == [] || offset[p][0].live != 0
      ensures Advances(old(committed), committed)
    {
      hide Queues, Accounted, Counted, processor.Valid;
      ghost var q, was, before, commits := offset[p], deleted, offset, committed;
      QueuedAlive(p);
      ghost var k := StorePartition(p);
      CommitKeepsQueues(before, commits, latest, p, k);
      CommitKeepsAccount(all, was, before, commits, latest, p, k);
      CommitKeepsCount(all, was, processor.sfToM, Elements(q[..k]));
    }

    /** Commits every partition. */
    method StoreOffset()
      requires Valid()
      modifies this`offset, this`committed, this`deleted
      ensures Valid() && offset.Keys == old(offset).Keys && Advances(old(committed), committed)
      ensures forall p | p in offset :: offset[p] == [] || offset[p][0].live != 0
    {
      hide Queues, Accounted, Counted, Owns, Sorted, Explained;
      var todo: set<int> := offset.Keys;
      while todo != {}
        invariant Valid() && todo <= offset.Keys && offset.Keys == old(offset).Keys
            && Advances(old(committed), committed)
        invariant forall p | p in offset && p !in todo :: offset[p] == [] || offset[p][0].live != 0
        decreases |todo|
      {
        var p := AnyOf(todo);
        StoreOne(p);
        todo := todo - {p};
      }
    }

    // ----- Consuming -----

    ghost predicate Late(m: Message)
      reads processor, processor.contexts.Values
    {
      IsLate(processor.sfToM, processor.Buffers(), m)
    }

    /** Has the processor check a message that nobody holds yet. */
    method ExecBeside(message: Message) returns (reports: seq<Report>)
      requires processor.Valid() && Counted(all, deleted, processor.sfToM)
      requires message !in all && message !in deleted && message.live == 0
      requires message.content.Statistics? ==> message.content.feed !in processor.sfToM
      modifies processor, all, processor.contexts.Values, message
      ensures processor.Valid() && fresh(processor.contexts.Values - old(processor.contexts.Values))
      ensures Counted(all + {message}, deleted, processor.sfToM)
      ensures Stepped(old(processor.sfToM), old(processor.Buffers()), processor.sfToM, processor.Buffers(), message)
      ensures Reported(old(processor.Buffers()), old(processor.received), processor.received, message, reports)
    {
      hide Sorted, Explained, Receive, Released, Reports, BufferFor, Opening, Counted;
      ghost var owners := processor.sfToM;
      ghost var gone := if message.content.Statistics?
                        then Released(BufferFor(processor.Buffers(), message.content.feed), message.content.feed)
                        else {};
      OwnersCounted();
      reports := processor.Exec(message);
      StillCounted(owners, gone, message);
    }

    /** The processor can only touch messages it holds. */
    lemma OwnersCounted()
      requires processor.Valid() && Counted(all, deleted, processor.sfToM)
      ensures processor.sfToM.Values <= all && deleted !! processor.sfToM.Values
      ensures forall m | m in processor.sfToM.Values :: Holds(processor.sfToM, m)
      ensures forall m | m in all && m !in deleted && m !in processor.sfToM.Values :: m.live == 0
      ensures forall m | m in processor.sfToM.Values :: m.live == 1
    {
    }

    lemma StillCounted(owners: map<StatisticsFeed, Message>, gone: set<StatisticsFeed>, message: Message)
      requires owners.Values <= all && deleted !! owners.Values && message !in all && message !in deleted
      requires forall m | m in owners.Values :: Holds(owners, m)
      requires forall m | m in all && m !in deleted && m !in owners.Values :: m.live == 0
      requires message.content.Statistics? ==>
                 message.content.feed !in owners && processor.Held(owners, message.content.feed, message, gone)
      requires !message.content.Statistics? ==>
                 processor.sfToM == owners && message.live == 0 && forall m | m in owners.Values :: m.live == 1
      ensures Counted(all + {message}, deleted, processor.sfToM)
    {
      forall m | m in all && m !in deleted ensures m.live == if Holds(processor.sfToM, m) then 1 else 0 {
        assert Holds(owners, m) ==> m in owners.Values;
      }
    }

    /** Queues a message and has it checked. */
    method Take(message: Message) returns (reports: seq<Report>)
      requires Valid() && (message.partition in latest ==> latest[message.partition] < message.offset)
      requires message !in all && message.live == 0
      requires message.content.Statistics? ==> message.content.feed !in processor.sfToM
      modifies this, processor, all, processor.contexts.Values, message
      ensures Valid() && fresh(processor.contexts.Values - old(processor.contexts.Values))
      ensures all == old(all) + {message} && deleted == old(deleted) && committed == old(committed)
      ensures latest == old(latest)[message.partition := message.offset]
      ensures offset == old(offset)[message.partition := QueueOf(old(offset), message.partition) + [message]]
      ensures Stepped(old(processor.sfToM), old(processor.Buffers()), processor.sfToM, processor.Buffers(), message)
      ensures Reported(old(processor.Buffers()), old(processor.received), processor.received, message, reports)
    {
      hide Queues, Accounted, Counted, Owns, Explained, Sorted, Stepped, QueueOf;
      PushKeepsQueues(offset, committed, latest, message);
      PushKeepsAccount(all, deleted, offset, committed, message);
      NotDeleted(message);
      reports := ExecBeside(message);
      offset := offset[message.partition := QueueOf(offset, message.partition) + [message]];
      all, latest := all + {message}, latest[message.partition := message.offset];
    }

    /** One turn of the loop. The log hands out the messages of a partition in the order of their offsets. */
    method RunOnce(partition: int, position: int, payload: Payload) returns (message: Message, reports: seq<Report>)
      requires Valid() && (partition in latest ==> latest[partition] < position)
      modifies this, processor, all, processor.contexts.Values
      ensures Valid() && fresh(message) && fresh(processor.contexts.Values - old(processor.contexts.Values))
      ensures all == old(all) + {message} && deleted == old(deleted) && committed == old(committed)
      ensures latest == old(latest)[partition := position]
      ensures offset == old(offset)[partition := QueueOf(old(offset), partition) + [message]]
      ensures forall m | m in old(all) :: Late(m) <==> old(Late(m))
      ensures Late(message) <==>
                message.content.Statistics? &&
                message.content.feed.time < BufferFor(old(processor.Buffers()), message.content.feed).due
      ensures Carries(message, partition, position, payload)
      ensures ReportedFrom(old(processor.received), processor.received, message, reports)
      ensures ReportsTell(if message.content.Statistics?
                          then HistoryWith(old(processor.received), message.content.feed) else [],
                          message, reports, Late(message))
    {
      hide Queues, Accounted, Counted, Owns, Explained, Sorted, Stepped, IsLate, QueueOf, Reported, ReportedFrom,
           BufferFor, ReportsTell, HistoryWith;
      ghost var owners, buffers, received := processor.sfToM, processor.Buffers(), processor.received;
      message := Decode(partition, position, payload);
      HeldKnown(buffers, received, owners.Keys);
      reports := Take(message);
      ReportsExplained(buffers, received, owners.Keys, processor.received, message, reports);
      LateAfter(owners, buffers, processor.sfToM, processor.Buffers(), message, old(all));
      Telling(buffers, received, owners.Keys, processor.received, message, reports, Late(message));
    }

    /**
      * Nothing the processor still holds, be it buffered or late, is committed or deleted, and
      * what is deleted is exactly what is committed.
      */
    lemma NothingLost()
      requires Valid()
      ensures forall f | f in processor.sfToM ::
                var m := processor.sfToM[f];
                && m.content == Statistics(f) && m.live == 1 && m in all && m !in deleted && Queued(offset, m)
                && (m.partition in committed ==> committed[m.partition] < m.offset)
      ensures forall c, f | c in processor.contexts && f in processor.contexts[c].queue :: f in processor.sfToM
      ensures forall m | m in all :: m in deleted <==> m.partition in committed && m.offset <= committed[m.partition]
    {
      forall m | m in all && m !in deleted ensures m.partition in committed ==> committed[m.partition] < m.offset {
        assert QueueFor(offset[m.partition], m.partition, committed, latest);
      }
      forall c, f | c in processor.contexts && f in processor.contexts[c].queue ensures f in processor.sfToM {
        assert processor.Buffers()[c].queue == processor.contexts[c].queue;
      }
    }

    /** A message from the log, or a turn of the committer. */
    method Handle(event: Event) returns (reports: seq<Report>)
      requires Valid()
      requires event.Consume? && event.partition in latest ==> latest[event.partition] < event.position
      modifies this, processor, all, processor.contexts.Values
      ensures Valid() && old(all) <= all && Advances(old(committed), committed)
      ensures forall m | m in old(all) :: Late(m) <==> old(Late(m))
      ensures fresh(all - old(all)) && fresh(processor.contexts.Values - old(processor.contexts.Values))
      ensures latest == LatestAfter(old(latest), event)
      ensures |all| == |old(all)| + if event.Consume? then 1 else 0
      ensures Told(old(processor.received), processor.received, event, reports)
      ensures event.Store? ==> HeadsHeld()
    {
      hide Queues, Accounted, Counted, Owns, Sorted, Explained, IsLate, QueueOf, ReportedFrom, ReportsTell, BufferFor,
           HistoryWith, ReportsAt, Carries;
      match event {
        case Store =>
          StoreOffset();
          reports := [];
        case Consume(partition, position, payload) =>
          ghost var received := processor.received;
          var message;
          message, reports := RunOnce(partition, position, payload);
          AsReported(received, processor.received, message, partition, position, payload, reports);
      }
    }

    /** Nothing that could be committed is left at the head of a queue. */
    ghost predicate HeadsHeld()
      reads this, all
    {
      forall p | p in offset && offset[p] != [] :: offset[p][0] in all ==> offset[p][0].live != 0
    }

    /**
      * Any mix of messages and commits, from any reachable state: the invariants hold throughout, each message
      * is taken once, adds its feed to the history of its feedcode in order and is answered by the reports that
      * this history explains, commits never go back and leave nothing behind that is free, and a late message
      * stays late, so that its offset is never committed.
      */
    method Run(events: seq<Event>)
        returns (reports: seq<seq<Report>>, ghost histories: seq<map<string, seq<StatisticsFeed>>>)
      requires Valid() && InLogOrder(latest, events)
      modifies this, processor, all, processor.contexts.Values
      ensures Valid() && old(all) <= all && Advances(old(committed), committed)
      ensures |all| == |old(all)| + Taken(events)
      ensures Transcript(histories, events, reports)
      ensures histories[0] == old(processor.received) && histories[|events|] == processor.received
      ensures forall c :: Seen(processor.received, c) == Seen(old(processor.received), c) + Sent(events, c)
      ensures events != [] && events[|events| - 1].Store? ==> HeadsHeld()
      ensures forall m | m in old(all) :: Late(m) <==> old(Late(m))
      ensures forall m | m in old(all) && old(Late(m)) ::
                m !in deleted && (m.partition in committed ==> committed[m.partition] < m.offset)
    {
      hide Queues, Accounted, Counted, Owns, Sorted, Explained, IsLate, Seen, Sent, Taken, HeadsHeld, Grown, Told;
      reports, histories := [], [processor.received];
      assert events[0..] == events;
      Nothing(processor.received, events);
      for i := 0 to |events|
        invariant Valid() && InLogOrder(latest, events[i..])
        invariant old(all) <= all && Advances(old(committed), committed)
        invariant fresh(all - old(all)) && fresh(processor.contexts.Values - old(processor.contexts.Values))
        invariant |all| == |old(all)| + Taken(events[..i]) && Transcript(histories, events[..i], reports)
        invariant histories[0] == old(processor.received) && histories[i] == processor.received
        invariant forall c :: Seen(processor.received, c) == Seen(old(processor.received), c) + Sent(events[..i], c)
        invariant i > 0 && events[i - 1].Store? ==> HeadsHeld()
        invariant forall m | m in old(all) :: Late(m) <==> old(Late(m))
      {
        ghost var received := processor.received;
        assert events[i..][1..] == events[i + 1..];
        var made := Handle(events[i]);
        OneTold(histories, events, reports, processor.received, made);
        OneGrown(received, processor.received, events[i], made);
        reports, histories := reports + [made], histories + [processor.received];
        OneMore(old(processor.received), received, processor.received, events, i);
      }
      assert events[..|events|] == events;
      LateHeld();
    }

    lemma LateHeld()
      requires Valid()
      ensures forall m | m in all && Late(m) ::
                m !in deleted && (m.partition in committed ==> committed[m.partition] < m.offset)
    {
      hide Queues, Accounted, Counted, Sorted, Explained;
      NothingLost();
    }

    lemma NotDeleted(m: Message)
      requires Valid() && m !in all
      ensures m !in deleted
    {
    }
  }
}
