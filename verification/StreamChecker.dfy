/**
  * The processor that checks every statistics feed for gaps. It holds on to the message of a
  * feed, by a reference count, for as long as the feed waits in a buffer.
  */
module StreamChecker {
  import opened StreamBuffer

  datatype Content = Price | Statistics(feed: StatisticsFeed) | Unknown

  class Message {
    const partition: int
    const offset: int
    const content: Content
    var live: nat

    constructor (partition: int, offset: int, content: Content)
      ensures this.partition == partition && this.offset == offset && this.content == content && live == 0
    {
      this.partition, this.offset, this.content, live := partition, offset, content, 0;
    }

    method Live()
      modifies this
      ensures live == old(live) + 1
    {
      live := live + 1;
    }

    /** Letting go of a message that nobody holds would stop the program. */
    method Kill()
      requires live > 0
      modifies this
      ensures live == old(live) - 1
    {
      live := live - 1;
    }

    method Free() returns (free: bool)
      ensures free <==> live == 0
    {
      free := live == 0;
    }
  }

  /** The state kept for one feedcode; the queue gives out a feed with the least timestamp first. */
  class Context {
    var queue: set<StatisticsFeed>
    var due: int
    var preValue: real
    var preVolume: int

    function View(): Buffer
      reads this
    {
      Buffer(queue, due, preValue, preVolume)
    }

    constructor ()
      ensures queue == {}
    {
      queue := {};
    }

    method Top() returns (f: StatisticsFeed)
      requires queue != {}
      ensures f in queue && forall g | g in queue :: f.time <= g.time
    {
      LeastExists(queue);
      f :| f in queue && forall g | g in queue :: f.time <= g.time;
    }
  }

  /** A context that expects the feed itself. */
  method Create(sf: StatisticsFeed) returns (context: Context)
    ensures fresh(context) && context.View() == Opening(sf)
  {
    context := new Context();
    context.due := sf.time;
    context.preValue := if sf.value > 0.0 then sf.value else 0.0;
    context.preVolume := if sf.volume > 0 then sf.volume else 0;
  }

  lemma {:induction false} LeastExists(queue: set<StatisticsFeed>)
    requires queue != {}
    ensures exists f | f in queue :: forall g | g in queue :: f.time <= g.time
    decreases |queue|
  {
    var x :| x in queue;
    var rest := queue - {x};
    if rest == {} {
      assert queue == {x};
    } else {
      LeastExists(rest);
      var y :| y in rest && forall g | g in rest :: y.time <= g.time;
      var f := if x.time <= y.time then x else y;
      assert f in queue && forall g | g in queue :: f.time <= g.time;
    }
  }

  /** Each held feed belongs to the message it came in, which is held once. */
  ghost predicate Owns(owners: map<StatisticsFeed, Message>)
    reads owners.Values
  {
    forall f | f in owners :: owners[f].content == Statistics(f) && owners[f].live == 1
  }

  /** The buffer of the feed's feedcode, as it meets the feed. */
  function BufferFor(buffers: map<string, Buffer>, sf: StatisticsFeed): Buffer {
    if sf.feedcode in buffers then buffers[sf.feedcode] else Opening(sf)
  }

  function HistoryWith(received: map<string, seq<StatisticsFeed>>, sf: StatisticsFeed): seq<StatisticsFeed> {
    (if sf.feedcode in received then received[sf.feedcode] else []) + [sf]
  }

  /** Buffers hold feeds of their own feedcode only, and only feeds whose messages are held. */
  predicate Sorted(buffers: map<string, Buffer>, held: set<StatisticsFeed>) {
    forall c | c in buffers :: forall f | f in buffers[c].queue :: f.feedcode == c && f in held
  }

  /** Each buffer is what the feeds received for its feedcode make of it. */
  predicate Explained(buffers: map<string, Buffer>, received: map<string, seq<StatisticsFeed>>,
                      held: set<StatisticsFeed>)
  {
    && received.Keys == buffers.Keys
    && (forall c | c in buffers :: received[c] != [] && buffers[c] == After(received[c]))
    && (forall f | f in held :: f.feedcode in buffers && f in received[f.feedcode])
  }

  lemma AfterNext(feeds: seq<StatisticsFeed>, sf: StatisticsFeed)
    ensures After(feeds + [sf]) == Receive(if feeds == [] then Opening(sf) else After(feeds), sf)
  {
    hide Receive;
    assert (feeds + [sf])[..|feeds|] == feeds;
  }

  lemma ReceiveWithin(b: Buffer, sf: StatisticsFeed)
    requires sf !in b.queue
    ensures b.queue - Released(b, sf) <= Receive(b, sf).queue <= b.queue + {sf} - Released(b, sf)
    ensures Released(b, sf) <= b.queue + {sf}
  {
    hide Gap;
  }

  /** One feed keeps every buffer sorted and explained. */
  lemma CheckKeeps(buffers: map<string, Buffer>, received: map<string, seq<StatisticsFeed>>,
                   held: set<StatisticsFeed>, sf: StatisticsFeed)
    requires Sorted(buffers, held) && Explained(buffers, received, held) && sf !in held
    ensures var b := BufferFor(buffers, sf);
            var after := buffers[sf.feedcode := Receive(b, sf)];
            && Sorted(after, held + {sf} - Released(b, sf))
            && Explained(after, received[sf.feedcode := HistoryWith(received, sf)], held + {sf} - Released(b, sf))
  {
    hide Receive, Released, After;
    var b := BufferFor(buffers, sf);
    ReceiveWithin(b, sf);
    AfterNext(if sf.feedcode in received then received[sf.feedcode] else [], sf);
  }

  class DeficiencyProcessor {
    var sfToM: map<StatisticsFeed, Message>
    var contexts: map<string, Context>
    ghost var received: map<string, seq<StatisticsFeed>>

    /** The feeds in `gone`, and no others, were let go since the map was `was`. */
    ghost predicate LetGo(was: map<StatisticsFeed, Message>, gone: set<StatisticsFeed>)
      reads this`sfToM, was.Values, sfToM.Values
    {
      && sfToM == was - gone
      && Owns(sfToM)
      && (forall f | f in was :: was[f].content == Statistics(f) && (f in gone ==> was[f].live == 0))
    }

    method Release(f: StatisticsFeed)
      requires Owns(sfToM) && f in sfToM
      modifies this`sfToM, sfToM[f]
      ensures sfToM == old(sfToM) - {f} && old(sfToM)[f].live == 0 && Owns(sfToM)
    {
      sfToM[f].Kill();
      sfToM := sfToM - {f};
    }

    method ReleaseNext(f: StatisticsFeed, ghost was: map<StatisticsFeed, Message>, ghost gone: set<StatisticsFeed>)
      requires LetGo(was, gone) && f in sfToM
      modifies this`sfToM, was.Values
      ensures LetGo(was, gone + {f})
    {
      assert was[f] in was.Values;
      Release(f);
      assert sfToM == was - (gone + {f});
    }

    /** The continuity check reads the incoming feed, whichever feed leaves the queue. */
    method Compare(context: Context, sf: StatisticsFeed, ghost b: Buffer, ghost n: nat, sofar: seq<Report>)
        returns (reports: seq<Report>)
      requires Compared(b, sf, n, context.preValue, context.preVolume, sofar)
      modifies context`preValue, context`preVolume
      ensures Compared(b, sf, n + 1, context.preValue, context.preVolume, reports)
    {
      reports := sofar;
      if sf.value < context.preValue || sf.volume < context.preVolume {
        reports := reports + [NotMonotone(sf)];
      } else {
        context.preValue, context.preVolume := sf.value, sf.volume;
      }
    }

    lemma HeldStill(was: map<StatisticsFeed, Message>, gone: set<StatisticsFeed>, f: StatisticsFeed)
      requires LetGo(was, gone) && f in was && f !in gone
      ensures f in sfToM
    {
    }

    method Pop(context: Context, top: StatisticsFeed, ghost was: map<StatisticsFeed, Message>,
          ghost queue: set<StatisticsFeed>)
      requires queue <= was.Keys && context.queue <= queue && top in context.queue
      requires LetGo(was, queue - context.queue)
      modifies this`sfToM, was.Values, context`queue
      ensures context.queue == old(context.queue) - {top}
      ensures LetGo(was, queue - context.queue)
    {
      hide LetGo;
      ghost var gone := queue - context.queue;
      HeldStill(was, gone, top);
      ReleaseNext(top, was, gone);
      context.queue := context.queue - {top};
      assert queue - context.queue == gone + {top};
    }

    /** Lets go of every feed that is in order or overdue, least timestamp first. */
    method Drain(context: Context, sf: StatisticsFeed) returns (et: int, reports: seq<Report>)
      requires Owns(sfToM) && context.queue <= sfToM.Keys
      modifies this`sfToM, sfToM.Values, context`queue, context`preValue, context`preVolume
      ensures et == Gap(old(context.queue), context.due)
      ensures context.queue == old(context.queue) - Below(old(context.queue), et)
      ensures LetGo(old(sfToM), Below(old(context.queue), et))
      ensures Compared(old(context.View()), sf, Hits(Times(old(context.queue)), context.due),
                       context.preValue, context.preVolume, reports)
    {
      hide LetGo, Compared, Below, Times, Hits, Owns;
      ghost var was, b, n: nat := sfToM, context.View(), 0;
      et, reports := context.due, [];
      StartDrain(context, sf);
      assert b.queue - context.queue == {};
      while context.queue != {}
        invariant et == Grid(b.due, n)
        invariant Draining(b.queue, b.due, context.queue, n)
        invariant LetGo(was, b.queue - context.queue)
        invariant Compared(b, sf, n, context.preValue, context.preVolume, reports)
        decreases context.queue
      {
        var top := context.Top();
        if top.time > et {
          break;
        }
        DrainTop(b.queue, b.due, context.queue, n, top);
        if top.time == et {
          reports := Compare(context, sf, b, n, reports);
          et, n := et + INTERVAL, n + 1;
        }
        Pop(context, top, was, b.queue);
      }
      DrainEnd(b.queue, b.due, context.queue, n);
    }

    lemma StartDrain(context: Context, sf: StatisticsFeed)
      requires Owns(sfToM)
      ensures LetGo(sfToM, {}) && Compared(context.View(), sf, 0, context.preValue, context.preVolume, [])
      ensures Draining(context.queue, context.due, context.queue, 0)
    {
      assert sfToM == sfToM - {};
    }

    /** The buffers of all feedcodes. */
    ghost function Buffers(): map<string, Buffer>
      reads this`contexts, contexts.Values
    {
      map c | c in contexts :: contexts[c].View()
    }

    ghost predicate Apart()
      reads this`contexts
    {
      forall c, d | c in contexts && d in contexts && contexts[c] == contexts[d] :: c == d
    }

    ghost predicate Valid()
      reads this, sfToM.Values, contexts.Values
    {
      && Owns(sfToM) && Apart()
      && Sorted(Buffers(), sfToM.Keys)
      && Explained(Buffers(), received, sfToM.Keys)
    }

    constructor ()
      ensures Valid() && sfToM == map[] && contexts == map[] && received == map[]
    {
      sfToM, contexts, received := map[], map[], map[];
    }

    /** The feed has to wait: it joins the queue, and what is then in order leaves it. */
    method Reorder(context: Context, sf: StatisticsFeed) returns (reports: seq<Report>)
      requires Owns(sfToM) && context.queue + {sf} <= sfToM.Keys && sf.time > context.due
      modifies this`sfToM, sfToM.Values, context
      ensures context.View() == Receive(old(context.View()), sf)
      ensures LetGo(old(sfToM), Released(old(context.View()), sf))
      ensures reports == Reports(old(context.View()), sf)
    {
      hide LetGo, Owns, Below, Gap, Hits, Times, Receive, Reports, Released, Compared, Drops;
      ghost var b := context.View();
      context.queue := context.queue + {sf};
      var et;
      et, reports := Drain(context, sf);
      Reordered(b, sf, context.queue, context.preValue, context.preVolume, reports);
      context.due := et;
      if |context.queue| > MAX_WAITING {
        reports := reports + [Miss(context.due)];
        context.due := context.due + INTERVAL;
      }
    }

    /** Compares a feed with the expected timestamp. */
    method Check(context: Context, sf: StatisticsFeed) returns (reports: seq<Report>)
      requires Owns(sfToM) && context.queue + {sf} <= sfToM.Keys
      modifies this`sfToM, sfToM.Values, context
      ensures context.View() == Receive(old(context.View()), sf)
      ensures LetGo(old(sfToM), Released(old(context.View()), sf))
      ensures reports == Reports(old(context.View()), sf)
    {
      hide LetGo, Below, Gap, Owns, Waiting, DrainReports;
      ghost var was := sfToM;
      StartDrain(context, sf);
      if context.due == sf.time {
        context.due := context.due + INTERVAL;
        ReleaseNext(sf, was, {});
        assert {} + {sf} == {sf};
        reports := [];
      } else if context.due > sf.time {
        reports := [Delay(sf, context.due - sf.time)];
      } else {
        reports := Reorder(context, sf);
      }
    }

    method Hold(message: Message, sf: StatisticsFeed)
      requires Owns(sfToM) && message !in sfToM.Values && message.content == Statistics(sf) && message.live == 0
      modifies this`sfToM, message
      ensures sfToM == old(sfToM)[sf := message] && Owns(sfToM)
    {
      message.Live();
      sfToM := sfToM[sf := message];
    }

    /** The context of a feedcode, set up when its first feed comes in. */
    method ContextFor(sf: StatisticsFeed) returns (context: Context)
      requires Apart()
      modifies this`contexts
      ensures Apart() && sf.feedcode in contexts && contexts[sf.feedcode] == context
      ensures context in old(contexts.Values) || fresh(context)
      ensures context.View() == BufferFor(old(Buffers()), sf)
      ensures Buffers() == old(Buffers())[sf.feedcode := BufferFor(old(Buffers()), sf)]
      ensures fresh(contexts.Values - old(contexts.Values))
    {
      hide Opening;
      if sf.feedcode !in contexts {
        context := Create(sf);
        contexts := contexts[sf.feedcode := context];
        assert contexts.Values <= old(contexts.Values) + {context};
      }
      context := contexts[sf.feedcode];
    }

    /** What letting `gone` go after `message` joined did to the messages. */
    ghost predicate Held(was: map<StatisticsFeed, Message>, sf: StatisticsFeed, message: Message,
          gone: set<StatisticsFeed>)
      reads this`sfToM, was.Values, message
    {
      && sfToM == was[sf := message] - gone
      && message.live == (if sf in gone then 0 else 1)
      && (forall f | f in was :: was[f].live == if f in gone then 0 else 1)
    }

    lemma HeldAfter(was: map<StatisticsFeed, Message>, sf: StatisticsFeed, message: Message, gone: set<StatisticsFeed>)
      requires LetGo(was[sf := message], gone) && sf !in was
      ensures Held(was, sf, message, gone) && Owns(sfToM)
      ensures sfToM.Keys == was.Keys + {sf} - gone
    {
      var all := was[sf := message];
      forall f | f in all ensures all[f].live == if f in gone then 0 else 1 {
        if f !in gone {
          assert sfToM[f] == all[f];
        }
      }
    }

    /** Checking a feed in its context leaves all other contexts alone. */
    method CheckBeside(context: Context, sf: StatisticsFeed) returns (reports: seq<Report>)
      requires Owns(sfToM) && context.queue + {sf} <= sfToM.Keys
      requires Apart() && sf.feedcode in contexts && contexts[sf.feedcode] == context
      modifies this`sfToM, sfToM.Values, context
      ensures Buffers() == old(Buffers())[sf.feedcode := Receive(old(context.View()), sf)]
      ensures LetGo(old(sfToM), Released(old(context.View()), sf))
      ensures reports == Reports(old(context.View()), sf)
    {
      hide LetGo, Owns, Receive, Released, Reports;
      reports := Check(context, sf);
    }

    /** Checks a feed in the context of its feedcode. */
    method CheckIn(sf: StatisticsFeed) returns (reports: seq<Report>)
      requires Owns(sfToM) && Apart() && BufferFor(Buffers(), sf).queue + {sf} <= sfToM.Keys
      modifies this`sfToM, this`contexts, sfToM.Values, contexts.Values
      ensures Apart() && fresh(contexts.Values - old(contexts.Values))
      ensures var b := BufferFor(old(Buffers()), sf);
              && Buffers() == old(Buffers())[sf.feedcode := Receive(b, sf)]
              && LetGo(old(sfToM), Released(b, sf))
              && reports == Reports(b, sf)
    {
      hide LetGo, Owns, Receive, Released, Reports, Buffers, Apart, BufferFor;
      var context := ContextFor(sf);
      reports := CheckBeside(context, sf);
    }

    method ExecStatistics(message: Message, sf: StatisticsFeed) returns (reports: seq<Report>)
      requires Valid() && message !in sfToM.Values && message.live == 0
      requires message.content == Statistics(sf) && sf !in sfToM
      modifies this, sfToM.Values, contexts.Values, message
      ensures Valid() && fresh(contexts.Values - old(contexts.Values))
      ensures var b := BufferFor(old(Buffers()), sf);
              && Buffers() == old(Buffers())[sf.feedcode := Receive(b, sf)]
              && received == old(received)[sf.feedcode := HistoryWith(old(received), sf)]
              && Held(old(sfToM), sf, message, Released(b, sf))
              && reports == (if sf.value <= 0.0 || sf.volume <= 0 then [InvalidTurnover(sf)] else []) + Reports(b, sf)
    {
      hide Sorted, Explained, Receive, Released, Reports, BufferFor, Buffers, Apart, Owns, LetGo, Held;
      ghost var buffers, held := Buffers(), sfToM.Keys;
      ghost var b := BufferFor(buffers, sf);
      CheckKeeps(buffers, received, held, sf);
      QueueHeld(buffers, held, sf);
      Hold(message, sf);
      reports := if sf.value <= 0.0 || sf.volume <= 0 then [InvalidTurnover(sf)] else [];
      received := received[sf.feedcode := HistoryWith(received, sf)];
      var more := CheckIn(sf);
      reports := reports + more;
      HeldAfter(old(sfToM), sf, message, Released(b, sf));
    }

    method Exec(message: Message) returns (reports: seq<Report>)
      requires Valid() && message !in sfToM.Values && message.live == 0
      requires message.content.Statistics? ==> message.content.feed !in sfToM
      modifies this, sfToM.Values, contexts.Values, message
      ensures Valid() && fresh(contexts.Values - old(contexts.Values))
      ensures !message.content.Statistics? ==>
                && unchanged(this) && unchanged(message) && Buffers() == old(Buffers()) && reports == []
                && forall m | m in old(sfToM.Values) :: m.live == old(m.live)
      ensures message.content.Statistics? ==>
                var sf := message.content.feed;
                var b := BufferFor(old(Buffers()), sf);
                && Buffers() == old(Buffers())[sf.feedcode := Receive(b, sf)]
                && received == old(received)[sf.feedcode := HistoryWith(old(received), sf)]
                && Held(old(sfToM), sf, message, Released(b, sf))
                && reports == (if sf.value <= 0.0 || sf.volume <= 0 then [InvalidTurnover(sf)] else []) + Reports(b, sf)
    {
      hide Sorted, Explained, Receive, Released, Reports, BufferFor, Owns;
      match message.content {
        case Statistics(sf) => reports := ExecStatistics(message, sf);
        case Price => reports := [];
        case Unknown => reports := [];
      }
    }
  }

  lemma QueueHeld(buffers: map<string, Buffer>, held: set<StatisticsFeed>, sf: StatisticsFeed)
    requires Sorted(buffers, held)
    ensures BufferFor(buffers, sf).queue <= held
  {
  }
}
