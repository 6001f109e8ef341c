/** The queue of traffic events between the pipes and those who account for them. */
module PipeEngine {

  const CAPACITY: nat := 4096

  /** Consumers are known by numbers; a call is a consumer with the event it was given. */
  type Consumer = nat

  /** One event given to every consumer in turn. */
  function Round<E>(consumers: seq<Consumer>, e: E): seq<(Consumer, E)> {
    if consumers == [] then []
    else Round(consumers[..|consumers| - 1], e) + [(consumers[|consumers| - 1], e)]
  }

  function Calls<E>(events: seq<E>, consumers: seq<Consumer>): seq<(Consumer, E)> {
    if events == [] then []
    else Calls(events[..|events| - 1], consumers) + Round(consumers, events[|events| - 1])
  }

  function Given<E>(calls: seq<(Consumer, E)>, c: Consumer): seq<E> {
    if calls == [] then []
    else Given(calls[..|calls| - 1], c) + (if calls[|calls| - 1].0 == c then [calls[|calls| - 1].1] else [])
  }

  lemma {:induction false} GivenAppend<E>(x: seq<(Consumer, E)>, y: seq<(Consumer, E)>, c: Consumer)
    ensures Given(x + y, c) == Given(x, c) + Given(y, c)
  {
    if y == [] {
      assert x + y == x;
    } else {
      GivenAppend(x, y[..|y| - 1], c);
      assert (x + y)[..|x + y| - 1] == x + y[..|y| - 1];
    }
  }

  predicate Distinct(consumers: seq<Consumer>) {
    forall i, j :: 0 <= i < j < |consumers| ==> consumers[i] != consumers[j]
  }

  lemma {:induction false} OneRound<E>(consumers: seq<Consumer>, e: E, c: Consumer)
    requires Distinct(consumers)
    ensures Given(Round(consumers, e), c) == if c in consumers then [e] else []
  {
    if consumers == [] {
    } else {
      var front, last := consumers[..|consumers| - 1], consumers[|consumers| - 1];
      OneRound(front, e, c);
      assert Round(consumers, e)[..|Round(consumers, e)| - 1] == Round(front, e);
      assert c in consumers <==> c in front || c == last;
      assert last !in front;
    }
  }

  /** Every consumer is given every event once, in the order they were published. */
  lemma {:induction false} EveryConsumerSeesAll<E>(events: seq<E>, consumers: seq<Consumer>, c: Consumer)
    requires Distinct(consumers)
    ensures Given(Calls(events, consumers), c) == if c in consumers then events else []
  {
    hide Round, Distinct, Given;
    if events == [] {
      GivenNothing<E>(c);
    } else {
      var front, last := events[..|events| - 1], events[|events| - 1];
      EveryConsumerSeesAll(front, consumers, c);
      OneRound(consumers, last, c);
      GivenAppend(Calls(front, consumers), Round(consumers, last), c);
    }
  }

  lemma {:induction false} RoundAt<E>(consumers: seq<Consumer>, e: E)
    ensures |Round(consumers, e)| == |consumers|
    ensures forall j :: 0 <= j < |consumers| ==> Round(consumers, e)[j] == (consumers[j], e)
  {
    if consumers != [] {
      RoundAt(consumers[..|consumers| - 1], e);
    }
  }

  /** The calls are the events in their order, each to all consumers in the order these registered. */
  lemma {:induction false} CallsAt<E>(events: seq<E>, consumers: seq<Consumer>, i: nat, j: nat)
    requires i < |events| && j < |consumers|
    ensures |Calls(events, consumers)| == |events| * |consumers|
    ensures i * |consumers| + j < |events| * |consumers|
    ensures Calls(events, consumers)[i * |consumers| + j] == (consumers[j], events[i])
  {
    var n := |events| - 1;
    var front, m := events[..n], |consumers|;
    RoundAt(consumers, events[n]);
    CallsLength(front, consumers);
    assert |events| * m == n * m + m;
    if i < n {
      CallsAt(front, consumers, i, j);
    }
  }

  lemma {:induction false} CallsLength<E>(events: seq<E>, consumers: seq<Consumer>)
    ensures |Calls(events, consumers)| == |events| * |consumers|
  {
    if events != [] {
      var n := |events| - 1;
      RoundAt(consumers, events[n]);
      CallsLength(events[..n], consumers);
      assert |events| * |consumers| == n * |consumers| + |consumers|;
    }
  }

  lemma CallsSnoc<E>(events: seq<E>, e: E, consumers: seq<Consumer>)
    ensures Calls(events + [e], consumers) == Calls(events, consumers) + Round(consumers, e)
  {
    assert (events + [e])[..|events|] == events;
  }

  lemma CallsNothing<E>(consumers: seq<Consumer>)
    ensures Calls<E>([], consumers) == []
  {
  }

  lemma GivenNothing<E>(c: Consumer)
    ensures Given<E>([], c) == []
  {
  }

  /** What happens to an engine over its life, as far as the consumers can tell. */
  datatype Event<E> = Registered(consumer: Consumer) | Taken(event: E)

  function ConsumersAt<E>(h: seq<Event<E>>): seq<Consumer> {
    if h == [] then []
    else ConsumersAt(h[..|h| - 1]) + (if h[|h| - 1].Registered? then [h[|h| - 1].consumer] else [])
  }

  /** Every event goes to the consumers registered when it is taken. */
  function CallsOf<E>(h: seq<Event<E>>): seq<(Consumer, E)> {
    if h == [] then []
    else CallsOf(h[..|h| - 1]) + (if h[|h| - 1].Taken? then Round(ConsumersAt(h[..|h| - 1]), h[|h| - 1].event) else [])
  }

  function EventsOf<E>(h: seq<Event<E>>): seq<E> {
    if h == [] then [] else EventsOf(h[..|h| - 1]) + (if h[|h| - 1].Taken? then [h[|h| - 1].event] else [])
  }

  /** How often the consumer is registered; every registration is called. */
  function Copies(consumers: seq<Consumer>, c: Consumer): nat {
    if consumers == [] then 0
    else Copies(consumers[..|consumers| - 1], c) + (if consumers[|consumers| - 1] == c then 1 else 0)
  }

  function Repeat<E>(e: E, n: nat): seq<E> {
    seq(n, i => e)
  }

  lemma {:induction false} RoundGives<E>(consumers: seq<Consumer>, e: E, c: Consumer)
    ensures Given(Round(consumers, e), c) == Repeat(e, Copies(consumers, c))
  {
    if consumers == [] {
    } else {
      var front := consumers[..|consumers| - 1];
      RoundGives(front, e, c);
      assert Round(consumers, e)[..|Round(consumers, e)| - 1] == Round(front, e);
    }
  }

  /** Every event as often as the consumer was registered when it was taken. */
  function Due<E>(h: seq<Event<E>>, c: Consumer): seq<E> {
    if h == [] then []
    else
      var front, last := h[..|h| - 1], h[|h| - 1];
      Due(front, c) + (if last.Taken? then Repeat(last.event, Copies(ConsumersAt(front), c)) else [])
  }

  lemma {:induction false} GivenIsDue<E>(h: seq<Event<E>>, c: Consumer)
    ensures Given(CallsOf(h), c) == Due(h, c)
  {
    hide Round, Given, Copies;
    if h == [] {
      GivenNothing<E>(c);
    } else {
      var front, last := h[..|h| - 1], h[|h| - 1];
      GivenIsDue(front, c);
      if last.Taken? {
        RoundGives(ConsumersAt(front), last.event, c);
        GivenAppend(CallsOf(front), Round(ConsumersAt(front), last.event), c);
      } else {
        assert CallsOf(front) + [] == CallsOf(front) && Due(front, c) + [] == Due(front, c);
      }
    }
  }

  lemma {:induction false} DueOnce<E>(h: seq<Event<E>>, c: Consumer, i: nat)
    requires i < |h| && h[i] == Registered(c) && Copies(ConsumersAt(h), c) == 1
    ensures EventsOf(h[..i]) <= EventsOf(h) && Due(h, c) == EventsOf(h)[|EventsOf(h[..i])|..]
  {
    var front, last := h[..|h| - 1], h[|h| - 1];
    CopiesStep(h, c);
    if i == |h| - 1 {
      DueNever(front, c);
      assert EventsOf(h) == EventsOf(front) && Due(h, c) == [];
    } else {
      assert front[..i] == h[..i] && front[i] == h[i];
      CopiesAt(front, c, i);
      DueOnce(front, c, i);
      if last.Taken? {
        assert Repeat(last.event, 1) == [last.event];
      } else {
        assert Due(front, c) + [] == Due(front, c) && EventsOf(front) + [] == EventsOf(front);
      }
    }
  }

  lemma CopiesStep<E>(h: seq<Event<E>>, c: Consumer)
    requires h != []
    ensures Copies(ConsumersAt(h), c) ==
            Copies(ConsumersAt(h[..|h| - 1]), c) + (if h[|h| - 1] == Registered(c) then 1 else 0)
  {
    var front := ConsumersAt(h[..|h| - 1]);
    if h[|h| - 1].Registered? {
      assert ConsumersAt(h)[..|front|] == front;
    } else {
      assert ConsumersAt(h) == front;
    }
  }

  lemma {:induction false} CopiesAt<E>(h: seq<Event<E>>, c: Consumer, i: nat)
    requires i < |h| && h[i] == Registered(c)
    ensures Copies(ConsumersAt(h), c) >= 1
  {
    CopiesStep(h, c);
    if i < |h| - 1 {
      CopiesAt(h[..|h| - 1], c, i);
    }
  }

  lemma {:induction false} DueNever<E>(h: seq<Event<E>>, c: Consumer)
    requires Copies(ConsumersAt(h), c) == 0
    ensures Due(h, c) == []
  {
    if h != [] {
      CopiesStep(h, c);
      DueNever(h[..|h| - 1], c);
    }
  }

  /**
    Over the whole life of an engine, a consumer is given every event taken, in order,
    once for each of its registrations before; registered once, exactly the events
    taken since.
   */
  lemma ConsumerSeesSince<E>(h: seq<Event<E>>, c: Consumer)
    ensures Given(CallsOf(h), c) == Due(h, c)
    ensures forall i: nat :: i < |h| && h[i] == Registered(c) && Copies(ConsumersAt(h), c) == 1 ==>
              EventsOf(h[..i]) <= EventsOf(h) && Given(CallsOf(h), c) == EventsOf(h)[|EventsOf(h[..i])|..]
  {
    GivenIsDue(h, c);
    forall i: nat | i < |h| && h[i] == Registered(c) && Copies(ConsumersAt(h), c) == 1
      ensures EventsOf(h[..i]) <= EventsOf(h) && Due(h, c) == EventsOf(h)[|EventsOf(h[..i])|..]
    {
      DueOnce(h, c, i);
    }
  }

  // -- publishers, registrations and the loop at the same time ------------------------

  /** The event the loop is handing out, and to whom it still has to. */
  datatype Giving<E> = Nothing | To(event: E, rest: seq<Consumer>)

  datatype Bus<E> = Bus(consumers: seq<Consumer>, chan: seq<E>, waiting: seq<E>, calls: seq<(Consumer, E)>,
      giving: Giving<E>)

  /** Single actions of publishers, of who registers, and of the loop, in any order. */
  datatype Act<E> = Register(consumer: Consumer) | Publish(event: E) | Take | Give

  function Quiet<E>(): Bus<E> {
    Bus([], [], [], [], Nothing)
  }

  predicate Free<E>(b: Bus<E>) {
    b.giving.Nothing? || b.giving.rest == []
  }

  predicate Can<E>(b: Bus<E>, a: Act<E>) {
    match a
    case Register(_) => true
    case Publish(_) => true
    case Take => Free(b) && b.chan != []
    case Give => !Free(b)
  }

  /** An event goes to the consumers there are when it is taken. */
  function After<E>(b: Bus<E>, a: Act<E>): Bus<E>
    requires Can(b, a)
  {
    match a
    case Register(c) => b.(consumers := b.consumers + [c])
    case Publish(e) => if |b.chan| < CAPACITY then b.(chan := b.chan + [e]) else b.(waiting := b.waiting + [e])
    case Take =>
      var taken := b.(chan := b.chan[1..], giving := To(b.chan[0], b.consumers));
      if b.waiting == [] then taken else taken.(chan := taken.chan + [b.waiting[0]], waiting := b.waiting[1..])
    case Give => b.(calls := b.calls + [(b.giving.rest[0], b.giving.event)],
        giving := To(b.giving.event, b.giving.rest[1..]))
  }

  predicate Acts<E(==)>(b: Bus<E>, acts: seq<Act<E>>, c: Bus<E>)
    decreases |acts|
  {
    if acts == [] then b == c else Can(b, acts[0]) && Acts(After(b, acts[0]), acts[1..], c)
  }

  function Published<E>(acts: seq<Act<E>>): seq<E>
    decreases |acts|
  {
    if acts == [] then [] else (if acts[0].Publish? then [acts[0].event] else []) + Published(acts[1..])
  }

  /** What has happened, in the order the consumers can tell. */
  function Happened<E>(b: Bus<E>, a: Act<E>): seq<Event<E>>
    requires Can(b, a)
  {
    match a
    case Register(c) => [Registered(c)]
    case Take => [Taken(b.chan[0])]
    case _ => []
  }

  function Owed<E>(g: Giving<E>): seq<(Consumer, E)> {
    if g.Nothing? then [] else Round(g.rest, g.event)
  }

  ghost predicate BusInv<E>(b: Bus<E>, h: seq<Event<E>>, published: seq<E>) {
    && |b.chan| <= CAPACITY && (b.waiting != [] ==> |b.chan| == CAPACITY)
    && b.consumers == ConsumersAt(h) && b.calls + Owed(b.giving) == CallsOf(h)
    && published == EventsOf(h) + (b.chan + b.waiting)
  }

  lemma {:induction false} RoundCons<E>(consumers: seq<Consumer>, e: E)
    requires consumers != []
    ensures Round(consumers, e) == [(consumers[0], e)] + Round(consumers[1..], e)
  {
    if |consumers| > 1 {
      RoundCons(consumers[..|consumers| - 1], e);
      assert consumers[..|consumers| - 1][1..] == consumers[1..][..|consumers| - 2];
    }
  }

  lemma HistorySnoc<E>(h: seq<Event<E>>, e: Event<E>)
    ensures ConsumersAt(h + [e]) == ConsumersAt(h) + (if e.Registered? then [e.consumer] else [])
    ensures CallsOf(h + [e]) == CallsOf(h) + (if e.Taken? then Round(ConsumersAt(h), e.event) else [])
    ensures EventsOf(h + [e]) == EventsOf(h) + (if e.Taken? then [e.event] else [])
  {
    assert (h + [e])[..|h|] == h;
  }

  lemma ActKeepsInv<E>(b: Bus<E>, a: Act<E>, h: seq<Event<E>>, published: seq<E>)
    requires BusInv(b, h, published) && Can(b, a)
    ensures BusInv(After(b, a), h + Happened(b, a), published + (if a.Publish? then [a.event] else []))
  {
    hide Round, ConsumersAt, CallsOf, EventsOf;
    match a
    case Register(c) =>
      HistorySnoc(h, Registered(c));
    case Publish(e) =>
      assert h + [] == h;
    case Take =>
      HistorySnoc(h, Taken(b.chan[0]));
      FreeOwesNothing(b);
      TakeMoves(b);
      assert EventsOf(h) + ([b.chan[0]] + (After(b, a).chan + After(b, a).waiting)) == published;
    case Give =>
      assert h + [] == h;
      RoundCons(b.giving.rest, b.giving.event);
  }

  lemma FreeOwesNothing<E>(b: Bus<E>)
    requires Free(b)
    ensures Owed(b.giving) == [] && b.calls + Owed(b.giving) == b.calls
  {
  }

  lemma TakeMoves<E>(b: Bus<E>)
    requires Can(b, Take)
    ensures b.chan + b.waiting == [b.chan[0]] + (After(b, Take).chan + After(b, Take).waiting)
  {
  }

  function HistoryAlong<E>(b: Bus<E>, acts: seq<Act<E>>, h: seq<Event<E>>): seq<Event<E>>
    decreases |acts|
  {
    if acts == [] || !Can(b, acts[0]) then h
    else HistoryAlong(After(b, acts[0]), acts[1..], h + Happened(b, acts[0]))
  }

  lemma {:induction false} RunKeepsInv<E>(b: Bus<E>, acts: seq<Act<E>>, c: Bus<E>, h: seq<Event<E>>, published: seq<E>)
    requires Acts(b, acts, c) && BusInv(b, h, published)
    ensures BusInv(c, HistoryAlong(b, acts, h), published + Published(acts))
    decreases |acts|
  {
    hide BusInv, After, Can, Happened;
    if acts == [] {
      assert published + [] == published;
    } else {
      var more := if acts[0].Publish? then [acts[0].event] else [];
      ActKeepsInv(b, acts[0], h, published);
      RunKeepsInv(After(b, acts[0]), acts[1..], c, h + Happened(b, acts[0]), published + more);
      assert (published + more) + Published(acts[1..]) == published + (more + Published(acts[1..]));
    }
  }

  /**
    However publishers, registrations and the loop interleave: the events come out in
    the order they were published and none is lost or doubled; and whenever the loop is
    between two events every consumer has been given exactly its due.
   */
  lemma EveryInterleaving<E>(acts: seq<Act<E>>, b: Bus<E>)
    requires Acts(Quiet(), acts, b)
    ensures var h := HistoryAlong(Quiet(), acts, []);
            && Published(acts) == EventsOf(h) + b.chan + b.waiting
            && b.calls <= CallsOf(h)
            && (Free(b) ==> forall c :: Given(b.calls, c) == Due(h, c))
  {
    hide Acts, HistoryAlong, Due, Given, Round, Published;
    var h := HistoryAlong(Quiet<E>(), acts, []);
    RunKeepsInv(Quiet(), acts, b, [], []);
    assert [] + Published(acts) == Published(acts);
    assert EventsOf(h) + (b.chan + b.waiting) == EventsOf(h) + b.chan + b.waiting;
    if Free(b) {
      FreeOwesNothing(b);
      forall c
        ensures Given(b.calls, c) == Due(h, c)
      {
        GivenIsDue(h, c);
      }
    }
  }

  /** Left alone, the loop gives out everything that was published, to the last consumer. */
  lemma {:induction false} LoopDrains<E>(b: Bus<E>, h: seq<Event<E>>, published: seq<E>)
      returns (acts: seq<Act<E>>, c: Bus<E>)
    requires BusInv(b, h, published)
    ensures Acts(b, acts, c) && Published(acts) == [] && Free(c) && c.chan == [] && c.waiting == []
    decreases |b.chan| + |b.waiting|, if b.giving.Nothing? then 0 else |b.giving.rest|
  {
    if Free(b) && b.chan == [] {
      return [], b;
    }
    var a := if Free(b) then Take else Give;
    ActKeepsInv(b, a, h, published);
    hide BusInv, Happened;
    var more;
    more, c := LoopDrains(After(b, a), h + Happened(b, a), published + []);
    acts := [a] + more;
    assert acts[1..] == more;
  }

  /**
    The engine with its bounded queue. Publishers that find it full wait, in the
    order they came, and are let in one by one as events are taken.
   */
  class Engine<E> {
    var consumers: seq<Consumer>
    var eventChan: seq<E>
    var waiting: seq<E>
    var calls: seq<(Consumer, E)>
    ghost var history: seq<Event<E>>

    ghost predicate Valid()
      reads this
    {
      && |eventChan| <= CAPACITY && (waiting != [] ==> |eventChan| == CAPACITY)
      && consumers == ConsumersAt(history) && calls == CallsOf(history)
    }

    /** Everything published that no consumer has been given. */
    ghost function Pending(): seq<E>
      reads this
    {
      eventChan + waiting
    }

    constructor ()
      ensures Valid() && history == [] && Pending() == []
    {
      consumers, eventChan, waiting, calls, history := [], [], [], [], [];
    }

    method AddEventConsumer(c: Consumer)
      requires Valid()
      modifies this
      ensures Valid() && history == old(history) + [Registered(c)] && Pending() == old(Pending())
      ensures consumers == old(consumers) + [c] && calls == old(calls)
    {
      consumers := consumers + [c];
      history := history + [Registered(c)];
      assert history[..|history| - 1] == old(history);
    }

    /** The event is never dropped: a publisher that does not get in waits its turn. */
    method PubEvent(e: E) returns (waits: bool)
      requires Valid()
      modifies this
      ensures Valid() && history == old(history) && calls == old(calls)
      ensures Pending() == old(Pending()) + [e]
      ensures waits <==> |old(eventChan)| == CAPACITY
      ensures waiting == if waits then old(waiting) + [e] else old(waiting)
    {
      waits := |eventChan| >= CAPACITY;
      if waits {
        waiting := waiting + [e];
      } else {
        eventChan := eventChan + [e];
      }
    }

    /** Takes the oldest event, which lets in the publisher that has waited longest. */
    method Receive() returns (e: E)
      requires Valid() && Pending() != []
      modifies `eventChan, `waiting
      ensures Valid()
      ensures old(Pending()) == [e] + Pending()
    {
      assert eventChan != [];
      e := eventChan[0];
      eventChan := eventChan[1..];
      if waiting != [] {
        eventChan, waiting := eventChan + [waiting[0]], waiting[1..];
      }
    }

    /** Runs until nothing is queued and nobody waits; afterwards it would wait for more. */
    method RunTrafficEventConsumeLoop()
      requires Valid()
      modifies this
      ensures Valid() && Pending() == [] && consumers == old(consumers)
      ensures calls == old(calls) + Calls(old(Pending()), consumers)
      ensures EventsOf(history) == EventsOf(old(history)) + old(Pending())
    {
      hide *;
      ghost var taken: seq<E> := [];
      CallsNothing<E>(consumers);
      assert calls + [] == calls && taken + Pending() == Pending();
      Waiting();
      while eventChan != []
        invariant Valid() && consumers == old(consumers)
        invariant old(Pending()) == taken + Pending()
        invariant calls == old(calls) + Calls(taken, consumers)
        invariant EventsOf(history) == EventsOf(old(history)) + taken
        invariant eventChan == [] <==> Pending() == []
        decreases |Pending()|
      {
        ghost var before, rest := calls, Pending();
        var e := Receive();
        GiveToAll(e);
        CallsSnoc(taken, e, consumers);
        assert taken + rest == (taken + [e]) + Pending();
        assert before + Round(consumers, e) == old(calls) + (Calls(taken, consumers) + Round(consumers, e));
        taken := taken + [e];
        Waiting();
      }
      assert taken + [] == taken;
    }

    lemma Waiting()
      requires Valid()
      ensures eventChan == [] <==> Pending() == []
    {
    }

    /** The inner loop over the consumers. */
    method GiveToAll(e: E)
      requires Valid()
      modifies `calls, `history
      ensures Valid() && Pending() == old(Pending()) && calls == old(calls) + Round(consumers, e)
      ensures history == old(history) + [Taken(e)] && EventsOf(history) == EventsOf(old(history)) + [e]
    {
      for i := 0 to |consumers|
        invariant calls == old(calls) + Round(consumers[..i], e) && history == old(history)
      {
        calls := calls + [(consumers[i], e)];
        assert consumers[..i + 1][..i] == consumers[..i];
      }
      assert consumers[..|consumers|] == consumers;
      history := history + [Taken(e)];
      assert history[..|history| - 1] == old(history);
    }
  }
}
