/**
  The pipe engine: two copy loops run against each other, each closing its
  destination when it ends, and one traffic event at the very end.
 */
module Pipe {
  import opened Common
  import opened Relay

  /**
    One of the two connections: the bytes kept on our side, as a wrapper that gives
    back what was read before does; all that the peer will ever send; whether our
    side is still open; and whether a write that fails claims all its bytes, as that
    of a message connection does, or reports what went out.
   */
  datatype End = End(held: seq<byte>, input: seq<byte>, open: bool, claims: bool)

  /** In is counted from `conn` to `rConn`, Out the other way. */
  datatype Traffic = Traffic(inBytes: nat, outBytes: nat)

  datatype State = State(conn: End, rConn: End, up: Copier, down: Copier, upCount: nat, downCount: nat,
                         upDone: bool, downDone: bool, events: seq<Traffic>)

  datatype Step =
    | Read(up: bool, n: nat, end: ReadEnd)
    | Write(up: bool, outcome: Outcome)
    | Close(up: bool)
    | Publish

  /** All the bytes a connection brings. */
  function All(e: End): seq<byte> {
    e.held + e.input
  }

  function Start(a: End, b: End): State {
    State(a, b, IDLE, IDLE, 0, 0, false, false, [])
  }

  function Source(s: State, up: bool): End {
    if up then s.conn else s.rConn
  }

  function Sink(s: State, up: bool): End {
    Source(s, !up)
  }

  function Loop(s: State, up: bool): Copier {
    if up then s.up else s.down
  }

  function Count(s: State, up: bool): nat {
    if up then s.upCount else s.downCount
  }

  function Done(s: State, up: bool): bool {
    if up then s.upDone else s.downDone
  }

  /**
    Bytes that are held come first, whether or not the connection is closed. After
    that a closed connection only fails, and the end of the stream is seen when all
    of it has been read.
   */
  predicate CanRead(e: End, n: nat, end: ReadEnd) {
    n <= CHUNK &&
    if e.held != [] then 0 < n <= |e.held| && end.More?
    else
      && n <= |e.input|
      && (n > 0 || !end.More?)
      && (end.AtEnd? ==> n == |e.input|)
      && (!e.open ==> n == 0 && end.Failed?)
  }

  function Front(e: End, n: nat): seq<byte>
    requires n <= |if e.held != [] then e.held else e.input|
  {
    if e.held != [] then e.held[..n] else e.input[..n]
  }

  function Rest(e: End, n: nat): End
    requires n <= |if e.held != [] then e.held else e.input|
  {
    if e.held != [] then e.(held := e.held[n..]) else e.(input := e.input[n..])
  }

  predicate Enabled(s: State, step: Step) {
    match step
    case Read(up, n, end) => Loop(s, up).phase.Reading? && CanRead(Source(s, up), n, end)
    case Write(up, w) =>
      && Loop(s, up).phase.Writing?
      && Possible(w, Loop(s, up).phase.chunk)
      && (!Sink(s, up).open ==> w.failed && w.put == 0)
    case Close(up) => Loop(s, up).phase.Stopped? && !Done(s, up)
    case Publish => s.upDone && s.downDone && s.events == []
  }

  /** The number of bytes a write says it wrote. */
  function Said(w: Outcome, chunk: seq<byte>, claims: bool): nat {
    if w.failed && claims then |chunk| else w.put
  }

  function Next(s: State, step: Step): State
    requires Enabled(s, step)
  {
    match step
    case Read(up, n, end) =>
      var c := AfterRead(Loop(s, up), Front(Source(s, up), n), end);
      if up then s.(up := c, conn := Rest(s.conn, n)) else s.(down := c, rConn := Rest(s.rConn, n))
    case Write(up, w) =>
      var c, said := AfterWrite(Loop(s, up), w), Said(w, Loop(s, up).phase.chunk, Sink(s, up).claims);
      if up then s.(up := c, upCount := s.upCount + said) else s.(down := c, downCount := s.downCount + said)
    case Close(up) =>
      if up then s.(rConn := s.rConn.(open := false), upDone := true)
      else s.(conn := s.conn.(open := false), downDone := true)
    case Publish => s.(events := [Traffic(s.upCount, s.downCount)])
  }

  /** A run of the two loops in any interleaving. */
  predicate Runs(s: State, steps: seq<Step>, t: State)
    decreases |steps|
  {
    if steps == [] then s == t
    else Enabled(s, steps[0]) && Runs(Next(s, steps[0]), steps[1..], t)
  }

  ghost predicate Reaches(s: State, t: State) {
    exists steps :: Runs(s, steps, t)
  }

  // -- the invariant -----------------------------------------------------------

  /** One direction: nothing is lost before the loop stops, and it ends cleanly only at the end of its source. */
  predicate Flow(c: Copier, e: End, all: seq<byte>) {
    && InOrder(c) && c.taken + All(e) == all
    && (c.phase == Stopped(true) || (c.phase.Writing? && c.phase.end.AtEnd?) ==> All(e) == [])
    && (c.phase.Writing? && !c.phase.end.More? ==> e.held == [])
  }

  predicate Inv(s: State, a: seq<byte>, b: seq<byte>) {
    && Flow(s.up, s.conn, a) && Flow(s.down, s.rConn, b)
    && (s.upDone <==> !s.rConn.open) && (s.downDone <==> !s.conn.open)
    && (s.upDone ==> s.up.phase.Stopped?) && (s.downDone ==> s.down.phase.Stopped?)
    && (s.events != [] ==> s.upDone && s.downDone && s.events == [Traffic(s.upCount, s.downCount)])
  }

  lemma StartInv(a: End, b: End)
    requires a.open && b.open
    ensures Inv(Start(a, b), All(a), All(b))
  {
    assert [] + All(a) == All(a) && [] + All(b) == All(b);
  }

  lemma ReadKeepsFlow(c: Copier, e: End, all: seq<byte>, n: nat, end: ReadEnd)
    requires Flow(c, e, all) && c.phase.Reading? && CanRead(e, n, end)
    ensures Flow(AfterRead(c, Front(e, n), end), Rest(e, n), all)
  {
    ReadKeepsOrder(c, Front(e, n), end);
    assert All(e) == Front(e, n) + All(Rest(e, n));
    assert c.taken + All(e) == (c.taken + Front(e, n)) + All(Rest(e, n));
  }

  lemma WriteKeepsFlow(c: Copier, e: End, all: seq<byte>, w: Outcome)
    requires Flow(c, e, all) && c.phase.Writing? && Possible(w, c.phase.chunk)
    ensures Flow(AfterWrite(c, w), e, all)
  {
    WriteKeepsOrder(c, w);
  }

  lemma StepKeepsInv(s: State, step: Step, a: seq<byte>, b: seq<byte>)
    requires Inv(s, a, b) && Enabled(s, step)
    ensures Inv(Next(s, step), a, b)
  {
    hide InOrder, AfterRead, AfterWrite, Rest, Front;
    match step
    case Read(up, n, end) =>
      ReadKeepsFlow(Loop(s, up), Source(s, up), if up then a else b, n, end);
      RestSame(Source(s, up), n);
    case Write(up, w) =>
      WriteKeepsFlow(Loop(s, up), Source(s, up), if up then a else b, w);
    case Close(up) =>
      assert All(Sink(Next(s, step), up)) == All(Sink(s, up));
    case Publish =>
  }

  lemma RestSame(e: End, n: nat)
    requires n <= |if e.held != [] then e.held else e.input|
    ensures Rest(e, n).open == e.open && Rest(e, n).claims == e.claims
  {
  }

  // -- progress ------------------------------------------------------------------

  /** An upper bound on the number of steps to come. */
  function Left(s: State): nat {
    LeftOf(s.up, s.conn, s.upDone) + LeftOf(s.down, s.rConn, s.downDone) + (if s.events == [] then 1 else 0)
  }

  function LeftOf(c: Copier, source: End, done: bool): nat {
    3 * (|source.held| + |source.input|)
    + (if c.phase.Writing? then 4 else if c.phase.Reading? then 3 else 2) - (if done then 1 else 0)
  }

  lemma ReadDescends(c: Copier, e: End, n: nat, end: ReadEnd)
    requires c.phase.Reading? && CanRead(e, n, end)
    ensures LeftOf(AfterRead(c, Front(e, n), end), Rest(e, n), false) < LeftOf(c, e, false)
  {
  }

  lemma WriteDescends(c: Copier, e: End, w: Outcome)
    requires c.phase.Writing? && Possible(w, c.phase.chunk)
    ensures LeftOf(AfterWrite(c, w), e, false) < LeftOf(c, e, false)
  {
  }

  lemma LeftDone(c: Copier, e: End, done: bool)
    ensures LeftOf(c, e, done) == LeftOf(c, e, false) - (if done then 1 else 0)
    ensures LeftOf(c, e.(open := false), done) == LeftOf(c, e, done)
  {
  }

  lemma StepDescends(s: State, step: Step)
    requires Enabled(s, step)
    ensures Left(Next(s, step)) < Left(s)
  {
    hide InOrder, Said, CanRead, AfterRead, AfterWrite, Front, Rest, LeftOf;
    match step
    case Read(up, n, end) =>
      ReadDescends(Loop(s, up), Source(s, up), n, end);
      LeftDone(Loop(s, up), Source(s, up), Done(s, up));
      CanReadFits(Source(s, up), n, end);
      LeftDone(AfterRead(Loop(s, up), Front(Source(s, up), n), end), Rest(Source(s, up), n), Done(s, up));
    case Write(up, w) =>
      WriteDescends(Loop(s, up), Source(s, up), w);
      LeftDone(Loop(s, up), Source(s, up), Done(s, up));
      LeftDone(AfterWrite(Loop(s, up), w), Source(s, up), Done(s, up));
    case Close(up) =>
      LeftDone(Loop(s, up), Source(s, up), true);
      LeftDone(Loop(s, !up), Sink(s, up), Done(s, !up));
    case Publish =>
  }

  lemma CanReadFits(e: End, n: nat, end: ReadEnd)
    requires CanRead(e, n, end)
    ensures n <= |if e.held != [] then e.held else e.input|
  {
  }

  /**
    Every interleaving, from any state on: what has gone out on either side is a
    first part of what came in on the other, all of it once that side's loop ended
    cleanly; the event comes once, after both loops ended and both connections were
    closed; and no run is longer than a bound known from the streams.
   */
  lemma {:induction false} EveryRun(s: State, steps: seq<Step>, t: State, a: seq<byte>, b: seq<byte>)
    requires Inv(s, a, b) && Runs(s, steps, t)
    ensures Inv(t, a, b)
    ensures t.up.put <= a && t.down.put <= b
    ensures (t.up.phase == Stopped(true) ==> t.up.put == a) && (t.down.phase == Stopped(true) ==> t.down.put == b)
    ensures |t.events| <= 1
            && (t.events != [] ==> !t.conn.open && !t.rConn.open && t.up.phase.Stopped? && t.down.phase.Stopped?)
    ensures |steps| + Left(t) <= Left(s)
    decreases |steps|
  {
    if steps == [] {
      PrefixOfAll(t.up, t.conn, a);
      PrefixOfAll(t.down, t.rConn, b);
    } else {
      hide Inv, Left, Next, Enabled;
      StepKeepsInv(s, steps[0], a, b);
      StepDescends(s, steps[0]);
      EveryRun(Next(s, steps[0]), steps[1..], t, a, b);
    }
  }

  lemma PrefixOfAll(c: Copier, e: End, all: seq<byte>)
    requires Flow(c, e, all)
    ensures c.put <= all && (c.phase == Stopped(true) ==> c.put == all)
  {
    assert c.put <= c.taken <= all;
  }

  // -- runs in which nothing goes wrong ----------------------------------------------

  /** No read fails but on a closed connection, and writes to an open one are whole. */
  predicate Undisturbed(s: State, step: Step) {
    && (step.Read? && step.end.Failed? ==> !Source(s, step.up).open)
    && (step.Write? && Sink(s, step.up).open && Loop(s, step.up).phase.Writing? ==>
          step.outcome == Outcome(|Loop(s, step.up).phase.chunk|, false))
  }

  /** What a loop reads when it gets as much as there is. */
  function Fullest(e: End, up: bool): Step {
    if e.held != [] then Read(up, if |e.held| < CHUNK then |e.held| else CHUNK, More)
    else if !e.open then Read(up, 0, Failed)
    else if |e.input| <= CHUNK then Read(up, |e.input|, AtEnd)
    else Read(up, CHUNK, More)
  }

  /** Until the event is out something can be done without anything failing on an open connection. */
  lemma SomeStepEnabled(s: State, a: seq<byte>, b: seq<byte>) returns (step: Step)
    requires Inv(s, a, b) && s.events == []
    ensures Enabled(s, step) && Undisturbed(s, step)
  {
    if s.upDone && s.downDone {
      return Publish;
    }
    var up := !s.upDone;
    match Loop(s, up).phase
    case Reading => step := Fullest(Source(s, up), up);
    case Writing(chunk, _) => step := Write(up, Outcome(|chunk|, false));
    case Stopped(_) => step := Close(up);
  }

  predicate RunsUndisturbed(s: State, steps: seq<Step>, t: State)
    decreases |steps|
  {
    if steps == [] then s == t
    else Enabled(s, steps[0]) && Undisturbed(s, steps[0]) && RunsUndisturbed(Next(s, steps[0]), steps[1..], t)
  }

  /** From every reachable state nothing but the two loops themselves is needed to get to the event. */
  lemma {:induction false} Finish(s: State, a: seq<byte>, b: seq<byte>) returns (steps: seq<Step>, t: State)
    requires Inv(s, a, b)
    ensures Runs(s, steps, t) && RunsUndisturbed(s, steps, t) && t.events != []
    decreases Left(s)
  {
    hide Inv, Left, Enabled, Undisturbed, Next;
    if s.events != [] {
      return [], s;
    }
    var step := SomeStepEnabled(s, a, b);
    StepKeepsInv(s, step, a, b);
    StepDescends(s, step);
    var more;
    more, t := Finish(Next(s, step), a, b);
    steps := [step] + more;
    assert steps[1..] == more;
  }

  /** A loop in an undisturbed run: it stops early only because its source was closed, and with nothing in hand. */
  predicate Calm(c: Copier, e: End) {
    && (c.phase.Writing? ==> !c.phase.end.Failed?)
    && (c.phase.Stopped? ==> c.put == c.taken && e.held == [] && (c.phase.clean || !e.open))
  }

  predicate AllCalm(s: State) {
    && Calm(s.up, s.conn) && Calm(s.down, s.rConn)
    && ((s.conn.open && s.rConn.open) || s.up.phase == Stopped(true) || s.down.phase == Stopped(true))
  }

  lemma StepKeepsCalm(s: State, step: Step, a: seq<byte>, b: seq<byte>)
    requires Inv(s, a, b) && AllCalm(s) && Enabled(s, step) && Undisturbed(s, step)
    ensures AllCalm(Next(s, step))
  {
    match step
    case Write(up, w) =>
      var c := Loop(s, up);
      assert c.phase.chunk[..|c.phase.chunk|] == c.phase.chunk;
    case Read(up, n, end) =>
      assert Loop(s, up).taken + [] == Loop(s, up).taken;
    case Close(up) =>
    case Publish =>
  }

  lemma {:induction false} UndisturbedRun(s: State, steps: seq<Step>, t: State, a: seq<byte>, b: seq<byte>)
    requires Inv(s, a, b) && AllCalm(s) && RunsUndisturbed(s, steps, t)
    ensures Runs(s, steps, t) && Inv(t, a, b) && AllCalm(t)
    decreases |steps|
  {
    hide Inv, AllCalm, Enabled, Undisturbed, Next;
    if steps == [] {
    } else {
      StepKeepsInv(s, steps[0], a, b);
      StepKeepsCalm(s, steps[0], a, b);
      UndisturbedRun(Next(s, steps[0]), steps[1..], t, a, b);
    }
  }

  /**
    A run in which nothing goes wrong and which cannot be continued has published
    its event; one of the two streams was delivered whole, and of the other exactly
    the bytes are missing that had not been read when its connection was closed.
   */
  lemma UndisturbedOutcome(a: End, b: End, steps: seq<Step>, t: State)
    requires a.open && b.open && RunsUndisturbed(Start(a, b), steps, t)
    requires forall step :: Enabled(t, step) ==> !Undisturbed(t, step)
    ensures t.events != []
    ensures t.up.put == All(a) || t.down.put == All(b)
    ensures t.up.put + t.conn.input == All(a) && t.down.put + t.rConn.input == All(b)
  {
    StartInv(a, b);
    UndisturbedRun(Start(a, b), steps, t, All(a), All(b));
    if t.events == [] {
      var step := SomeStepEnabled(t, All(a), All(b));
    }
    PrefixOfAll(t.up, t.conn, All(a));
    PrefixOfAll(t.down, t.rConn, All(b));
    assert t.conn.held + t.conn.input == t.conn.input && t.rConn.held + t.rConn.input == t.rConn.input;
  }

  // -- after one direction has ended ---------------------------------------------------

  lemma {:induction false} AfterClose(s: State, steps: seq<Step>, t: State, up: bool)
    requires Runs(s, steps, t) && !Source(s, up).open
    ensures Source(t, up).input == Source(s, up).input && !Source(t, up).open
    ensures Loop(t, up).taken + Source(t, up).held == Loop(s, up).taken + Source(s, up).held
    ensures Source(s, up).held == [] || Loop(s, up).phase.Stopped? ==> Loop(t, up).taken == Loop(s, up).taken
    decreases |steps|
  {
    if steps == [] {
    } else {
      StepAfterClose(s, steps[0], up);
      AfterClose(Next(s, steps[0]), steps[1..], t, up);
    }
  }

  lemma StepAfterClose(s: State, step: Step, up: bool)
    requires Enabled(s, step) && !Source(s, up).open
    ensures var t := Next(s, step);
            && Source(t, up).input == Source(s, up).input && !Source(t, up).open
            && Loop(t, up).taken + Source(t, up).held == Loop(s, up).taken + Source(s, up).held
            && (Source(s, up).held == [] ==> Source(t, up).held == [])
            && (Loop(s, up).phase.Stopped? ==> Loop(t, up).phase.Stopped?)
            && (Source(s, up).held == [] || Loop(s, up).phase.Stopped? ==> Loop(t, up).taken == Loop(s, up).taken)
  {
    if step.Read? && step.up == up {
      var c, e := Loop(s, up), Source(s, up);
      if e.held == [] {
        assert c.taken + [] == c.taken;
      } else {
        assert e.held == e.held[..step.n] + e.held[step.n..];
      }
    }
  }

  /**
    Once the other direction has ended, a loop gets no more of what the peer sends,
    and at most what is held on our side; it gets nothing at all exactly when nothing
    is held or it has stopped.
   */
  lemma NothingAfterClose(s: State, up: bool, a: seq<byte>, b: seq<byte>)
    requires Inv(s, a, b) && !Source(s, up).open
    ensures (forall t :: Reaches(s, t) ==> Loop(t, up).taken == Loop(s, up).taken)
            <==> Source(s, up).held == [] || Loop(s, up).phase.Stopped?
    ensures forall t :: Reaches(s, t) ==>
              && Source(t, up).input == Source(s, up).input
              && Loop(t, up).taken + Source(t, up).held == Loop(s, up).taken + Source(s, up).held
  {
    forall t | Reaches(s, t)
      ensures Source(t, up).input == Source(s, up).input
      ensures Loop(t, up).taken + Source(t, up).held == Loop(s, up).taken + Source(s, up).held
      ensures Source(s, up).held == [] || Loop(s, up).phase.Stopped? ==> Loop(t, up).taken == Loop(s, up).taken
    {
      var steps :| Runs(s, steps, t);
      AfterClose(s, steps, t, up);
    }
    if Source(s, up).held != [] && !Loop(s, up).phase.Stopped? {
      var steps, t := HeldIsTaken(s, up, a, b);
      assert Reaches(s, t);
    }
  }

  lemma HeldIsTaken(s: State, up: bool, a: seq<byte>, b: seq<byte>) returns (steps: seq<Step>, t: State)
    requires Inv(s, a, b) && Source(s, up).held != [] && !Loop(s, up).phase.Stopped?
    ensures Runs(s, steps, t) && Loop(t, up).taken != Loop(s, up).taken
  {
    var read := Fullest(Source(s, up), up);
    if Loop(s, up).phase.Reading? {
      t := Next(s, read);
      RunsOne(s, read);
      steps := [read];
    } else {
      var write := Write(up, Outcome(|Loop(s, up).phase.chunk|, false));
      var u := Next(s, write);
      t := Next(u, read);
      RunsOne(u, read);
      steps := [write, read];
      assert steps[1..] == [read];
    }
  }

  lemma RunsOne(s: State, step: Step)
    requires Enabled(s, step)
    ensures Runs(s, [step], Next(s, step))
  {
    assert [step][1..] == [];
  }

  // -- what the event counts -------------------------------------------------------------

  /** Counts are exact until a write fails that claims more than went out. */
  predicate Counted(s: State, up: bool) {
    var c, n := Loop(s, up), Count(s, up);
    && |c.put| <= n <= |c.taken|
    && (!c.phase.Stopped? || !Sink(s, up).claims ==> n == |c.put|)
  }

  /** The step is a failing write that claims bytes that did not go out. */
  predicate CutShort(s: State, step: Step, up: bool) {
    && step.Write? && step.up == up && Loop(s, up).phase.Writing? && Sink(s, up).claims
    && step.outcome.failed && step.outcome.put < |Loop(s, up).phase.chunk|
  }

  lemma StepCounts(s: State, step: Step, up: bool)
    requires Enabled(s, step) && Counted(s, up) && InOrder(Loop(s, up))
    ensures Counted(Next(s, step), up) && InOrder(Loop(Next(s, step), up))
            && Sink(Next(s, step), up).claims == Sink(s, up).claims
    ensures Count(Next(s, step), up) == |Loop(Next(s, step), up).put| <==>
            Count(s, up) == |Loop(s, up).put| && !CutShort(s, step, up)
  {
    if step.Read? && step.up == up {
      ReadKeepsOrder(Loop(s, up), Front(Source(s, up), step.n), step.end);
    } else if step.Write? && step.up == up {
      WriteKeepsOrder(Loop(s, up), step.outcome);
    }
  }

  /** Somewhere along the run a failing write was cut short that claims all its bytes. */
  predicate SomeCutShort(s: State, steps: seq<Step>, up: bool)
    decreases |steps|
  {
    steps != [] && Enabled(s, steps[0])
        && (CutShort(s, steps[0], up) || SomeCutShort(Next(s, steps[0]), steps[1..], up))
  }

  lemma {:induction false} RunCounts(s: State, steps: seq<Step>, t: State, up: bool)
    requires Runs(s, steps, t) && Counted(s, up) && InOrder(Loop(s, up))
    ensures Counted(t, up) && InOrder(Loop(t, up)) && Sink(t, up).claims == Sink(s, up).claims
    ensures Count(t, up) == |Loop(t, up).put| <==> Count(s, up) == |Loop(s, up).put| && !SomeCutShort(s, steps, up)
    decreases |steps|
  {
    if steps == [] {
    } else {
      hide Counted, InOrder, CutShort, Next, Enabled;
      StepCounts(s, steps[0], up);
      RunCounts(Next(s, steps[0]), steps[1..], t, up);
    }
  }

  predicate Exact(s: State) {
    s.events == [Traffic(|s.up.put|, |s.down.put|)]
  }

  /** The event of a run is exact exactly when no failing write was cut short on a connection that claims all bytes. */
  lemma EventOfRun(a: End, b: End, steps: seq<Step>, t: State)
    requires a.open && b.open && Runs(Start(a, b), steps, t) && t.events != []
    ensures Exact(t) <==> !SomeCutShort(Start(a, b), steps, true) && !SomeCutShort(Start(a, b), steps, false)
  {
    hide Runs, SomeCutShort;
    StartInv(a, b);
    EveryRun(Start(a, b), steps, t, All(a), All(b));
    RunCounts(Start(a, b), steps, t, true);
    RunCounts(Start(a, b), steps, t, false);
  }

  /** The connection reports what it wrote, or nothing is ever written to it. */
  predicate Honest(sink: End, source: End) {
    !sink.claims || All(source) == []
  }

  /**
    The event counts the bytes delivered each way in every run exactly when each
    connection reports what it wrote also when a write fails, or gets nothing to write.
   */
  lemma EventExact(a: End, b: End)
    requires a.open && b.open
    ensures (forall t :: Reaches(Start(a, b), t) && t.events != [] ==> Exact(t)) <==> Honest(b, a) && Honest(a, b)
  {
    StartInv(a, b);
    if Honest(b, a) && Honest(a, b) {
      forall t | Reaches(Start(a, b), t) && t.events != []
        ensures Exact(t)
      {
        HonestEvent(a, b, t);
      }
    } else {
      var t := Inflated(a, b, !Honest(b, a));
      assert Reaches(Start(a, b), t) && t.events != [] && !Exact(t);
    }
  }

  lemma HonestEvent(a: End, b: End, t: State)
    requires a.open && b.open && Honest(b, a) && Honest(a, b) && Reaches(Start(a, b), t) && t.events != []
    ensures Exact(t)
  {
    var steps :| Runs(Start(a, b), steps, t);
    hide Runs;
    StartInv(a, b);
    EveryRun(Start(a, b), steps, t, All(a), All(b));
    RunCounts(Start(a, b), steps, t, true);
    RunCounts(Start(a, b), steps, t, false);
  }

  /** A run whose event is too large: the first write fails with nothing sent, and claims its bytes. */
  lemma Inflated(a: End, b: End, up: bool) returns (t: State)
    requires a.open && b.open
    requires var sink, source := if up then b else a, if up then a else b; sink.claims && All(source) != []
    ensures Reaches(Start(a, b), t) && t.events != [] && !Exact(t)
  {
    var s := Start(a, b);
    StartInv(a, b);
    var read := Fullest(Source(s, up), up);
    var write := Write(up, Outcome(0, true));
    var s1 := Next(s, read);
    StepKeepsInv(s, read, All(a), All(b));
    var s2 := Next(s1, write);
    StepKeepsInv(s1, write, All(a), All(b));
    var more;
    more, t := Finish(s2, All(a), All(b));
    var steps := [read, write] + more;
    assert steps[1..] == [write] + more && steps[1..][1..] == more;
    hide Inv, Fullest;
    assert CutShort(s1, write, up) && SomeCutShort(s1, [write] + more, up);
    assert SomeCutShort(s, steps, up);
    EventOfRun(a, b, steps, t);
  }
}
