/**
  How a session goes on and ends: every run is bounded, nothing stands in the way of
  delivery, and what happens when one of the two peers ends its stream first. The
  client and the server each close what they hold when the first of their two loops
  ends; but the client never ends its half of the message stream.
 */
module TunnelEnd {
  import opened Common
  import opened Relay
  import opened StreamConn
  import opened Tunnel

  // -- every run ends ----------------------------------------------------------------

  function Rank(c: Copier): nat {
    if c.phase.Writing? then 3 else if c.phase.Reading? then 2 else 1
  }

  /** How far the bytes of one direction still have to go. */
  function Weigh(unread: seq<byte>, c: Copier, between: seq<byte>, d: Copier): nat {
    6 * |unread| + 4 * |Pending(c)| + Rank(c) + 4 * |between| + 2 * |Pending(d)| + Rank(d)
  }

  function Left(s: State): nat {
    (if s.announced then 0 else 1) + (if s.dialed then 0 else 1) + (if s.replied then 0 else 1)
    + (if s.appOpen then 1 else 0) + (if s.serverOpen then 1 else 0)
    + Weigh(s.app, s.clientUp, Concat(s.up), s.serverUp)
    + Weigh(s.target, s.serverDown, DownBytes(s), s.clientDown)
  }

  lemma ReadFirstLighter(unread: seq<byte>, c: Copier, between: seq<byte>, d: Copier, n: nat, end: ReadEnd)
    requires c.phase.Reading? && n <= |unread| && (n > 0 || !end.More?)
    ensures Weigh(unread[n..], AfterRead(c, unread[..n], end), between, d) < Weigh(unread, c, between, d)
  {
  }

  lemma ReadSecondLighter(unread: seq<byte>, c: Copier, between: seq<byte>, d: Copier, n: nat, end: ReadEnd)
    requires d.phase.Reading? && n <= |between| && (n > 0 || !end.More?)
    ensures Weigh(unread, c, between[n..], AfterRead(d, between[..n], end)) < Weigh(unread, c, between, d)
  {
  }

  lemma WriteFirstLighter(unread: seq<byte>, c: Copier, between: seq<byte>, d: Copier, w: Outcome)
    requires c.phase.Writing? && Possible(w, c.phase.chunk)
    ensures Weigh(unread, AfterWrite(c, w), between + c.phase.chunk[..w.put], d) < Weigh(unread, c, between, d)
  {
  }

  lemma WriteSecondLighter(unread: seq<byte>, c: Copier, between: seq<byte>, d: Copier, w: Outcome)
    requires d.phase.Writing? && Possible(w, d.phase.chunk)
    ensures Weigh(unread, c, between, AfterWrite(d, w)) < Weigh(unread, c, between, d)
  {
  }

  lemma UpDescends(x: Session, s: State, step: Step)
    requires Enabled(s, step) && (step.Read? || step.Write?) && (step.hop.ClientUp? || step.hop.ServerUp?)
    ensures Left(Next(x, s, step)) < Left(s)
  {
    hide Concat, AfterRead, AfterWrite, Weigh;
    if step.Read? {
      if step.hop.ClientUp? {
        ReadFirstLighter(s.app, s.clientUp, Concat(s.up), s.serverUp, step.n, step.end);
      } else {
        ReadSecondLighter(s.app, s.clientUp, Concat(s.up), s.serverUp, step.n, step.end);
      }
    } else if step.hop.ClientUp? {
      ConcatAppend(s.up, step.messages);
      WriteFirstLighter(s.app, s.clientUp, Concat(s.up), s.serverUp, step.outcome);
    } else {
      WriteSecondLighter(s.app, s.clientUp, Concat(s.up), s.serverUp, step.outcome);
    }
  }

  lemma DownDescends(x: Session, s: State, step: Step)
    requires Order(x, s) && Enabled(s, step) && (step.Read? || step.Write?)
             && (step.hop.ServerDown? || step.hop.ClientDown?)
    ensures Left(Next(x, s, step)) < Left(s)
  {
    hide Concat, AfterRead, AfterWrite, Weigh;
    if step.Read? {
      if step.hop.ServerDown? {
        ReadFirstLighter(s.target, s.serverDown, DownBytes(s), s.clientDown, step.n, step.end);
      } else {
        ReadSecondLighter(s.target, s.serverDown, DownBytes(s), s.clientDown, step.n, step.end);
      }
    } else if step.hop.ServerDown? {
      DownAppend(s, step.messages);
      WriteFirstLighter(s.target, s.serverDown, DownBytes(s), s.clientDown, step.outcome);
    } else {
      WriteSecondLighter(s.target, s.serverDown, DownBytes(s), s.clientDown, step.outcome);
    }
  }

  lemma StepDescends(x: Session, s: State, step: Step)
    requires Inv(x, s) && Enabled(s, step)
    ensures Left(Next(x, s, step)) < Left(s)
  {
    hide Chain, Concat, AfterRead, AfterWrite, Weigh;
    if step.Read? || step.Write? {
      if step.hop.ClientUp? || step.hop.ServerUp? {
        UpDescends(x, s, step);
      } else {
        DownDescends(x, s, step);
      }
    } else if step.Announce? {
      ConcatCons([], []);
      assert [x.address][1..] == [];
    }
  }

  /** No run is longer than a bound known from the streams, whatever fails. */
  lemma {:induction false} RunBounded(x: Session, s: State, steps: seq<Step>, t: State)
    requires Inv(x, s) && Runs(x, s, steps, t)
    ensures |steps| + Left(t) <= Left(s) && Inv(x, t)
    decreases |steps|
  {
    hide Inv, Next, Enabled, Left;
    if steps == [] {
    } else {
      StepKeepsInv(x, s, steps[0]);
      StepDescends(x, s, steps[0]);
      RunBounded(x, Next(x, s, steps[0]), steps[1..], t);
    }
  }

  // -- runs in which nothing goes wrong ---------------------------------------------------

  /** Reads fail only where we have closed, and writes are whole but there. */
  predicate Undisturbed(s: State, step: Step) {
    && (step.Read? && step.end.Failed? ==> !Readable(s, step.hop))
    && (step.Write? && Writable(s, step.hop) && Loop(s, step.hop).phase.Writing? ==>
          step.outcome == Outcome(|Loop(s, step.hop).phase.chunk|, false))
  }

  /** What a loop does next when nothing goes wrong; `end` is what a read that gets everything reports. */
  function Forward(s: State, h: Hop, end: ReadEnd): Step {
    var c, source := Loop(s, h), Source(s, h);
    if c.phase.Writing? then
      if Writable(s, h) then Write(h, Outcome(|c.phase.chunk|, false), [c.phase.chunk])
          else Write(h, Outcome(0, true), [])
    else if !Readable(s, h) then Read(h, 0, Failed, [source])
    else if |source| <= CHUNK then Read(h, |source|, end, [])
    else Read(h, CHUNK, More, [source[CHUNK..]])
  }

  /** The loop can go on by itself. */
  predicate Able(s: State, h: Hop) {
    Running(s, h) && (Loop(s, h).phase.Writing?
        || (Loop(s, h).phase.Reading? && (!Readable(s, h) || Source(s, h) != [] || Ends(s, h))))
  }

  function AtLast(s: State, h: Hop): ReadEnd {
    if Ends(s, h) then AtEnd else More
  }

  lemma ForwardEnabled(s: State, h: Hop, end: ReadEnd)
    requires Able(s, h) && (end == AtLast(s, h) || (end.More? && (Loop(s, h).phase.Writing? || Source(s, h) != [])))
    ensures Enabled(s, Forward(s, h, end)) && Undisturbed(s, Forward(s, h, end))
  {
    hide Concat;
    var c, source := Loop(s, h), Source(s, h);
    ConcatCons([], []);
    if c.phase.Writing? {
      ConcatCons(c.phase.chunk, []);
      assert c.phase.chunk[..|c.phase.chunk|] == c.phase.chunk && c.phase.chunk[..0] == [];
    } else if !Readable(s, h) {
      ConcatCons(source, []);
      assert source[0..] == source;
    } else if |source| > CHUNK {
      ConcatCons(source[CHUNK..], []);
    }
  }

  lemma ReadPhase(c: Copier, chunk: seq<byte>, end: ReadEnd)
    ensures var d := AfterRead(c, chunk, end);
            d.phase == if chunk != [] then Writing(chunk, end) else if end.More? then Reading else Stopped(end.AtEnd?)
  {
  }

  lemma WholeWrite(c: Copier)
    requires c.phase.Writing?
    ensures AfterWrite(c, Outcome(|c.phase.chunk|, false)).phase == if c.phase.end.More? then Reading
            else Stopped(c.phase.end.AtEnd?)
  {
  }

  lemma FailedWrite(c: Copier)
    requires c.phase.Writing? && InOrder(c)
    ensures var d := AfterWrite(c, Outcome(0, true)); d.phase == Stopped(false) && |d.put| < |d.taken|
  {
  }

  // -- nothing stands in the way -------------------------------------------------------------

  predicate Healthy(c: Copier) {
    c.phase.Reading? || (c.phase.Writing? && c.phase.end.More?)
  }

  predicate AllHealthy(s: State) {
    Healthy(s.clientUp) && Healthy(s.serverUp) && Healthy(s.serverDown) && Healthy(s.clientDown)
  }

  predicate Delivered(x: Session, s: State) {
    s.serverUp.put == x.payload && s.toApp == GREETED + x.reply + x.sent
  }

  predicate Busy(s: State, h: Hop) {
    Loop(s, h).phase.Writing? || Source(s, h) != []
  }

  lemma HealthyOpen(x: Session, s: State)
    requires Inv(x, s) && AllHealthy(s)
    ensures s.appOpen && s.serverOpen
  {
  }

  lemma ForwardHealthy(x: Session, s: State, h: Hop)
    requires Inv(x, s) && s.replied && AllHealthy(s) && Busy(s, h)
    ensures Enabled(s, Forward(s, h, More)) && AllHealthy(Next(x, s, Forward(s, h, More)))
  {
    hide Concat, Chain, AfterRead, AfterWrite, Enabled;
    HealthyOpen(x, s);
    ForwardEnabled(s, h, More);
    var c, source := Loop(s, h), Source(s, h);
    if c.phase.Writing? {
      WholeWrite(c);
    } else {
      ReadPhase(c, source[..if |source| <= CHUNK then |source| else CHUNK], More);
    }
  }

  lemma NoneBusy(x: Session, s: State)
    requires Inv(x, s) && s.replied && AllHealthy(s) && forall h :: !Busy(s, h)
    ensures Delivered(x, s)
  {
    assert !Busy(s, ClientUp) && !Busy(s, ServerUp) && !Busy(s, ServerDown) && !Busy(s, ClientDown);
    ChainPrefix(x.payload, s.app, s.clientUp, Concat(s.up), s.serverUp);
    ChainPrefix(x.sent, s.target, s.serverDown, DownBytes(s), s.clientDown);
  }

  lemma ControlStep(x: Session, s: State) returns (step: Step)
    requires Inv(x, s) && !s.replied
    ensures Enabled(s, step) && Undisturbed(s, step) && (AllHealthy(s) ==> AllHealthy(Next(x, s, step)))
  {
    step := if !s.announced then Announce else if !s.dialed then Dial else Reply;
  }

  /**
    From every reachable state in which no loop has ended or met an error, the session
    can still be completed: everything either side sends gets to the other, so no
    state of the four loops and two queues is a dead end.
   */
  lemma {:induction false} CanDeliver(x: Session, s: State) returns (steps: seq<Step>, t: State)
    requires Inv(x, s) && AllHealthy(s)
    ensures Runs(x, s, steps, t) && Delivered(x, t)
    decreases Left(s)
  {
    hide Inv, AllHealthy, Left, Delivered, Enabled, Next, Busy, Forward, Undisturbed;
    var step;
    if !s.replied {
      step := ControlStep(x, s);
    } else if h :| Busy(s, h) {
      ForwardHealthy(x, s, h);
      step := Forward(s, h, More);
    } else {
      NoneBusy(x, s);
      return [], s;
    }
    StepKeepsInv(x, s, step);
    StepDescends(x, s, step);
    var more;
    more, t := CanDeliver(x, Next(x, s, step));
    steps := [step] + more;
    assert steps[1..] == more;
  }

  // -- how a session ends -----------------------------------------------------------------------

  /** The bytes a loop has not read yet. */
  function Unread(s: State, h: Hop): seq<byte> {
    match h
    case ClientUp => s.app
    case ServerUp => Concat(s.up)
    case ServerDown => s.target
    case ClientDown => DownBytes(s)
  }

  predicate Ended(s: State, h: Hop) {
    Ends(s, h) && Unread(s, h) == []
  }

  /** Why a loop has stopped, when nothing went wrong. */
  predicate Cause(s: State, h: Hop) {
    var c := Loop(s, h);
    && (c.phase.Writing? ==> !c.phase.end.Failed? && (c.phase.end.AtEnd? ==> Ended(s, h)))
    && (c.phase == Stopped(true) ==> Ended(s, h))
    && (c.phase == Stopped(false) ==> !Readable(s, h) || !Writable(s, h))
    && (c.phase == Stopped(false) && h.ClientDown? ==> |c.put| < |c.taken|)
  }

  /** The server ends by the target alone; the client by the application or by the server. */
  predicate Roots(s: State) {
    && (!s.serverOpen ==> s.serverDown.phase == Stopped(true))
    && (!s.appOpen ==> s.clientUp.phase == Stopped(true) || !s.serverOpen)
  }

  predicate Causes(s: State) {
    Roots(s) && Cause(s, ClientUp) && Cause(s, ServerUp) && Cause(s, ServerDown) && Cause(s, ClientDown)
  }

  lemma ReadCause(x: Session, s: State, step: Step)
    requires step.Read? && Inv(x, s) && Cause(s, step.hop) && Enabled(s, step) && Undisturbed(s, step)
    ensures Cause(Next(x, s, step), step.hop)
  {
    hide Concat, AfterRead, Chain;
    ReadPhase(Loop(s, step.hop), Source(s, step.hop)[..step.n], step.end);
  }

  /** What a write leaves as it is, and what it makes of its loop. */
  lemma WriteFrame(x: Session, s: State, step: Step)
    requires step.Write? && Order(x, s) && Enabled(s, step) && Roots(s)
    ensures var t, h := Next(x, s, step), step.hop;
            && Loop(t, h) == AfterWrite(Loop(s, h), step.outcome)
            && Readable(t, h) == Readable(s, h) && Writable(t, h) == Writable(s, h) && (Ended(t, h) <==> Ended(s, h))
  {
    hide Concat, AfterWrite;
  }

  lemma WriteCause(x: Session, s: State, step: Step)
    requires step.Write? && Inv(x, s) && Cause(s, step.hop) && Enabled(s, step) && Undisturbed(s, step) && Roots(s)
    ensures Cause(Next(x, s, step), step.hop)
  {
    hide AfterWrite, Inv, InOrder, Next, Ended, Readable, Writable, Roots;
    var h := step.hop;
    LoopInOrder(x, s, h);
    InvOrder(x, s);
    WriteFrame(x, s, step);
    if Writable(s, h) {
      WholeWrite(Loop(s, h));
    } else {
      assert step.outcome == Outcome(0, true);
      FailedWrite(Loop(s, h));
    }
  }

  lemma InvOrder(x: Session, s: State)
    requires Inv(x, s)
    ensures Order(x, s)
  {
  }

  lemma LoopInOrder(x: Session, s: State, h: Hop)
    requires Inv(x, s)
    ensures InOrder(Loop(s, h))
  {
  }

  /** A step of one loop gives no other loop a reason to have stopped otherwise. */
  lemma OtherCause(x: Session, s: State, step: Step, h: Hop)
    requires Inv(x, s) && Causes(s) && Enabled(s, step) && (step.Read? || step.Write?) && h != step.hop
    ensures Cause(Next(x, s, step), h)
  {
    hide Concat, Chain, AfterRead, AfterWrite;
  }

  lemma ControlCause(x: Session, s: State, step: Step, h: Hop)
    requires Inv(x, s) && Causes(s) && Enabled(s, step) && !step.Read? && !step.Write?
    ensures Cause(Next(x, s, step), h)
  {
    hide Chain;
    ConcatCons([], []);
    assert [x.address][1..] == [];
  }

  lemma StepRoots(x: Session, s: State, step: Step)
    requires Inv(x, s) && Causes(s) && Enabled(s, step)
    ensures Roots(Next(x, s, step))
  {
    hide Chain, Concat, AfterRead, AfterWrite;
  }

  lemma StepKeepsCauses(x: Session, s: State, step: Step)
    requires Inv(x, s) && Causes(s) && Enabled(s, step) && Undisturbed(s, step)
    ensures Causes(Next(x, s, step))
  {
    hide Inv, Cause, Roots, Enabled, Undisturbed, Next;
    StepRoots(x, s, step);
    forall h: Hop
      ensures Cause(Next(x, s, step), h)
    {
      if step.Read? && h == step.hop {
        ReadCause(x, s, step);
      } else if step.Write? && h == step.hop {
        WriteCause(x, s, step);
      } else if step.Read? || step.Write? {
        OtherCause(x, s, step, h);
      } else {
        ControlCause(x, s, step, h);
      }
    }
  }

  predicate RunsUndisturbed(x: Session, s: State, steps: seq<Step>, t: State)
    decreases |steps|
  {
    if steps == [] then s == t
    else Enabled(s, steps[0]) && Undisturbed(s, steps[0]) && RunsUndisturbed(x, Next(x, s, steps[0]), steps[1..], t)
  }

  lemma {:induction false} UndisturbedRun(x: Session, s: State, steps: seq<Step>, t: State)
    requires Inv(x, s) && Causes(s) && RunsUndisturbed(x, s, steps, t)
    ensures Runs(x, s, steps, t) && Inv(x, t) && Causes(t)
    decreases |steps|
  {
    hide Inv, Causes, Enabled, Undisturbed, Next;
    if steps == [] {
    } else {
      StepKeepsInv(x, s, steps[0]);
      StepKeepsCauses(x, s, steps[0]);
      UndisturbedRun(x, Next(x, s, steps[0]), steps[1..], t);
    }
  }

  lemma StartCauses(x: Session)
    ensures Causes(Start(x))
  {
  }

  /** Nothing more can happen unless something fails or a peer sends more. */
  ghost predicate Quiet(s: State) {
    forall step :: Enabled(s, step) ==> !Undisturbed(s, step)
  }

  lemma QuietFacts(x: Session, s: State)
    requires Inv(x, s) && Quiet(s)
    ensures s.announced && s.dialed && s.replied && forall h :: !Able(s, h)
    ensures s.appOpen ==> !s.clientUp.phase.Stopped? && !s.clientDown.phase.Stopped?
    ensures s.serverOpen ==> !s.serverUp.phase.Stopped? && !s.serverDown.phase.Stopped?
  {
    hide Able, Forward, AtLast, Chain;
    if !s.replied {
      var step := ControlStep(x, s);
    }
    forall h
      ensures !Able(s, h)
    {
      if Able(s, h) {
        ForwardEnabled(s, h, AtLast(s, h));
      }
    }
    assert Enabled(s, ClientReturn) ==> !Undisturbed(s, ClientReturn);
    assert Enabled(s, ServerReturn) ==> !Undisturbed(s, ServerReturn);
  }

  /**
    An undisturbed session that has come to rest is over on both sides exactly when
    the target ends its stream; an application that ends its own does not end the
    session on the server, since the client never tells it.
   */
  lemma SessionEnds(x: Session, steps: seq<Step>, t: State)
    requires RunsUndisturbed(x, Start(x), steps, t) && Quiet(t)
    ensures !t.serverOpen <==> x.targetEnds
    ensures x.targetEnds ==> !t.appOpen && t.clientUp.phase.Stopped? && t.serverUp.phase.Stopped?
                             && t.serverDown.phase.Stopped? && t.clientDown.phase.Stopped?
    ensures !t.appOpen <==> x.appEnds || x.targetEnds
  {
    StartInv(x);
    StartCauses(x);
    UndisturbedRun(x, Start(x), steps, t);
    QuietFacts(x, t);
    hide Chain, Concat, Quiet;
    assert !Able(t, ClientUp) && !Able(t, ServerUp) && !Able(t, ServerDown) && !Able(t, ClientDown);
  }

  /** While the target stays, everything the application sends arrives, also after it has ended its stream. */
  lemma UploadArrives(x: Session, steps: seq<Step>, t: State)
    requires RunsUndisturbed(x, Start(x), steps, t) && Quiet(t) && !x.targetEnds
    ensures t.serverUp.put == x.payload
  {
    SessionEnds(x, steps, t);
    StartInv(x);
    StartCauses(x);
    UndisturbedRun(x, Start(x), steps, t);
    QuietFacts(x, t);
    hide Concat, Quiet, RunsUndisturbed;
    assert !Able(t, ClientUp) && !Able(t, ServerUp);
  }

  /** What a session at rest has brought the application, by how the loop ended that brought it. */
  lemma DownloadByLoop(x: Session, steps: seq<Step>, t: State)
    requires RunsUndisturbed(x, Start(x), steps, t) && Quiet(t)
    ensures t.toApp == GREETED + x.reply + x.sent <==> t.clientDown.phase != Stopped(false)
    ensures !x.appEnds && !x.targetEnds ==> t.toApp == GREETED + x.reply + x.sent
    ensures t.replied && t.toApp == GREETED + x.reply + t.clientDown.put && t.clientDown.put <= x.sent
  {
    SessionEnds(x, steps, t);
    StartInv(x);
    StartCauses(x);
    UndisturbedRun(x, Start(x), steps, t);
    QuietFacts(x, t);
    hide Concat, Quiet, RunsUndisturbed;
    assert !Able(t, ServerDown) && !Able(t, ClientDown);
    ChainPrefix(x.sent, t.target, t.serverDown, DownBytes(t), t.clientDown);
  }

  /** Once the client has closed the application's connection it gets nothing more. */
  lemma {:induction false} NothingAfterReturn(x: Session, s: State, steps: seq<Step>, t: State)
    requires Runs(x, s, steps, t) && !s.appOpen && s.replied
    ensures t.toApp == s.toApp && !t.appOpen
    decreases |steps|
  {
    if steps == [] {
    } else {
      StepAfterReturn(x, s, steps[0]);
      NothingAfterReturn(x, Next(x, s, steps[0]), steps[1..], t);
    }
  }

  lemma NothingPut(c: Copier, w: Outcome)
    requires c.phase.Writing? && w.put == 0
    ensures AfterWrite(c, w).put == c.put && c.phase.chunk[..0] == []
  {
  }

  lemma StepAfterReturn(x: Session, s: State, step: Step)
    requires Enabled(s, step) && !s.appOpen && s.replied
    ensures Next(x, s, step).toApp == s.toApp && !Next(x, s, step).appOpen && Next(x, s, step).replied
  {
    hide Concat, AfterRead, AfterWrite;
    if step.Write? && step.hop.ClientDown? {
      NothingPut(s.clientDown, step.outcome);
      assert s.toApp + [] == s.toApp;
    }
  }
}
