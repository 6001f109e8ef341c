/**
  Which sessions deliver everything: the exact conditions on the two streams and on
  which peer ends its own, for each direction, when nothing goes wrong.
 */
module TunnelAnswer {
  import opened Relay
  import opened StreamConn
  import opened Tunnel
  import opened TunnelEnd

  // -- undisturbed runs -------------------------------------------------------------

  ghost predicate Leads(x: Session, s: State, t: State) {
    exists steps :: RunsUndisturbed(x, s, steps, t)
  }

  /** The session can come to rest like this. */
  ghost predicate Rests(x: Session, t: State) {
    Leads(x, Start(x), t) && Quiet(t)
  }

  lemma LeadsNowhere(x: Session, s: State)
    ensures Leads(x, s, s)
  {
    assert RunsUndisturbed(x, s, [], s);
  }

  lemma LeadsFirst(x: Session, s: State, step: Step, t: State)
    requires Enabled(s, step) && Undisturbed(s, step) && Leads(x, Next(x, s, step), t)
    ensures Leads(x, s, t)
  {
    var more :| RunsUndisturbed(x, Next(x, s, step), more, t);
    assert ([step] + more)[1..] == more;
    assert RunsUndisturbed(x, s, [step] + more, t);
  }

  lemma {:induction false} RunThen(x: Session, s: State, p: seq<Step>, t: State, u: State)
    requires RunsUndisturbed(x, s, p, t) && Leads(x, t, u)
    ensures Leads(x, s, u)
    decreases |p|
  {
    hide Leads, Enabled, Undisturbed, Next;
    if p == [] {
    } else {
      RunThen(x, Next(x, s, p[0]), p[1..], t, u);
      LeadsFirst(x, s, p[0], u);
    }
  }

  lemma LeadsThen(x: Session, s: State, t: State, u: State)
    requires Leads(x, s, t) && Leads(x, t, u)
    ensures Leads(x, s, u)
  {
    var p :| RunsUndisturbed(x, s, p, t);
    RunThen(x, s, p, t, u);
  }

  lemma LeadsOne(x: Session, s: State, step: Step)
    requires Enabled(s, step) && Undisturbed(s, step)
    ensures Leads(x, s, Next(x, s, step))
  {
    LeadsNowhere(x, Next(x, s, step));
    LeadsFirst(x, s, step, Next(x, s, step));
  }

  lemma LeadsKeeps(x: Session, s: State, t: State)
    requires Inv(x, s) && Causes(s) && Leads(x, s, t)
    ensures Inv(x, t) && Causes(t) && exists steps :: Runs(x, s, steps, t)
  {
    hide Inv, Causes;
    var steps :| RunsUndisturbed(x, s, steps, t);
    UndisturbedRun(x, s, steps, t);
  }

  /** Every undisturbed run can be continued until the session is at rest. */
  lemma {:induction false} Settle(x: Session, s: State) returns (t: State)
    requires Inv(x, s) && Causes(s)
    ensures Leads(x, s, t) && Quiet(t)
    decreases Left(s)
  {
    hide Inv, Causes, Left, Leads, Enabled, Undisturbed, Next;
    if Quiet(s) {
      LeadsNowhere(x, s);
      return s;
    }
    var step :| Enabled(s, step) && Undisturbed(s, step);
    StepKeepsInv(x, s, step);
    StepKeepsCauses(x, s, step);
    StepDescends(x, s, step);
    t := Settle(x, Next(x, s, step));
    LeadsFirst(x, s, step, t);
  }

  // -- the beginning of a session -------------------------------------------------------

  /** The application has its reply, and no loop has done anything. */
  function Opened(x: Session): State {
    Start(x).(announced := true, dialed := true, replied := true, toApp := GREETED + x.reply)
  }

  lemma Opens(x: Session)
    ensures Leads(x, Start(x), Opened(x)) && Inv(x, Opened(x)) && Causes(Opened(x))
  {
    hide Leads;
    var s0 := Start(x);
    var s1 := Next(x, s0, Announce);
    var s2 := Next(x, s1, Dial);
    assert Next(x, s2, Reply) == Opened(x);
    LeadsOne(x, s2, Reply);
    LeadsFirst(x, s1, Dial, Opened(x));
    LeadsFirst(x, s0, Announce, Opened(x));
    StartInv(x);
    StartCauses(x);
    LeadsKeeps(x, s0, Opened(x));
  }

  // -- one loop runs to its end ------------------------------------------------------------

  /** Nothing but one loop, what it reads and the queue it fills has changed. */
  ghost predicate OnlyLoop(s: State, t: State, h: Hop) {
    && t.replied == s.replied && t.announced == s.announced && t.appOpen == s.appOpen && t.serverOpen == s.serverOpen
    && t.appEnds == s.appEnds && t.targetEnds == s.targetEnds && t.toApp == s.toApp
    && forall k: Hop :: k != h ==> Loop(t, k) == Loop(s, k)
  }

  lemma OneForward(x: Session, s: State, h: Hop)
    requires Inv(x, s) && Causes(s) && s.replied && s.appOpen && s.serverOpen
    requires (h.ClientUp? || h.ServerDown?) && Ends(s, h) && !Loop(s, h).phase.Stopped?
    ensures Enabled(s, Forward(s, h, AtLast(s, h))) && Undisturbed(s, Forward(s, h, AtLast(s, h)))
    ensures OnlyLoop(s, Next(x, s, Forward(s, h, AtLast(s, h))), h)
  {
    hide Concat, Chain, AfterRead, AfterWrite, Enabled, Undisturbed;
    ForwardEnabled(s, h, AtLast(s, h));
  }

  /** A loop whose source has an end, and that nothing has been closed to, gets there. */
  lemma {:induction false} Drain(x: Session, s: State, h: Hop) returns (t: State)
    requires Inv(x, s) && Causes(s) && s.replied && s.appOpen && s.serverOpen
    requires (h.ClientUp? || h.ServerDown?) && Ends(s, h) && !Loop(s, h).phase.Stopped?
    ensures Leads(x, s, t) && Inv(x, t) && Causes(t) && OnlyLoop(s, t, h) && Loop(t, h).phase == Stopped(true)
    decreases Left(s)
  {
    hide Inv, Left, Leads, Enabled, Undisturbed, Next, Forward;
    var step := Forward(s, h, AtLast(s, h));
    OneForward(x, s, h);
    StepKeepsInv(x, s, step);
    StepKeepsCauses(x, s, step);
    StepDescends(x, s, step);
    var u := Next(x, s, step);
    if Loop(u, h).phase.Stopped? {
      t := u;
      LeadsOne(x, s, step);
    } else {
      t := Drain(x, u, h);
      LeadsFirst(x, s, step, t);
    }
  }

  // -- the answer -------------------------------------------------------------------------------

  predicate Answered(x: Session, t: State) {
    t.toApp == GREETED + x.reply + x.sent
  }

  /** The client returns, and what comes after brings the application nothing. */
  lemma ReturnLoses(x: Session, s: State) returns (t: State)
    requires Inv(x, s) && Causes(s) && s.replied && Enabled(s, ClientReturn)
    ensures Leads(x, s, t) && Quiet(t) && t.toApp == s.toApp
  {
    hide Inv, Causes, Leads, RunsUndisturbed;
    var u := Next(x, s, ClientReturn);
    StepKeepsInv(x, s, ClientReturn);
    StepKeepsCauses(x, s, ClientReturn);
    t := Settle(x, u);
    LeadsKeeps(x, u, t);
    var steps :| Runs(x, u, steps, t);
    NothingAfterReturn(x, u, steps, t);
    LeadsFirst(x, s, ClientReturn, t);
  }

  /** An application that ends its stream may get nothing at all of the answer, whatever was sent either way. */
  lemma EndingFirstLosesAnswer(x: Session) returns (t: State)
    requires x.appEnds
    ensures Rests(x, t) && t.toApp == GREETED + x.reply
  {
    hide Inv, Causes, Leads, Quiet;
    Opens(x);
    var s := Drain(x, Opened(x), ClientUp);
    t := ReturnLoses(x, s);
    LeadsThen(x, Start(x), Opened(x), s);
    LeadsThen(x, Start(x), s, t);
  }

  /**
    So may one that still has something to send when the target ends its stream: the
    write that fails makes the client close the connection over the waiting answer.
   */
  lemma SendingOnLosesAnswer(x: Session) returns (t: State)
    requires x.targetEnds && x.payload != []
    ensures Rests(x, t) && t.toApp == GREETED + x.reply
  {
    hide Inv, Causes, Leads, Quiet, Chain, Concat;
    Opens(x);
    var s := Opened(x);
    var read := Forward(s, ClientUp, More);
    ForwardEnabled(s, ClientUp, More);
    LeadsOne(x, s, read);
    StepKeepsInv(x, s, read);
    StepKeepsCauses(x, s, read);
    var s1 := Next(x, s, read);
    var s2 := Drain(x, s1, ServerDown);
    assert Loop(s1, ClientUp).phase.Writing? && Loop(s2, ClientUp) == Loop(s1, ClientUp);
    var s3 := CutOff(x, s2);
    t := ReturnLoses(x, s3);
    LeadsThen(x, Start(x), s, s1);
    LeadsThen(x, Start(x), s1, s2);
    LeadsThen(x, Start(x), s2, s3);
    LeadsThen(x, Start(x), s3, t);
  }

  /** The server has returned, and the client's next write tells it so. */
  lemma CutOff(x: Session, s: State) returns (t: State)
    requires Inv(x, s) && Causes(s) && s.replied && s.appOpen && s.serverOpen
    requires s.serverDown.phase == Stopped(true) && s.clientUp.phase.Writing?
    ensures Leads(x, s, t) && Inv(x, t) && Causes(t) && t.replied && Enabled(t, ClientReturn) && t.toApp == s.toApp
  {
    hide Inv, Causes, Leads;
    var u := Next(x, s, ServerReturn);
    StepKeepsInv(x, s, ServerReturn);
    StepKeepsCauses(x, s, ServerReturn);
    var write := Write(ClientUp, Outcome(0, true), []);
    ConcatCons([], []);
    RunningThen(x, s);
    assert u.clientUp.phase.chunk[..0] == [];
    StepKeepsInv(x, u, write);
    StepKeepsCauses(x, u, write);
    t := Next(x, u, write);
    LeadsOne(x, u, write);
    LeadsFirst(x, s, ServerReturn, t);
  }

  lemma RunningThen(x: Session, s: State)
    requires Inv(x, s) && s.replied
    ensures s.announced && s.dialed
  {
  }

  /** With nothing to send and no end, the client closes only after the whole answer. */
  predicate Silent(s: State) {
    && !s.clientUp.phase.Writing? && (s.clientUp.phase.Stopped? ==> !s.appOpen)
    && (!s.appOpen ==> s.clientDown.phase == Stopped(true))
  }

  lemma StepKeepsSilent(x: Session, s: State, step: Step)
    requires x.payload == [] && !x.appEnds && Inv(x, s) && Causes(s) && Silent(s)
    requires Enabled(s, step) && Undisturbed(s, step)
    ensures Silent(Next(x, s, step))
  {
    hide Concat, AfterWrite;
    assert s.app == [];
  }

  lemma {:induction false} RunKeepsSilent(x: Session, s: State, steps: seq<Step>, t: State)
    requires x.payload == [] && !x.appEnds && Inv(x, s) && Causes(s) && Silent(s) && RunsUndisturbed(x, s, steps, t)
    ensures Silent(t)
    decreases |steps|
  {
    hide Inv, Causes, Silent, Enabled, Undisturbed, Next;
    if steps == [] {
    } else {
      StepKeepsSilent(x, s, steps[0]);
      StepKeepsInv(x, s, steps[0]);
      StepKeepsCauses(x, s, steps[0]);
      RunKeepsSilent(x, Next(x, s, steps[0]), steps[1..], t);
    }
  }

  lemma SilentGetsAnswer(x: Session, t: State)
    requires x.payload == [] && !x.appEnds && Rests(x, t)
    ensures Answered(x, t)
  {
    hide Quiet, Concat, Chain, RunsUndisturbed;
    var steps :| RunsUndisturbed(x, Start(x), steps, t);
    StartInv(x);
    StartCauses(x);
    RunKeepsSilent(x, Start(x), steps, t);
    UndisturbedRun(x, Start(x), steps, t);
    DownloadByLoop(x, steps, t);
  }

  /**
    The application is sure to get everything the target sent, when nothing goes
    wrong, exactly if there is nothing to get, or if it does not end its own stream
    and either the target does not end its stream or the application sends nothing.
   */
  lemma AnswerExact(x: Session)
    ensures (forall t :: Rests(x, t) ==> Answered(x, t)) <==>
            x.sent == [] || (!x.appEnds && (!x.targetEnds || x.payload == []))
  {
    hide Quiet, Leads;
    if x.sent == [] || (!x.appEnds && (!x.targetEnds || x.payload == [])) {
      forall t | Rests(x, t)
        ensures Answered(x, t)
      {
        AnswerArrives(x, t);
      }
    } else {
      var t;
      if x.appEnds {
        t := EndingFirstLosesAnswer(x);
      } else {
        t := SendingOnLosesAnswer(x);
      }
      assert |t.toApp| < |GREETED + x.reply + x.sent|;
      assert Rests(x, t) && !Answered(x, t);
    }
  }

  lemma AnswerArrives(x: Session, t: State)
    requires Rests(x, t) && (x.sent == [] || (!x.appEnds && (!x.targetEnds || x.payload == [])))
    ensures Answered(x, t)
  {
    hide Quiet, RunsUndisturbed;
    if x.payload == [] && !x.appEnds {
      SilentGetsAnswer(x, t);
    } else {
      var steps :| RunsUndisturbed(x, Start(x), steps, t);
      DownloadByLoop(x, steps, t);
      if x.sent == [] {
        assert t.clientDown.put == x.sent;
      }
    }
  }

  // -- the other direction ----------------------------------------------------------------------------

  lemma {:induction false} NothingUpAfterServer(x: Session, s: State, steps: seq<Step>, t: State)
    requires Runs(x, s, steps, t) && !s.serverOpen
    ensures t.serverUp.put == s.serverUp.put && !t.serverOpen
    decreases |steps|
  {
    if steps == [] {
    } else {
      StepUpAfterServer(x, s, steps[0]);
      NothingUpAfterServer(x, Next(x, s, steps[0]), steps[1..], t);
    }
  }

  lemma StepUpAfterServer(x: Session, s: State, step: Step)
    requires Enabled(s, step) && !s.serverOpen
    ensures Next(x, s, step).serverUp.put == s.serverUp.put && !Next(x, s, step).serverOpen
  {
    hide Concat, AfterRead, AfterWrite;
    if step.Read? {
      PutUnread(s.serverUp, Source(s, step.hop)[..step.n], step.end);
    } else if step.Write? && step.hop.ServerUp? {
      NothingPut(s.serverUp, step.outcome);
    }
  }

  /** A target that ends its stream first may be sent nothing at all of the payload. */
  lemma TargetEndsFirst(x: Session) returns (t: State)
    requires x.targetEnds
    ensures Rests(x, t) && t.serverUp.put == []
  {
    hide Inv, Causes, Leads, Quiet, RunsUndisturbed;
    Opens(x);
    var s := Drain(x, Opened(x), ServerDown);
    assert Loop(s, ServerUp) == Loop(Opened(x), ServerUp);
    StepKeepsInv(x, s, ServerReturn);
    StepKeepsCauses(x, s, ServerReturn);
    var u := Next(x, s, ServerReturn);
    t := Settle(x, u);
    LeadsKeeps(x, u, t);
    var steps :| Runs(x, u, steps, t);
    NothingUpAfterServer(x, u, steps, t);
    LeadsFirst(x, s, ServerReturn, t);
    LeadsThen(x, Start(x), Opened(x), s);
    LeadsThen(x, Start(x), s, t);
  }

  /** The target is sure to get the whole payload, when nothing goes wrong, exactly if there is none or it stays. */
  lemma PayloadExact(x: Session)
    ensures (forall t :: Rests(x, t) ==> t.serverUp.put == x.payload) <==> x.payload == [] || !x.targetEnds
  {
    hide Quiet, RunsUndisturbed;
    if x.payload == [] || !x.targetEnds {
      forall t | Rests(x, t)
        ensures t.serverUp.put == x.payload
      {
        var steps :| RunsUndisturbed(x, Start(x), steps, t);
        if x.targetEnds {
          StartInv(x);
          StartCauses(x);
          UndisturbedRun(x, Start(x), steps, t);
          ChainPrefix(x.payload, t.app, t.clientUp, Concat(t.up), t.serverUp);
        } else {
          UploadArrives(x, steps, t);
        }
      }
    } else {
      var t := TargetEndsFirst(x);
      assert Rests(x, t);
    }
  }
}
