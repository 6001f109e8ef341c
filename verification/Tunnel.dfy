/**
  A whole TCP session: application, SOCKS5 client, message stream, server, target.
  Each of the four relay loops is one copy loop; the two message queues keep order
  but may cut the bytes into messages, and hand them out, in any pieces.
 */
module Tunnel {
  import opened Common
  import opened Relay
  import opened StreamConn
  import C = Socks5Codec
  import H = Socks5Handshake

  /** Named by where the loop runs and which way it goes. */
  datatype Hop = ClientUp | ServerUp | ServerDown | ClientDown

  datatype State = State(
    app: seq<byte>,             // what the application still has to send
    toApp: seq<byte>,           // what the application has been sent
    target: seq<byte>,          // what the target still has to send
    up: seq<seq<byte>>,         // messages under way to the server
    down: seq<seq<byte>>,       // messages under way to the client
    announced: bool,            // the server has sent its first message
    dialed: bool,               // the client has taken the first message
    replied: bool,              // the application has its SOCKS5 reply
    clientUp: Copier, serverUp: Copier, serverDown: Copier, clientDown: Copier,
    appEnds: bool,              // the application ends its stream once it has sent everything
    targetEnds: bool,           // the target does
    appOpen: bool,              // the client has not closed the application's connection
    serverOpen: bool)           // the server has not closed the target and ended the message stream

  /** What is fixed for a session: the bytes each side sends, the server's first message and the SOCKS5 reply. */
  datatype Session = Session(payload: seq<byte>, sent: seq<byte>, address: seq<byte>, reply: seq<byte>,
                             appEnds: bool, targetEnds: bool)

  const GREETED: seq<byte> := [5, 0]

  function Start(x: Session): State {
    State(x.payload, GREETED, x.sent, [], [], false, false, false, IDLE, IDLE, IDLE, IDLE,
          x.appEnds, x.targetEnds, true, true)
  }

  datatype Step =
    | Announce
    | Dial
    | Reply
    | Read(hop: Hop, n: nat, end: ReadEnd, rest: seq<seq<byte>>)
    | Write(hop: Hop, outcome: Outcome, messages: seq<seq<byte>>)
    | ClientReturn              // the first of its two loops has ended
    | ServerReturn

  /** The bytes a loop can read. */
  function Source(s: State, h: Hop): seq<byte> {
    match h
    case ClientUp => s.app
    case ServerUp => Concat(s.up)
    case ServerDown => s.target
    case ClientDown => Concat(s.down)
  }

  /** The loops run once the connection they copy from and to is handed to them. */
  predicate Running(s: State, h: Hop) {
    if h.ClientUp? || h.ClientDown? then s.replied else s.announced
  }

  function Loop(s: State, h: Hop): Copier {
    match h
    case ClientUp => s.clientUp
    case ServerUp => s.serverUp
    case ServerDown => s.serverDown
    case ClientDown => s.clientDown
  }

  /**
    Whether a loop can get to the end of what it copies from. The client never ends
    its half of the message stream; the server ends its own when it returns.
   */
  predicate Ends(s: State, h: Hop) {
    match h
    case ClientUp => s.appEnds
    case ServerUp => false
    case ServerDown => s.targetEnds
    case ClientDown => !s.serverOpen
  }

  /** What has been closed here, or finished by the server, can no longer be used. */
  predicate Readable(s: State, h: Hop) {
    match h
    case ClientUp => s.appOpen
    case ServerUp => s.serverOpen
    case ServerDown => s.serverOpen
    case ClientDown => true
  }

  predicate Writable(s: State, h: Hop) {
    if h.ClientDown? then s.appOpen else s.serverOpen
  }

  predicate CanRead(s: State, h: Hop, n: nat, end: ReadEnd) {
    && n <= |Source(s, h)| && n <= CHUNK && (n > 0 || !end.More?)
    && (end.AtEnd? ==> Ends(s, h) && n == |Source(s, h)|)
    && (!Readable(s, h) ==> n == 0 && end.Failed?)
  }

  predicate Enabled(s: State, step: Step) {
    match step
    case Announce => !s.announced
    case Dial => !s.dialed && s.down != []
    case Reply => s.dialed && !s.replied
    case Read(h, n, end, rest) =>
      && Running(s, h) && Loop(s, h).phase.Reading? && CanRead(s, h, n, end)
      && (h.ServerUp? || h.ClientDown? ==> Concat(rest) == Source(s, h)[n..])
    case Write(h, w, messages) =>
      && Running(s, h) && Loop(s, h).phase.Writing? && Possible(w, Loop(s, h).phase.chunk)
      && (!Writable(s, h) ==> w.failed && w.put == 0)
      && (h.ClientUp? || h.ServerDown? ==> Concat(messages) == Loop(s, h).phase.chunk[..w.put])
    case ClientReturn => s.appOpen && (s.clientUp.phase.Stopped? || s.clientDown.phase.Stopped?)
    case ServerReturn => s.serverOpen && (s.serverUp.phase.Stopped? || s.serverDown.phase.Stopped?)
  }

  function Next(x: Session, s: State, step: Step): State
    requires Enabled(s, step)
  {
    match step
    case Announce => s.(announced := true, down := [x.address])
    case Dial => s.(dialed := true, down := s.down[1..])
    case Reply => s.(replied := true, toApp := s.toApp + x.reply)
    case Read(h, n, end, rest) =>
      var c := AfterRead(Loop(s, h), Source(s, h)[..n], end);
      (match h
       case ClientUp => s.(clientUp := c, app := s.app[n..])
       case ServerUp => s.(serverUp := c, up := rest)
       case ServerDown => s.(serverDown := c, target := s.target[n..])
       case ClientDown => s.(clientDown := c, down := rest))
    case Write(h, w, messages) =>
      var c := AfterWrite(Loop(s, h), w);
      (match h
       case ClientUp => s.(clientUp := c, up := s.up + messages)
       case ServerUp => s.(serverUp := c)
       case ServerDown => s.(serverDown := c, down := s.down + messages)
       case ClientDown => s.(clientDown := c, toApp := s.toApp + s.clientDown.phase.chunk[..w.put]))
    case ClientReturn => s.(appOpen := false)
    case ServerReturn => s.(serverOpen := false)
  }

  predicate Runs(x: Session, s: State, steps: seq<Step>, t: State)
    decreases |steps|
  {
    if steps == [] then s == t
    else Enabled(s, steps[0]) && Runs(x, Next(x, s, steps[0]), steps[1..], t)
  }

  // -- the invariant ---------------------------------------------------------

  /** What the client has yet to read of the server's bytes; the first message is none of them. */
  function DownBytes(s: State): seq<byte> {
    if s.dialed || s.down == [] then Concat(s.down) else Concat(s.down[1..])
  }

  /** Two loops in a row: the second has taken what the first put, but for what is under way. */
  predicate Chain(all: seq<byte>, unread: seq<byte>, first: Copier, between: seq<byte>, second: Copier) {
    && InOrder(first) && InOrder(second)
    && first.taken + unread == all
    && second.taken + between == first.put
  }

  predicate Order(x: Session, s: State) {
    && (s.replied ==> s.dialed) && (s.dialed ==> s.announced)
    && (!s.announced ==> s.down == [] && s.serverUp == IDLE && s.serverDown == IDLE)
    && (!s.replied ==> s.clientUp == IDLE && s.clientDown == IDLE)
    && (s.announced && !s.dialed ==> s.down != [] && s.down[0] == x.address)
    && s.appEnds == x.appEnds && s.targetEnds == x.targetEnds
    && (!s.appOpen ==> s.clientUp.phase.Stopped? || s.clientDown.phase.Stopped?)
    && (!s.serverOpen ==> s.serverUp.phase.Stopped? || s.serverDown.phase.Stopped?)
  }

  predicate Inv(x: Session, s: State) {
    && Chain(x.payload, s.app, s.clientUp, Concat(s.up), s.serverUp)
    && Chain(x.sent, s.target, s.serverDown, DownBytes(s), s.clientDown)
    && s.toApp == GREETED + (if s.replied then x.reply else []) + s.clientDown.put
    && Order(x, s)
  }

  lemma StartInv(x: Session)
    ensures Inv(x, Start(x))
  {
  }

  lemma ControlKeepsInv(x: Session, s: State, step: Step)
    requires Inv(x, s) && Enabled(s, step) && !step.Read? && !step.Write?
    ensures Inv(x, Next(x, s, step))
  {
    hide Chain;
    assert GREETED + [] + [] == GREETED && GREETED + x.reply + [] == GREETED + x.reply;
    var t := Next(x, s, step);
    assert step.Announce? ==> t.down[1..] == [];
  }

  lemma ChainReadFirst(all: seq<byte>, unread: seq<byte>, c: Copier, between: seq<byte>, d: Copier, n: nat,
      end: ReadEnd)
    requires Chain(all, unread, c, between, d) && c.phase.Reading? && n <= |unread|
    ensures Chain(all, unread[n..], AfterRead(c, unread[..n], end), between, d)
  {
    ReadKeepsOrder(c, unread[..n], end);
    assert c.taken + unread == (c.taken + unread[..n]) + unread[n..];
  }

  lemma ChainReadSecond(all: seq<byte>, unread: seq<byte>, c: Copier, between: seq<byte>, d: Copier, n: nat,
      end: ReadEnd)
    requires Chain(all, unread, c, between, d) && d.phase.Reading? && n <= |between|
    ensures Chain(all, unread, c, between[n..], AfterRead(d, between[..n], end))
  {
    ReadKeepsOrder(d, between[..n], end);
    assert d.taken + between == (d.taken + between[..n]) + between[n..];
  }

  lemma ChainWriteFirst(all: seq<byte>, unread: seq<byte>, c: Copier, between: seq<byte>, d: Copier, w: Outcome)
    requires Chain(all, unread, c, between, d) && c.phase.Writing? && Possible(w, c.phase.chunk)
    ensures Chain(all, unread, AfterWrite(c, w), between + c.phase.chunk[..w.put], d)
  {
    WriteKeepsOrder(c, w);
    assert d.taken + (between + c.phase.chunk[..w.put]) == c.put + c.phase.chunk[..w.put];
  }

  lemma ChainWriteSecond(all: seq<byte>, unread: seq<byte>, c: Copier, between: seq<byte>, d: Copier, w: Outcome)
    requires Chain(all, unread, c, between, d) && d.phase.Writing? && Possible(w, d.phase.chunk)
    ensures Chain(all, unread, c, between, AfterWrite(d, w))
  {
    WriteKeepsOrder(d, w);
  }

  lemma UpKeepsInv(x: Session, s: State, step: Step)
    requires Inv(x, s) && Enabled(s, step) && (step.Read? || step.Write?) && (step.hop.ClientUp? || step.hop.ServerUp?)
    ensures Inv(x, Next(x, s, step))
  {
    hide Chain, Concat, AfterRead, AfterWrite, InOrder;
    if step.Read? {
      if step.hop.ClientUp? {
        ChainReadFirst(x.payload, s.app, s.clientUp, Concat(s.up), s.serverUp, step.n, step.end);
      } else {
        ChainReadSecond(x.payload, s.app, s.clientUp, Concat(s.up), s.serverUp, step.n, step.end);
      }
    } else {
      if step.hop.ClientUp? {
        ChainWriteFirst(x.payload, s.app, s.clientUp, Concat(s.up), s.serverUp, step.outcome);
        ConcatAppend(s.up, step.messages);
      } else {
        ChainWriteSecond(x.payload, s.app, s.clientUp, Concat(s.up), s.serverUp, step.outcome);
      }
    }
  }

  lemma ServerDownKeepsInv(x: Session, s: State, step: Step)
    requires Inv(x, s) && Enabled(s, step) && (step.Read? || step.Write?) && step.hop.ServerDown?
    ensures Inv(x, Next(x, s, step))
  {
    hide Chain, Concat, AfterRead, AfterWrite, InOrder;
    if step.Read? {
      ChainReadFirst(x.sent, s.target, s.serverDown, DownBytes(s), s.clientDown, step.n, step.end);
    } else {
      ChainWriteFirst(x.sent, s.target, s.serverDown, DownBytes(s), s.clientDown, step.outcome);
      DownAppend(s, step.messages);
    }
  }

  lemma ClientDownKeepsInv(x: Session, s: State, step: Step)
    requires Inv(x, s) && Enabled(s, step) && (step.Read? || step.Write?) && step.hop.ClientDown?
    ensures Inv(x, Next(x, s, step))
  {
    hide Chain, Concat, AfterRead, InOrder;
    if step.Read? {
      ChainReadSecond(x.sent, s.target, s.serverDown, DownBytes(s), s.clientDown, step.n, step.end);
      PutUnread(s.clientDown, Source(s, step.hop)[..step.n], step.end);
    } else {
      ChainWriteSecond(x.sent, s.target, s.serverDown, DownBytes(s), s.clientDown, step.outcome);
      var c, out := s.clientDown, s.clientDown.phase.chunk[..step.outcome.put];
      assert s.toApp + out == GREETED + x.reply + (c.put + out);
    }
  }

  lemma PutUnread(c: Copier, chunk: seq<byte>, end: ReadEnd)
    ensures AfterRead(c, chunk, end).put == c.put
  {
  }

  lemma DownAppend(s: State, ms: seq<seq<byte>>)
    requires s.dialed || s.down != []
    ensures DownBytes(s.(down := s.down + ms)) == DownBytes(s) + Concat(ms)
  {
    if s.dialed {
      ConcatAppend(s.down, ms);
    } else {
      ConcatAppend(s.down[1..], ms);
      assert (s.down + ms)[1..] == s.down[1..] + ms;
    }
  }

  lemma StepKeepsInv(x: Session, s: State, step: Step)
    requires Inv(x, s) && Enabled(s, step)
    ensures Inv(x, Next(x, s, step))
  {
    hide *;
    if step.Read? || step.Write? {
      match step.hop
      case ClientUp => UpKeepsInv(x, s, step);
      case ServerUp => UpKeepsInv(x, s, step);
      case ServerDown => ServerDownKeepsInv(x, s, step);
      case ClientDown => ClientDownKeepsInv(x, s, step);
    } else {
      ControlKeepsInv(x, s, step);
    }
  }

  // -- what every run keeps ------------------------------------------------------

  lemma {:induction false} RunKeepsInv(x: Session, s: State, steps: seq<Step>, t: State)
    requires Inv(x, s) && Runs(x, s, steps, t)
    ensures Inv(x, t)
    decreases |steps|
  {
    hide Inv, Next, Enabled;
    if steps == [] {
    } else {
      StepKeepsInv(x, s, steps[0]);
      RunKeepsInv(x, Next(x, s, steps[0]), steps[1..], t);
    }
  }

  function Pending(c: Copier): seq<byte> {
    if c.phase.Writing? then c.phase.chunk else []
  }

  lemma ChainPrefix(all: seq<byte>, unread: seq<byte>, c: Copier, between: seq<byte>, d: Copier)
    requires Chain(all, unread, c, between, d)
    ensures d.put <= c.put <= all
    ensures !c.phase.Stopped? && !d.phase.Stopped? ==> d.put + Pending(d) + between + Pending(c) + unread == all
  {
    assert d.put <= d.taken <= d.taken + between == c.put <= c.taken <= all;
    if !d.phase.Stopped? {
      assert d.taken == d.put + Pending(d);
    }
    if !c.phase.Stopped? {
      assert c.taken == c.put + Pending(c);
    }
  }

  /**
    Every interleaving of the loops, every way of cutting bytes into reads, writes
    and messages, and every failure: what the target has been sent is a first part of
    what the application sent after its handshake; what the application has been sent
    is the SOCKS5 greeting, the reply, and a first part of what the target sent, so
    the server's own first message never gets there; and until a loop stops nothing
    is lost on the way.
   */
  lemma PrefixSafety(x: Session, steps: seq<Step>, t: State)
    requires Runs(x, Start(x), steps, t)
    ensures t.serverUp.put <= x.payload
    ensures t.toApp == GREETED || (GREETED + x.reply <= t.toApp && t.toApp[|GREETED + x.reply|..] <= x.sent)
    ensures !t.clientUp.phase.Stopped? && !t.serverUp.phase.Stopped? ==>
              t.serverUp.put + Pending(t.serverUp) + Concat(t.up) + Pending(t.clientUp) + t.app == x.payload
    ensures !t.clientDown.phase.Stopped? && !t.serverDown.phase.Stopped? ==>
              t.clientDown.put + Pending(t.clientDown) + DownBytes(t) + Pending(t.serverDown) + t.target == x.sent
  {
    hide Chain, Runs, Concat, InOrder;
    StartInv(x);
    RunKeepsInv(x, Start(x), steps, t);
    ChainPrefix(x.payload, t.app, t.clientUp, Concat(t.up), t.serverUp);
    ChainPrefix(x.sent, t.target, t.serverDown, DownBytes(t), t.clientDown);
    if t.replied {
      assert t.toApp[|GREETED + x.reply|..] == t.clientDown.put;
    } else {
      assert GREETED + [] + [] == GREETED;
    }
  }

  /**
    The session a CONNECT handshake starts: the relay gets the application's bytes
    from exactly where the request ends.
   */
  function SessionOf(stream: seq<byte>, r: C.Request, env: H.Env, sent: seq<byte>, address: seq<byte>,
                     appEnds: bool, targetEnds: bool): Session
    requires C.Parse(stream) == C.Asked(r) && H.ValidEnv(env)
  {
    C.ParseExact(stream, r);
    Session(stream[|C.Encode(r)|..], sent, address, C.ReplyBytes(H.CommandReply(r.cmd, env)), appEnds, targetEnds)
  }

  /**
    From the application's first byte: its handshake followed by what the target has
    been sent is always a first part of its stream, and it is sent one readable reply,
    granting the request, ahead of the target's bytes.
   */
  lemma EndToEnd(stream: seq<byte>, r: C.Request, env: H.Env, sent: seq<byte>, address: seq<byte>,
                 appEnds: bool, targetEnds: bool, steps: seq<Step>, t: State)
    requires C.Parse(stream) == C.Asked(r) && r.cmd == 1 && H.ValidEnv(env) && env.dial.Connected?
    requires var x := SessionOf(stream, r, env, sent, address, appEnds, targetEnds); Runs(x, Start(x), steps, t)
    ensures C.ValidRequest(r) && C.Encode(r) + t.serverUp.put <= stream
    ensures t.toApp <= H.Replies(C.Asked(r), env) + sent
    ensures |t.toApp| > 2 ==> H.Replies(C.Asked(r), env) <= t.toApp
    ensures var w := H.Replies(C.Asked(r), env);
            C.ParseReply(w[2..]).Some? && C.ParseReply(w[2..]).value.code == 0
  {
    hide C.Parse, C.Encode, Runs, C.ParseReply, C.ReplyBytes, H.CommandReply;
    var x := SessionOf(stream, r, env, sent, address, appEnds, targetEnds);
    PrefixSafety(x, steps, t);
    C.ParseExact(stream, r);
    H.RepliesReadable(C.Asked(r), env);
    assert stream == C.Encode(r) + x.payload;
    if t.toApp != GREETED {
      assert t.toApp == GREETED + x.reply + t.toApp[|GREETED + x.reply|..];
    }
  }
}
