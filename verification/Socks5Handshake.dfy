/**
  The SOCKS5 handshake over one reused scratch buffer, against a connection whose
  reads may return less than asked, fail, or meet the end of the stream, and whose
  writes may fail.
 */
module Socks5Handshake {
  import opened Common
  import opened Tools
  import opened Socks5Codec

  class Conn {
    var input: seq<byte>
    var written: seq<byte>
    var closed: bool
    ghost var consumed: seq<byte>
    /** Some read returned less than it was asked for although more was to come. */
    ghost var short: bool
    /** Some write did not go through. */
    ghost var broken: bool

    ghost predicate Initial()
      reads this
    {
      written == [] && consumed == [] && !closed && !short && !broken
    }

    /** Everything the peer sends, read or not. */
    ghost function Stream(): seq<byte>
      reads this
    {
      consumed + input
    }

    method Read(buf: array<byte>, n: nat) returns (k: nat, failed: bool)
      requires n <= buf.Length
      modifies `input, `consumed, `short, buf
      ensures k <= n && k <= |old(input)| && buf[..k] == old(input)[..k]
      ensures forall i :: k <= i < buf.Length ==> buf[i] == old(buf[i])
      ensures input == old(input)[k..] && consumed == old(consumed) + old(input)[..k]
      ensures short == (old(short) || ((k < n || failed) && n <= |old(input)|))
    {
      failed := *;
      k :| 0 <= k <= n && k <= |input|;
      forall i | 0 <= i < k {
        buf[i] := input[i];
      }
      short := short || ((k < n || failed) && n <= |input|);
      consumed := consumed + input[..k];
      input := input[k..];
    }

    method Write(data: seq<byte>) returns (ok: bool)
      modifies `written, `broken
      ensures ok ==> written == old(written) + data && broken == old(broken)
      ensures !ok ==> broken && old(written) <= written <= old(written) + data
    {
      var k: nat :| k <= |data|;
      ok := k == |data|;
      written := written + data[..k];
      broken := broken || !ok;
    }

    method Close()
      modifies `closed
      ensures closed
    {
      closed := true;
    }
  }

  /** A read that must bring exactly `n` bytes, or the handshake ends. */
  method Fill(conn: Conn, buf: array<byte>, n: nat) returns (ok: bool)
    requires n <= buf.Length
    modifies conn`input, conn`consumed, conn`short, buf
    ensures conn.Stream() == old(conn.Stream()) && (old(conn.short) ==> conn.short)
    ensures ok ==> && n <= |old(conn.input)| && buf[..n] == old(conn.input)[..n] && conn.input == old(conn.input)[n..]
                   && conn.consumed == old(conn.consumed) + old(conn.input)[..n] && conn.short == old(conn.short)
    ensures ok ==> forall i :: n <= i < buf.Length ==> buf[i] == old(buf[i])
    ensures !ok && !conn.short ==> |old(conn.input)| < n
  {
    var k, failed := conn.Read(buf, n);
    assert old(conn.input) == old(conn.input)[..k] + old(conn.input)[k..];
    ok := !failed && k == n;
  }

  datatype Greeted = NotGreeted | IsHttp | Offered(methods: seq<byte>)

  /** The greeting at the front of `s` and what follows it. */
  ghost function ParseGreeting(s: seq<byte>): Greeted {
    if |s| < 2 then NotGreeted
    else if s[0] != 5 then if s[0] >= 65 then IsHttp else NotGreeted
    else if |s| - 2 < s[1] then NotGreeted
    else Offered(s[2..2 + (s[1] as int)])
  }

  lemma ParseByParts(s: seq<byte>)
    ensures Parse(s) ==
            match ParseGreeting(s)
            case NotGreeted => Nothing(false)
            case IsHttp => Http
            case Offered(methods) =>
              match ParseCommand(methods, s[2 + |methods|..])
              case None => Nothing(true)
              case Some(r) => Asked(r)
  {
    hide ParseCommand;
  }

  method ReadGreeting(conn: Conn, buf: array<byte>) returns (g: Greeted)
    requires buf.Length == 1024
    modifies conn`input, conn`consumed, conn`short, buf
    ensures conn.Stream() == old(conn.Stream()) && (old(conn.short) ==> conn.short)
    ensures !g.NotGreeted? || !conn.short ==> g == ParseGreeting(old(conn.input))
    ensures g.IsHttp? ==> conn.consumed == old(conn.consumed) + old(conn.input)[..2]
    ensures g.Offered? ==> |g.methods| < 256 && conn.consumed == old(conn.consumed) + Greeting(g.methods)
    ensures g.Offered? ==> conn.input == old(conn.input)[2 + |g.methods|..]
  {
    var ok := Fill(conn, buf, 2);
    if !ok {
      return NotGreeted;
    }
    assert buf[0] == buf[..2][0] && buf[1] == buf[..2][1];
    if buf[0] != 5 {
      if buf[0] >= 65 {
        return IsHttp;
      }
      return NotGreeted;
    }
    var nMethods := buf[1];
    ok := Fill(conn, buf, nMethods);
    if !ok {
      return NotGreeted;
    }
    g := Offered(buf[..nMethods]);
    assert old(conn.input)[..2] == [5, nMethods];
  }

  /** A length byte and that many bytes, read over the length byte. */
  method ReadName(conn: Conn, buf: array<byte>) returns (name: Option<seq<byte>>)
    requires buf.Length == 1024
    modifies conn`input, conn`consumed, conn`short, buf
    ensures conn.Stream() == old(conn.Stream()) && (old(conn.short) ==> conn.short)
    ensures name.Some? ==> |name.value| < 256 && conn.consumed == old(conn.consumed) + TargetBytes(Name(name.value))
    ensures name.None? && !conn.short ==> |old(conn.input)| < 1 || |old(conn.input)| - 1 < old(conn.input)[0]
  {
    ghost var s, c := conn.input, conn.consumed;
    var ok := Fill(conn, buf, 1);
    if !ok {
      return None;
    }
    var addrLen := buf[..1][0];
    assert s[0] == addrLen && conn.input == s[1..] && conn.consumed == c + [addrLen];
    ok := Fill(conn, buf, addrLen);
    if !ok {
      return None;
    }
    name := Some(buf[..addrLen]);
    assert conn.consumed == c + ([addrLen] + name.value);
  }

  /** The address of the request; the buffer is reused, so what is kept is copied out first. */
  method ReadTarget(conn: Conn, buf: array<byte>, atyp: byte) returns (t: Option<Target>)
    requires buf.Length == 1024
    modifies conn`input, conn`consumed, conn`short, buf
    ensures conn.Stream() == old(conn.Stream()) && (old(conn.short) ==> conn.short)
    ensures t.Some? ==> ValidTarget(t.value) && AddressType(t.value) == atyp
                        && conn.consumed == old(conn.consumed) + TargetBytes(t.value)
    ensures t.None? && !conn.short ==> ParseTarget(atyp, old(conn.input)).None?
  {
    t := None;
    if atyp == 1 {
      var ok := Fill(conn, buf, 4);
      if ok {
        t := Some(V4(buf[..4]));
      }
    } else if atyp == 3 {
      var name := ReadName(conn, buf);
      if name.Some? {
        t := Some(Name(name.value));
      }
    } else if atyp == 4 {
      var ok := Fill(conn, buf, 16);
      if ok {
        t := Some(V6(buf[..16]));
      }
    }
  }

  method ReadCommand(conn: Conn, buf: array<byte>, ghost methods: seq<byte>)
    returns (cmd: byte, t: Option<Target>, port: Port, ghost rsv: byte)
    requires buf.Length == 1024 && |methods| < 256
    modifies conn`input, conn`consumed, conn`short, buf
    ensures conn.Stream() == old(conn.Stream()) && (old(conn.short) ==> conn.short)
    ensures t.Some? ==> ValidTarget(t.value) &&
                        conn.consumed == old(conn.consumed) + Command(Request(methods, cmd, rsv, t.value, port))
    ensures t.None? && !conn.short ==> ParseCommand(methods, old(conn.input)).None?
  {
    hide ParseTarget, TargetBytes;
    cmd, port, rsv := 0, 0, 0;
    var ok := Fill(conn, buf, 4);
    if !ok {
      return cmd, None, port, rsv;
    }
    if buf[..4][0] != 5 {
      return cmd, None, port, rsv;
    }
    var atyp;
    cmd, rsv, atyp := buf[..4][1], buf[..4][2], buf[..4][3];
    assert buf[..4] == [5, cmd, rsv, atyp];
    ghost var s, c := conn.input, conn.consumed;
    t := ReadTarget(conn, buf, atyp);
    if t.None? {
      return;
    }
    ghost var rest := conn.input;
    assert s == TargetBytes(t.value) + rest by {
      assert (c + s)[|c|..] == s;
      assert (c + TargetBytes(t.value) + rest)[|c|..] == TargetBytes(t.value) + rest;
    }
    ParseTargetExact(atyp, s, t.value, rest);
    ok := Fill(conn, buf, 2);
    if !ok {
      return cmd, None, port, rsv;
    }
    port := BytesToUint16(buf[..2]);
    Uint16RoundTrip(port, buf[..2]);
  }

  // -- the answer ----------------------------------------------------------------

  /** What dialing the target came to, with the local address of the new connection if it has one. */
  datatype Dial = Refused | Connected(bound: Option<(seq<byte>, Port)>)

  /** The configured and local addresses, and the outcome of a dial should there be one. */
  datatype Env = Env(advertise: seq<byte>, advertisePort: Port, local: seq<byte>, dial: Dial)

  predicate ValidEnv(env: Env) {
    && IsAddress(env.advertise) && IsAddress(env.local)
    && (env.dial.Connected? && env.dial.bound.Some? ==> IsAddress(env.dial.bound.value.0))
  }

  predicate IsLoopback(ip: seq<byte>)
    requires IsAddress(ip)
  {
    if To4(ip).Some? then To4(ip).value[0] == 127 else ip == [0, 0, 0, 0, 0, 0, 0, 0, 0, 0, 0, 0, 0, 0, 0, 1]
  }

  const ANY: seq<byte> := [0, 0, 0, 0]

  function CommandReply(cmd: byte, env: Env): (r: Reply)
    requires ValidEnv(env)
    ensures IsAddress(r.ip)
  {
    if cmd == 1 then
      match env.dial
      case Refused => Reply(4, ANY, 0)
      case Connected(None) => Reply(0, ANY, 0)
      case Connected(Some((ip, port))) => Reply(0, ip, port)
    else if cmd == 3 then Reply(0, Shortest(if IsLoopback(env.advertise) then env.local else env.advertise),
        env.advertisePort)
    else Reply(7, ANY, 0)
  }

  /** Everything the client is sent. */
  function Replies(m: Meaning, env: Env): seq<byte>
    requires ValidEnv(env)
  {
    match m
    case Nothing(greeted) => if greeted then [5, 0] else []
    case Http => []
    case Asked(r) => [5, 0] + ReplyBytes(CommandReply(r.cmd, env))
  }

  /** Whether somebody else owns the connection afterwards. */
  predicate HandedOff(m: Meaning, env: Env) {
    m.Http? || (m.Asked? && ((m.request.cmd == 1 && env.dial.Connected?) || m.request.cmd == 3))
  }

  /**
    Section 6 of RFC 1928: the client gets nothing, the two bytes that choose no
    authentication, or these and exactly one reply it can read, which grants the
    request exactly when the connection is handed over.
   */
  lemma RepliesReadable(m: Meaning, env: Env)
    requires ValidEnv(env)
    ensures var w := Replies(m, env);
            && (w == [] || w[..2] == [5, 0])
            && (m.Asked? <==> |w| > 2)
            && (m.Asked? ==>
                  && (|w| == 12 || |w| == 24)
                  && ParseReply(w[2..]) == Some(CommandReply(m.request.cmd, env))
                  && var code := ParseReply(w[2..]).value.code;
                     && (code == 0 <==> HandedOff(m, env))
                     && (code == 4 <==> m.request.cmd == 1 && env.dial.Refused?)
                     && (code == 7 <==> m.request.cmd != 1 && m.request.cmd != 3))
  {
    if m.Asked? {
      var r := CommandReply(m.request.cmd, env);
      assert Replies(m, env)[2..] == ReplyBytes(r);
      ReplyRoundTrip(r, ReplyBytes(r));
    }
  }

  /** An address of this host: 127.x.x.x in either form, or ::1. */
  predicate Loopback(ip: seq<byte>) {
    || (|ip| == 4 && ip[0] == 127)
    || (Mapped(ip) && ip[12] == 127)
    || (|ip| == 16 && (forall i :: 0 <= i < 15 ==> ip[i] == 0) && ip[15] == 1)
  }

  lemma LoopbackExact(ip: seq<byte>)
    requires IsAddress(ip)
    ensures IsLoopback(ip) <==> Loopback(ip)
  {
    ShortestExact(ip);
    if |ip| == 16 && (forall i :: 0 <= i < 15 ==> ip[i] == 0) && ip[15] == 1 {
      assert ip == [0, 0, 0, 0, 0, 0, 0, 0, 0, 0, 0, 0, 0, 0, 0, 1];
    }
  }

  /** The 4-byte form of an IPv4-mapped address. */
  function Unmapped(ip: seq<byte>): seq<byte> {
    if Mapped(ip) then [ip[12], ip[13], ip[14], ip[15]] else ip
  }

  /**
    What a client reads in the reply to its request. CONNECT: the bound address and port
    of the new connection, or none; host unreachable if the dial failed. UDP ASSOCIATE:
    the advertised port at the advertised address, or at the local one of this connection
    if the advertised one is of no use to another host. Anything else: not supported.
   */
  lemma ReplyMeaning(stream: seq<byte>, r: Request, env: Env)
    requires ValidEnv(env) && Parse(stream) == Asked(r)
    ensures var w := Replies(Parse(stream), env);
            && |w| > 2 && w[0] == 5 && w[1] == 0 && ParseReply(w[2..]).Some?
            && var reply := ParseReply(w[2..]).value;
               && (r.cmd == 1 && env.dial.Connected? && env.dial.bound.Some? ==>
                     reply == Reply(0, env.dial.bound.value.0, env.dial.bound.value.1))
               && (r.cmd == 1 && env.dial.Connected? && env.dial.bound.None? ==> reply == Reply(0, [0, 0, 0, 0], 0))
               && (r.cmd == 1 && env.dial.Refused? ==> reply == Reply(4, [0, 0, 0, 0], 0))
               && (r.cmd == 3 && !Loopback(env.advertise) ==>
                     reply == Reply(0, Unmapped(env.advertise), env.advertisePort))
               && (r.cmd == 3 && Loopback(env.advertise) ==> reply == Reply(0, Unmapped(env.local), env.advertisePort))
               && (r.cmd != 1 && r.cmd != 3 ==> reply == Reply(7, [0, 0, 0, 0], 0))
  {
    hide Parse, ParseReply, ReplyBytes, Loopback, IsLoopback, Shortest;
    RepliesReadable(Parse(stream), env);
    LoopbackExact(env.advertise);
    ShortestExact(env.advertise);
    ShortestExact(env.local);
  }

  /** How many bytes the address and port take, as far as the bytes at hand tell. */
  function Needed(atyp: byte, rest: seq<byte>): Option<nat> {
    if atyp == 1 then Some(6)
    else if atyp == 3 then Some(if rest == [] then 3 else 3 + (rest[0] as int))
    else if atyp == 4 then Some(18)
    else None
  }

  /** The bytes after the greeting are no complete version 5 command of a known address type. */
  predicate Unserved(command: seq<byte>) {
    || |command| < 4 || command[0] != 5
    || Needed(command[3], command[4..]).None? || |command| < 4 + Needed(command[3], command[4..]).value
  }

  /**
    A client that was greeted is left without the reply that section 6 of RFC 1928 asks
    for exactly when what it sends is cut short at any point, is of another version, or
    names an address of a type that is none of the three.
   */
  lemma UnansweredExact(methods: seq<byte>, command: seq<byte>, env: Env)
    requires |methods| < 256 && ValidEnv(env)
    ensures Replies(Parse(Greeting(methods) + command), env) == [5, 0] <==> Unserved(command)
  {
    hide Greeting, Parse, ReplyBytes;
    GreetingParsed(methods, command);
    RepliesReadable(Parse(Greeting(methods) + command), env);
  }

  lemma GreetingParsed(methods: seq<byte>, command: seq<byte>)
    requires |methods| < 256
    ensures Parse(Greeting(methods) + command) ==
            match ParseCommand(methods, command) case None => Nothing(true) case Some(r) => Asked(r)
  {
    hide ParseCommand;
    var s := Greeting(methods) + command;
    assert s[2..2 + |methods|] == methods && s[2 + |methods|..] == command;
  }

  /** An address of a type nobody assigned: the client hears nothing. */
  lemma UnknownTypeUnanswered(env: Env)
    requires ValidEnv(env)
    ensures Replies(Parse(Greeting([0]) + [5, 1, 0, 2] + [192, 0, 2, 1, 0, 80]), env) == [5, 0]
  {
    assert Greeting([0]) + [5, 1, 0, 2] + [192, 0, 2, 1, 0, 80] == Greeting([0]) + [5, 1, 0, 2, 192, 0, 2, 1, 0, 80];
    UnansweredExact([0], [5, 1, 0, 2, 192, 0, 2, 1, 0, 80], env);
  }

  /**
    The greeting chooses method 0 whatever is offered: section 3 of RFC 1928, by which
    the server picks one of the methods given, is kept exactly when 0 is among them.
   */
  lemma ChosenMethodExact(s: seq<byte>, methods: seq<byte>, env: Env)
    requires Offers(s, methods) && ValidEnv(env)
    ensures var w := Replies(Parse(s), env); |w| >= 2 && w[0] == 5 && (w[1] in methods <==> 0 in methods)
  {
    GreetedExact(s);
    RepliesReadable(Parse(s), env);
  }

  /** A client that only offers user name and password is told that it need not authenticate. */
  lemma UnofferedMethodChosen(env: Env)
    requires ValidEnv(env)
    ensures var w := Replies(Parse(Greeting([2])), env); |w| == 2 && w[1] !in [2]
  {
    var s := Greeting([2]);
    ChosenMethodExact(s, [2], env);
    assert s == Greeting([2]) + [];
    GreetingParsed([2], []);
  }

  /** An address and port, in as many writes as the program uses. */
  method WriteBound(conn: Conn, ip: seq<byte>, port: Port)
    requires IsAddress(ip)
    modifies conn`written, conn`broken
    ensures !conn.broken ==> !old(conn.broken) && conn.written == old(conn.written) + ReplyBytes(Reply(0, ip, port))
  {
    var _ := conn.Write(if |ip| == 16 then [5, 0, 0, 4] else [5, 0, 0, 1]);
    var _ := conn.Write(ip);
    var _ := conn.Write(Uint16ToBytes(port));
  }

  /** Serves the command; tells whether the connection is kept open and whom it was dialed to. */
  method Answer(conn: Conn, cmd: byte, target: Target, port: Port, env: Env)
      returns (keep: bool, dials: seq<(Target, Port)>)
    requires ValidEnv(env)
    modifies conn`written, conn`broken
    ensures !conn.broken ==> !old(conn.broken) && conn.written == old(conn.written) + ReplyBytes(CommandReply(cmd, env))
    ensures keep <==> (cmd == 1 && env.dial.Connected?) || cmd == 3
    ensures dials == if cmd == 1 then [(target, port)] else []
  {
    hide Uint16ToBytes;
    ReplyConstants();
    if cmd == 1 {
      dials := [(target, port)];
      match env.dial
      case Refused =>
        var _ := conn.Write([5, 4, 0, 1, 0, 0, 0, 0, 0, 0]);
        keep := false;
      case Connected(None) =>
        var _ := conn.Write([5, 0, 0, 1, 0, 0, 0, 0, 0, 0]);
        keep := true;
      case Connected(Some((ip, p))) =>
        WriteBound(conn, ip, p);
        keep := true;
    } else if cmd == 3 {
      var ip := env.advertise;
      if IsLoopback(ip) {
        ip := env.local;
      }
      WriteBound(conn, Shortest(ip), env.advertisePort);
      keep, dials := true, [];
    } else {
      var _ := conn.Write([5, 7, 0, 1, 0, 0, 0, 0, 0, 0]);
      keep, dials := false, [];
    }
  }

  lemma ReplyConstants()
    ensures forall code: byte :: ReplyBytes(Reply(code, ANY, 0)) == [5, code, 0, 1, 0, 0, 0, 0, 0, 0]
  {
    assert Uint16ToBytes(0) == [0, 0];
  }

  /**
    Any run, whatever the reads and writes do, either gives up or does what the bytes
    received mean: it dials exactly the address and port asked for, has consumed
    exactly the bytes of the request, so that the next unread byte is the first of
    the payload, and it leaves the connection open exactly when it is handed over.
    When reads bring what they were asked for it gives up only on bytes that mean
    nothing.
   */
  method Handshake(conn: Conn, env: Env) returns (ghost m: Meaning, dials: seq<(Target, Port)>)
    requires conn.Initial() && ValidEnv(env)
    modifies conn
    ensures conn.consumed + conn.input == old(conn.input)
    ensures m.Nothing? || m == Parse(old(conn.input))
    ensures !conn.short && !conn.broken ==> m == Parse(old(conn.input))
    ensures m.Asked? ==> ValidRequest(m.request) && conn.consumed == Encode(m.request)
    ensures m.Http? ==> conn.consumed == old(conn.input)[..2]
    ensures dials == if m.Asked? && m.request.cmd == 1 then [(m.request.target, m.request.port)] else []
    ensures !conn.broken ==> conn.written == Replies(m, env)
    ensures conn.closed <==> !HandedOff(m, env)
  {
    hide ParseGreeting, ParseCommand, Parse, Encode, Greeting, Command, ReplyBytes, CommandReply;
    var buf := new byte[1024];
    ghost var s := conn.input;
    var closeConn := true;
    dials := [];
    m := Nothing(false);
    ParseByParts(s);
    var g := ReadGreeting(conn, buf);
    if g.IsHttp? {
      closeConn := false;
      m := Http;
    } else if g.Offered? {
      var ok := conn.Write([5, 0]);
      if ok {
        m := Nothing(true);
        ghost var rest := conn.input;
        var cmd, target, port, rsv := ReadCommand(conn, buf, g.methods);
        if target.Some? {
          ghost var r := Request(g.methods, cmd, rsv, target.value, port);
          m := Asked(r);
          var keep;
          keep, dials := Answer(conn, cmd, target.value, port, env);
          closeConn := !keep;
          AskedIsParsed(s, conn.consumed, conn.input, r);
        }
      }
    }
    if closeConn {
      conn.Close();
    }
  }

  lemma AskedIsParsed(s: seq<byte>, consumed: seq<byte>, rest: seq<byte>, r: Request)
    requires ValidRequest(r) && consumed == Greeting(r.methods) + Command(r) && s == consumed + rest
    ensures consumed == Encode(r) && Parse(s) == Asked(r)
  {
    hide Parse, Greeting, Command;
    ParseExact(s, r);
  }
}
