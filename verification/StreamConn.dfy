/**
  A byte connection over a message transport: a message that does not fit the
  caller's buffer is kept and handed out piece by piece.
 */
module StreamConn {
  import opened Common

  /** Errors carry only their texts; the end of a stream is recognised by its text. */
  datatype ReadError = Eof | Broken(text: string)

  predicate At(text: string, sub: string, i: int) {
    0 <= i <= |text| - |sub| && text[i..i + |sub|] == sub
  }

  ghost predicate Contains(text: string, sub: string) {
    exists i :: At(text, sub, i)
  }

  ghost predicate IsNormalClosure(text: string) {
    Contains(text, "StatusNormalClosure") || Contains(text, "1000")
  }

  method Find(text: string, sub: string) returns (found: bool)
    ensures found <==> Contains(text, sub)
  {
    var i := 0;
    while i <= |text| - |sub|
      invariant 0 <= i && forall j :: 0 <= j < i ==> !At(text, sub, j)
    {
      if At(text, sub, i) {
        return true;
      }
      i := i + 1;
    }
    return false;
  }

  /** Holding a text is having it between two others. */
  lemma ContainsExact(text: string, sub: string)
    ensures Contains(text, sub) <==> exists before, after :: text == before + sub + after
  {
    if before, after :| text == before + sub + after {
      assert At(text, sub, |before|);
    }
    if i :| At(text, sub, i) {
      assert text == text[..i] + sub + text[i + |sub|..];
    }
  }

  /** An error is taken for the end of the stream exactly if one of the two texts is somewhere in it. */
  lemma NormalClosureExact(text: string)
    ensures IsNormalClosure(text) <==>
              (exists before, after :: text == before + "StatusNormalClosure" + after)
              || (exists before, after :: text == before + "1000" + after)
  {
    ContainsExact(text, "StatusNormalClosure");
    ContainsExact(text, "1000");
  }

  /** The text test also takes a failure on a port such as 10001 for a clean end. */
  lemma FailureTakenForEnd(before: string, after: string)
    ensures IsNormalClosure(before + ":10001" + after)
    ensures !IsNormalClosure("reset")
  {
    assert At(before + ":10001" + after, "1000", |before| + 1);
    forall i
      ensures !At("reset", "1000", i) && !At("reset", "StatusNormalClosure", i)
    {
      if 0 <= i <= 1 {
        assert "reset"[i..i + 4][0] != '1';
      }
    }
  }

  function Concat(ms: seq<seq<byte>>): seq<byte> {
    if ms == [] then [] else ms[0] + Concat(ms[1..])
  }

  lemma ConcatCons(m: seq<byte>, ms: seq<seq<byte>>)
    ensures Concat([]) == [] && Concat([m]) == m && Concat([m] + ms) == m + Concat(ms)
  {
    assert ([m] + ms)[1..] == ms;
  }

  lemma {:induction false} ConcatAppend(ms: seq<seq<byte>>, ns: seq<seq<byte>>)
    ensures Concat(ms + ns) == Concat(ms) + Concat(ns)
  {
    hide Concat;
    if ms == [] {
      ConcatCons([], []);
      assert [] + ns == ns;
    } else {
      ConcatAppend(ms[1..], ns);
      ConcatCons(ms[0], ms[1..]);
      ConcatCons(ms[0], ms[1..] + ns);
      assert ms == [ms[0]] + ms[1..] && ms + ns == [ms[0]] + (ms[1..] + ns);
    }
  }

  /** The length of the messages, where even an empty one counts. */
  function Weight(ms: seq<seq<byte>>): nat {
    if ms == [] then 0 else |ms[0]| + 1 + Weight(ms[1..])
  }

  /** The transport: whole messages, either way. */
  class Transport {
    var inbox: seq<seq<byte>>
    var outbox: seq<seq<byte>>
    /** The texts of the errors so far. */
    ghost var errors: seq<string>

    constructor (inbox: seq<seq<byte>>)
      ensures this.inbox == inbox && outbox == [] && errors == []
    {
      this.inbox, outbox, errors := inbox, [], [];
    }

    /** The next message, or an error, which may come at any time and loses nothing. */
    method Read() returns (m: seq<byte>, error: Option<string>)
      modifies `inbox, `errors
      ensures error.None? ==> old(inbox) == [m] + inbox && errors == old(errors)
      ensures error.Some? ==> inbox == old(inbox) && errors == old(errors) + [error.value]
    {
      m, error := [], None;
      var fails: bool, text: string := *, *;
      if !fails && inbox != [] {
        m, inbox := inbox[0], inbox[1..];
      } else {
        error := Some(text);
        errors := errors + [text];
      }
    }

    method Write(p: seq<byte>) returns (error: Option<string>)
      modifies `outbox
      ensures error.None? ==> outbox == old(outbox) + [p]
      ensures error.Some? ==> outbox == old(outbox)
    {
      error := *;
      if error.None? {
        outbox := outbox + [p];
      }
    }
  }

  class Conn {
    const conn: Transport
    var buf: Option<seq<byte>>

    /** Nothing kept, or something of at least one byte. */
    ghost predicate Valid()
      reads this
    {
      buf.Some? ==> buf.value != []
    }

    constructor (conn: Transport)
      ensures Valid() && this.conn == conn && buf == None
    {
      this.conn, buf := conn, None;
    }

    ghost function Kept(): seq<byte>
      reads this
    {
      if buf.Some? then buf.value else []
    }

    /** Every byte received that has not been returned yet. */
    ghost function Undelivered(): seq<byte>
      reads this, conn
    {
      Kept() + Concat(conn.inbox)
    }

    ghost function Measure(): nat
      reads this, conn
    {
      |Kept()| + Weight(conn.inbox)
    }

    /**
      Returns the next bytes, at most as many as fit; an error only when nothing was
      kept, and then without losing anything.
     */
    method Read(b: array<byte>) returns (n: nat, error: Option<ReadError>)
      requires Valid()
      modifies this, conn`inbox, conn`errors, b
      ensures Valid() && n <= b.Length && conn.outbox == old(conn.outbox)
      ensures b[..n] + Undelivered() == old(Undelivered())
      ensures forall i :: n <= i < b.Length ==> b[i] == old(b[i])
      ensures error.None? && b.Length > 0 ==> Measure() < old(Measure())
      ensures Measure() <= old(Measure())
      ensures error.Some? ==>
                exists text :: conn.errors == old(conn.errors) + [text]
                    && error.value == if IsNormalClosure(text) then Eof else Broken(text)
      ensures error.Some? ==> n == 0 && old(buf).None? && buf.None? && conn.inbox == old(conn.inbox)
      ensures old(buf).Some? ==>
                && n == (if b.Length < |old(buf.value)| then b.Length else |old(buf.value)|)
                && conn.inbox == old(conn.inbox)
      ensures old(buf).None? && error.None? ==>
                var m := old(conn.inbox);
                m != [] && n == (if b.Length < |m[0]| then b.Length else |m[0]|) && conn.inbox == m[1..]
    {
      error := None;
      if buf.Some? {
        var kept := buf.value;
        n := Copy(b, kept);
        assert kept == kept[..n] + kept[n..];
        if n < |kept| {
          buf := Some(kept[n..]);
        } else {
          buf := None;
        }
        return;
      }
      var wsb, text := conn.Read();
      if text.Some? {
        var normal := Find(text.value, "StatusNormalClosure");
        if !normal {
          normal := Find(text.value, "1000");
        }
        return 0, Some(if normal then Eof else Broken(text.value));
      }
      n := Copy(b, wsb);
      assert wsb == wsb[..n] + wsb[n..];
      if n < |wsb| {
        buf := Some(wsb[n..]);
      }
    }

    /** One message per call; it reports all bytes as written even when the transport failed. */
    method Write(p: seq<byte>) returns (n: nat, error: Option<string>)
      modifies conn`outbox
      ensures n == |p|
      ensures conn.outbox == if error.None? then old(conn.outbox) + [p] else old(conn.outbox)
      ensures Concat(conn.outbox) == if error.None? then Concat(old(conn.outbox)) + p else Concat(old(conn.outbox))
    {
      n := |p|;
      error := conn.Write(p);
      ConcatAppend(old(conn.outbox), [p]);
      ConcatCons(p, []);
    }
  }

  method Copy(b: array<byte>, s: seq<byte>) returns (n: nat)
    modifies b
    ensures n == (if b.Length < |s| then b.Length else |s|) && b[..n] == s[..n]
    ensures forall i :: n <= i < b.Length ==> b[i] == old(b[i])
  {
    n := if b.Length < |s| then b.Length else |s|;
    forall i | 0 <= i < n {
      b[i] := s[i];
    }
  }

  /** One read into a fresh buffer. */
  method ReceiveOne(reader: Conn, size: nat) returns (got: seq<byte>, ok: bool)
    requires reader.Valid()
    modifies reader, reader.conn`inbox, reader.conn`errors
    ensures reader.Valid() && got + reader.Undelivered() == old(reader.Undelivered()) && (!ok ==> reader.buf.None?)
    ensures reader.Measure() <= old(reader.Measure()) && (ok && size > 0 ==> reader.Measure() < old(reader.Measure()))
  {
    var b := new byte[size];
    var n, error := reader.Read(b);
    got, ok := b[..n], error.None?;
  }

  /** Any reads with any buffer sizes, zero included, until one fails. */
  method ReadMany(c: Conn, sizes: seq<nat>) returns (got: seq<byte>, failed: bool)
    requires c.Valid()
    modifies c, c.conn`inbox, c.conn`errors
    ensures c.Valid() && got + c.Undelivered() == old(c.Undelivered())
    ensures !failed && (forall i :: 0 <= i < |sizes| ==> sizes[i] > 0) ==> c.Measure() + |sizes| <= old(c.Measure())
    ensures failed ==> c.buf.None?
  {
    hide *;
    got, failed := [], false;
    for k := 0 to |sizes|
      invariant c.Valid() && got + c.Undelivered() == old(c.Undelivered())
      invariant (forall i :: 0 <= i < k ==> sizes[i] > 0) ==> c.Measure() + k <= old(c.Measure())
    {
      ghost var before := c.Undelivered();
      var more, ok := ReceiveOne(c, sizes[k]);
      assert got + before == (got + more) + c.Undelivered();
      got := got + more;
      if !ok {
        return got, true;
      }
    }
  }

  /**
    Reading on with non-empty buffers ends; it ends with an error, and if that only
    comes when there is nothing left, everything has been returned.
   */
  method Drain(c: Conn) returns (got: seq<byte>)
    requires c.Valid()
    modifies c, c.conn`inbox, c.conn`errors
    ensures c.Valid() && c.buf.None? && got + c.Undelivered() == old(c.Undelivered())
    ensures c.conn.inbox == [] ==> got == old(c.Undelivered())
  {
    hide *;
    got := [];
    var error: Option<ReadError> := None;
    while error.None?
      invariant c.Valid() && got + c.Undelivered() == old(c.Undelivered())
      invariant error.Some? ==> c.buf.None?
      decreases c.Measure(), error.None?
    {
      var size: nat :| size > 0;
      var b := new byte[size];
      ghost var before := c.Undelivered();
      var n;
      n, error := c.Read(b);
      assert got + before == (got + b[..n]) + c.Undelivered();
      got := got + b[..n];
    }
    AllRead(c);
  }

  lemma AllRead(c: Conn)
    requires c.buf.None?
    ensures c.Undelivered() == Concat(c.conn.inbox)
    ensures c.conn.inbox == [] ==> c.Undelivered() == []
  {
  }

  /** What happens next between the two ends of a stream. */
  datatype Move = Send | Receive(size: nat)

  /** A message arrives: it joins what the reader has not returned yet. */
  method Arrive(far: Transport, reader: Conn, p: seq<byte>)
    requires reader.conn == far
    modifies far`inbox
    ensures far.inbox == old(far.inbox) + [p] && reader.buf == old(reader.buf)
    ensures reader.Undelivered() == old(reader.Undelivered()) + p
  {
    hide Concat;
    ConcatAppend(far.inbox, [p]);
    ConcatCons(p, []);
    assert reader.Kept() + (Concat(far.inbox) + p) == (reader.Kept() + Concat(far.inbox)) + p;
    far.inbox := far.inbox + [p];
  }

  /** One piece on its way, if its write succeeds. */
  method SendOne(writer: Conn, far: Transport, reader: Conn, p: seq<byte>) returns (ok: bool)
    requires reader.conn == far && writer.conn != far
    modifies writer.conn`outbox, far`inbox
    ensures writer.conn.outbox == old(writer.conn.outbox) + (if ok then [p] else [])
    ensures reader.buf == old(reader.buf)
    ensures reader.Undelivered() == old(reader.Undelivered()) + (if ok then p else [])
  {
    var n, error := writer.Write(p);
    ok := error.None?;
    if ok {
      Arrive(far, reader, p);
    }
  }

  /**
    Writing at one end and reading at the other, in any pieces and in any order of the
    two: what is read is the bytes of the writes that succeeded, in order; all of them
    when no write failed and the reader met its error at the end.
   */
  method Through(pieces: seq<seq<byte>>, schedule: seq<Move>)
    returns (sent: seq<seq<byte>>, failed: bool, got: seq<byte>, left: seq<seq<byte>>)
    ensures |sent| <= |pieces| && sent == pieces[..|sent|] && (failed <==> |sent| < |pieces|)
    ensures got + Concat(left) == Concat(sent)
    ensures !failed && left == [] ==> got == Concat(pieces)
  {
    hide *;
    var near := new Transport([]);
    var far := new Transport([]);
    var writer := new Conn(near);
    var reader := new Conn(far);
    AllRead(reader);
    ConcatCons([], []);
    var reading := true;
    sent, failed, got := [], false, [];
    var i := 0;
    while i < |schedule| || (|sent| < |pieces| && !failed)
      invariant i <= |schedule| && reader.Valid() && (!reading ==> reader.buf.None?)
      invariant |sent| <= |pieces| && sent == pieces[..|sent|] && (failed ==> |sent| < |pieces|)
      invariant got + reader.Undelivered() == Concat(sent)
      modifies near, far, reader
      decreases |schedule| - i, |pieces| - |sent|, !failed
    {
      ghost var was := reader.Undelivered();
      if i == |schedule| || schedule[i].Send? {
        if |sent| < |pieces| && !failed {
          var p := pieces[|sent|];
          var ok := SendOne(writer, far, reader, p);
          failed := !ok;
          if ok {
            ConcatAppend(sent, [p]);
            ConcatCons(p, []);
            assert got + (was + p) == (got + was) + p;
            sent := sent + [p];
          } else {
            assert was + [] == was;
          }
        }
      } else if reading {
        var more;
        more, reading := ReceiveOne(reader, schedule[i].size);
        assert got + was == (got + more) + reader.Undelivered();
        got := got + more;
      }
      i := if i < |schedule| then i + 1 else i;
    }
    if reading {
      ghost var was := reader.Undelivered();
      var more := Drain(reader);
      assert got + was == (got + more) + reader.Undelivered();
      got := got + more;
    }
    AllRead(reader);
    left := far.inbox;
    ConcatCons([], []);
    assert !failed ==> sent == pieces;
    assert left == [] ==> got + [] == got;
  }
}
