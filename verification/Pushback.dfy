/**
  The connection wrapper that gives back the bytes read while the protocol was
  detected. Wrappers nest: the HTTP proxy puts one that replays the request over
  the one that gave it its first bytes.
 */
module Pushback {
  import opened Common

  /** The connection underneath; a read may return less than asked, and may fail. */
  class Base {
    var input: seq<byte>

    constructor (input: seq<byte>)
      ensures this.input == input
    {
      this.input := input;
    }

    method Read(p: array<byte>) returns (n: nat, failed: bool)
      modifies `input, p
      ensures n <= p.Length && n <= |old(input)| && p[..n] == old(input)[..n] && input == old(input)[n..]
      ensures forall i :: n <= i < p.Length ==> p[i] == old(p[i])
    {
      failed := *;
      n :| 0 <= n <= p.Length && n <= |input|;
      forall i | 0 <= i < n {
        p[i] := input[i];
      }
      input := input[n..];
    }
  }

  datatype Inner = OnConn(conn: Base) | OnWrapper(wrapper: Wrapper)

  class Wrapper {
    const inner: Inner
    /** What is still to be given back; nothing at all is not the same as no bytes. */
    var b: Option<seq<byte>>
    ghost const depth: nat
    ghost const wrappers: set<Wrapper>
    ghost const base: Base

    ghost predicate Valid()
      decreases depth
    {
      match inner
      case OnConn(c) => wrappers == {this} && base == c
      case OnWrapper(w) =>
        && w.depth < depth && w.Valid() && this !in w.wrappers
        && wrappers == {this} + w.wrappers && base == w.base
    }

    constructor (inner: Inner, b: Option<seq<byte>>)
      requires inner.OnWrapper? ==> inner.wrapper.Valid()
      ensures Valid() && this.inner == inner && this.b == b
    {
      this.inner := inner;
      this.b := b;
      depth := if inner.OnWrapper? then inner.wrapper.depth + 1 else 0;
      wrappers := {this} + (if inner.OnWrapper? then inner.wrapper.wrappers else {});
      base := if inner.OnWrapper? then inner.wrapper.base else inner.conn;
    }

    ghost function Within(): set<Wrapper> {
      if inner.OnConn? then {} else inner.wrapper.wrappers
    }

    ghost function Here(): seq<byte>
      reads this
    {
      if b.Some? then b.value else []
    }

    ghost function Inside(): seq<byte>
      requires Valid()
      reads Within(), base
      decreases depth, 0
    {
      if inner.OnConn? then inner.conn.input else inner.wrapper.Remaining()
    }

    /** Everything still to be read: these bytes, then what is inside. */
    ghost function Remaining(): seq<byte>
      requires Valid()
      reads wrappers, base
      decreases depth, 1
    {
      Here() + Inside()
    }

    ghost function HeldHere(): nat
      reads this
    {
      if b.Some? then |b.value| + 1 else 0
    }

    ghost function HeldInside(): nat
      requires Valid()
      reads Within()
      decreases depth, 0
    {
      if inner.OnConn? then 0 else inner.wrapper.Held()
    }

    /** How much is held back, counting every wrapper that has not let go yet. */
    ghost function Held(): nat
      requires Valid()
      reads wrappers
      decreases depth, 1
    {
      HeldHere() + HeldInside()
    }

    method TakeHeld(p: array<byte>) returns (n: nat)
      requires b.Some?
      modifies `b, p
      ensures n <= p.Length && p[..n] + Here() == old(b.value)
      ensures forall i :: n <= i < p.Length ==> p[i] == old(p[i])
      ensures p.Length > 0 ==> HeldHere() < old(HeldHere())
    {
      var c := b.value;
      n := if p.Length < |c| then p.Length else |c|;
      forall i | 0 <= i < n {
        p[i] := c[i];
      }
      b := if n < |c| then Some(c[n..]) else None;
      assert p[..n] == c[..n] && c == c[..n] + c[n..];
    }

    method ReadInside(p: array<byte>) returns (n: nat, failed: bool)
      requires Valid()
      modifies Within(), base, p
      ensures n <= p.Length && p[..n] + Inside() == old(Inside())
      ensures forall i :: n <= i < p.Length ==> p[i] == old(p[i])
      ensures old(HeldInside()) > 0 ==> !failed && base.input == old(base.input)
      ensures old(HeldInside()) > 0 && p.Length > 0 ==> HeldInside() < old(HeldInside())
      ensures old(HeldInside()) == 0 ==> HeldInside() == 0
      decreases depth, 0
    {
      match inner
      case OnConn(c) =>
        n, failed := c.Read(p);
      case OnWrapper(w) =>
        n, failed := w.Read(p);
    }

    method Read(p: array<byte>) returns (n: nat, failed: bool)
      requires Valid()
      modifies wrappers, base, p
      ensures n <= p.Length && p[..n] + Remaining() == old(Remaining())
      ensures forall i :: n <= i < p.Length ==> p[i] == old(p[i])
      ensures old(Held()) > 0 ==> !failed && base.input == old(base.input)
      ensures old(Held()) > 0 && p.Length > 0 ==> Held() < old(Held())
      ensures old(Held()) == 0 ==> Held() == 0
      decreases depth, 1
    {
      hide Inside, HeldInside;
      if b.Some? {
        ghost var rest, held := Inside(), HeldInside();
        n := TakeHeld(p);
        failed := false;
        assert this !in Within() && Inside() == rest && HeldInside() == held;
        assert p[..n] + (Here() + rest) == (p[..n] + Here()) + rest;
        return;
      }
      n, failed := ReadInside(p);
      assert Here() == [] && forall s: seq<byte> :: [] + s == s;
    }
  }

  /** Without anything held back, all that is left is the connection's own. */
  lemma {:induction false} NothingHeld(w: Wrapper)
    requires w.Valid()
    ensures w.Held() == 0 ==> w.Remaining() == w.base.input
    ensures |w.Remaining()| >= |w.base.input| && w.Remaining()[|w.Remaining()| - |w.base.input|..] == w.base.input
    decreases w.depth
  {
    if w.inner.OnWrapper? {
      NothingHeld(w.inner.wrapper);
      assert w.HeldInside() == w.inner.wrapper.Held() && w.Inside() == w.inner.wrapper.Remaining();
    }
    if w.Held() == 0 {
      assert w.Here() == [] && w.Inside() == w.base.input;
      assert [] + w.Inside() == w.Inside();
    }
  }

  /**
    Any reads of any sizes, the outcome of each being whatever it is, bring what is
    to be read from the front on: nothing is lost, repeated or out of order, however
    deep the wrappers nest and however far the inner ones had been read before.
   */
  method ReadAll(w: Wrapper, sizes: seq<nat>) returns (got: seq<byte>)
    requires w.Valid()
    modifies w.wrappers, w.base
    ensures got + w.Remaining() == old(w.Remaining())
    ensures (forall i :: 0 <= i < |sizes| ==> sizes[i] > 0) && |sizes| >= old(w.Held()) ==>
              w.Held() == 0 && w.Remaining() == w.base.input
  {
    hide *;
    got := [];
    for k := 0 to |sizes|
      invariant got + w.Remaining() == old(w.Remaining())
      invariant (forall i :: 0 <= i < k ==> sizes[i] > 0) ==> w.Held() == 0 || w.Held() + k <= old(w.Held())
    {
      var p := new byte[sizes[k]];
      ghost var before := w.Remaining();
      var n, _ := w.Read(p);
      assert got + before == (got + p[..n]) + w.Remaining();
      got := got + p[..n];
    }
    NothingHeld(w);
  }

  /** Two wrappers, the inner one partly read: the outer bytes, what the inner one has left, then the connection. */
  lemma NestedOrder(outer: Wrapper, x: seq<byte>, y: seq<byte>)
    requires outer.Valid() && outer.inner.OnWrapper? && outer.inner.wrapper.inner.OnConn?
    requires outer.b == Some(x) && outer.inner.wrapper.b == Some(y)
    ensures outer.Remaining() == x + y + outer.base.input
  {
    var w := outer.inner.wrapper;
    assert w.Inside() == outer.base.input && outer.Inside() == w.Here() + w.Inside();
    assert outer.Remaining() == x + (y + outer.base.input);
  }
}
