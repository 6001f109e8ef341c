/** Traffic events and their effect on the quota of a key. */
module Stats {
  import opened Common
  import opened Quota
  import opened AclModel
  import S = AclServer

  /** Byte counts are int64 in an event and converted to uint64 when they are charged. */
  datatype TrafficEvent = TrafficEvent(key: string, inb: int, out: int)

  function ChargeOne(a: Acl, e: TrafficEvent): Acl {
    if e.inb == 0 && e.out == 0 then a else AddUsage(a, e.key, ToWord64(e.inb), ToWord64(e.out))
  }

  function Charge(a: Acl, events: seq<TrafficEvent>): Acl {
    if events == [] then a else ChargeOne(Charge(a, events[..|events| - 1]), events[|events| - 1])
  }

  /** The loop that drains the channel; events of a closed channel are a finite sequence. */
  method Consume(acl: S.Server, events: seq<TrafficEvent>)
    requires acl.Valid()
    modifies acl.Repr
    ensures acl.Valid() && acl.Repr == old(acl.Repr)
    ensures acl.Value == Charge(old(acl.Value), events)
  {
    hide S.Server.Valid;
    var i := 0;
    while i < |events|
      invariant i <= |events| && acl.Valid() && acl.Repr == old(acl.Repr)
      invariant acl.Value == Charge(old(acl.Value), events[..i])
    {
      var e := events[i];
      assert events[..i + 1][..i] == events[..i];
      i := i + 1;
      if e.inb == 0 && e.out == 0 {
        continue;
      }
      acl.UpdateBytesUsage(e.key, ToWord64(e.inb), ToWord64(e.out));
    }
    assert events[..i] == events;
  }

  /** Bytes the events of one key report in one direction. */
  function Reported(events: seq<TrafficEvent>, key: string, incoming: bool): int {
    if events == [] then 0
    else
      var e := events[|events| - 1];
      Reported(events[..|events| - 1], key, incoming)
      + (if e.key != key then 0 else if incoming then e.inb else e.out)
  }

  /**
    Nothing is charged twice and nothing is dropped: afterwards a present key has
    its old usage plus what its events report, modulo 2^64, and everything else
    about every key is as before.
   */
  lemma {:induction false} ChargeConserves(a: Acl, events: seq<TrafficEvent>, key: string)
    requires key in a.live
    ensures var b := Charge(a, events);
            b.live.Keys == a.live.Keys && b.live[key].enforced == a.live[key].enforced && b.sto == a.sto &&
            b.live[key].usage.inb == (a.live[key].usage.inb + Reported(events, key, true)) % TWO_64 &&
            b.live[key].usage.out == (a.live[key].usage.out + Reported(events, key, false)) % TWO_64 &&
            b.adminKey == a.adminKey
  {
    if events != [] {
      var front, e := events[..|events| - 1], events[|events| - 1];
      ChargeConserves(a, front, key);
      if e.key == key {
        AddReduced(a.live[key].usage.inb + Reported(front, key, true), e.inb);
        AddReduced(a.live[key].usage.out + Reported(front, key, false), e.out);
      }
    }
  }

  lemma AddReduced(x: int, y: int)
    ensures WrapAdd(x % TWO_64, ToWord64(y)) == (x + y) % TWO_64
  {
    ModAdd(x, y % TWO_64);
    ModShift(x + y % TWO_64, y / TWO_64);
    assert y == TWO_64 * (y / TWO_64) + y % TWO_64;
  }

  lemma {:induction false} ReportedGrows(events: seq<TrafficEvent>, key: string, incoming: bool)
    requires forall i :: 0 <= i < |events| ==> events[i].inb >= 0 && events[i].out >= 0
    ensures Reported(events, key, incoming) >= 0
  {
    if events != [] {
      ReportedGrows(events[..|events| - 1], key, incoming);
    }
  }

  /** A key over its quota stays over it under further traffic, as long as its bytes fit a uint64. */
  lemma DeniedStaysDenied(a: Acl, events: seq<TrafficEvent>, key: string)
    requires key in a.live && !IsAdmin(a, key) && CheckKey(a, key) != Granted
    requires forall i :: 0 <= i < |events| ==> events[i].inb >= 0 && events[i].out >= 0
    requires a.live[key].usage.inb + a.live[key].usage.out
             + Reported(events, key, true) + Reported(events, key, false) < TWO_64
    ensures CheckKey(Charge(a, events), key) != Granted
  {
    hide Charge, Reported, InLimited, OutLimited;
    var b := Charge(a, events);
    ChargeConserves(a, events, key);
    ReportedGrows(events, key, true);
    ReportedGrows(events, key, false);
    var u, u' := a.live[key].usage, b.live[key].usage;
    assert u'.inb == u.inb + Reported(events, key, true) && u'.out == u.out + Reported(events, key, false);
    DenialStableWithoutWrap(a.live[key].enforced.limits, u, u');
  }
}
