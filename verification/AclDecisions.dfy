/**
  Who is let in, stated on the numbers, the texts of the rules and the keys themselves,
  and what the operations on a key mean for that.
 */
module AclDecisions {
  import opened Common
  import opened Quota
  import opened Rules
  import opened Limits
  import opened AclModel

  /** A key that the table knows and that is not the admin key. */
  predicate Ordinary(a: Acl, key: string) {
    key in a.live && (a.adminKey == "" || a.adminKey != key)
  }

  // -- who is known ------------------------------------------------------------------

  /**
    The admin key passes every check; any other key that the table does not know is
    refused; without an admin key no key is privileged, the empty one included.
   */
  lemma KnownKeys(a: Acl, key: string, network: string, addr: string)
    ensures a.adminKey != "" && key == a.adminKey ==>
              CheckKey(a, key) == Granted && Check(a, key, network, addr) == Granted
    ensures key !in a.live && (a.adminKey == "" || key != a.adminKey) ==>
              CheckKey(a, key) == InvalidKey && Check(a, key, network, addr) == InvalidKey
    ensures key in a.live ==> CheckKey(a, key) != InvalidKey && Check(a, key, network, addr) != InvalidKey
    ensures a.adminKey == "" ==> (CheckKey(a, key) == InvalidKey <==> key !in a.live)
    ensures key !in a.live ==> GetUsage(a, key) == Usage(0, 0)
    ensures key in a.live ==> GetUsage(a, key) == a.live[key].usage
  {
  }

  // -- the quota -----------------------------------------------------------------------

  /** What is left of the total once the other direction has its share; it may wrap. */
  function Rest(total: Word64, share: Word64): int {
    if share <= total then total - share else total - share + TWO_64
  }

  /**
    The decision on incoming bytes in each configuration, whatever the outgoing ones
    have come to: a limit of its own counts alone; else the total less the outgoing
    limit; else the total against both directions; else nothing.
   */
  lemma InDecision(a: Acl, key: string)
    requires Ordinary(a, key)
    ensures var l, u, v := a.live[key].enforced.limits, a.live[key].usage, CheckKey(a, key);
            && (l.inb > 0 ==> (v == InDataLimited <==> u.inb >= l.inb))
            && (l.inb == 0 && l.total == 0 ==> v != InDataLimited)
            && (l.inb == 0 && l.total > 0 && l.out > 0 ==> (v == InDataLimited <==> u.inb >= Rest(l.total, l.out)))
            && (l.inb == 0 && l.total > 0 && l.out == 0 ==>
                  (v == InDataLimited <==> (u.inb + u.out) % TWO_64 >= l.total))
  {
  }

  /** The same for outgoing bytes, which only decide when the incoming ones do not. */
  lemma OutDecision(a: Acl, key: string)
    requires Ordinary(a, key) && CheckKey(a, key) != InDataLimited
    ensures var l, u, v := a.live[key].enforced.limits, a.live[key].usage, CheckKey(a, key);
            && (v == Granted || v == OutDataLimited)
            && (l.out > 0 ==> (v == OutDataLimited <==> u.out >= l.out))
            && (l.out == 0 && l.total == 0 ==> v == Granted)
            && (l.out == 0 && l.total > 0 && l.inb > 0 ==> (v == OutDataLimited <==> u.out >= Rest(l.total, l.inb)))
            && (l.out == 0 && l.total > 0 && l.inb == 0 ==>
                  (v == OutDataLimited <==> (u.inb + u.out) % TWO_64 >= l.total))
  {
  }

  /**
    A key that gets through is below each of its own limits, whatever its total; one
    that has reached a limit is refused, with the direction named, incoming first; and
    a key without limits always gets through.
   */
  lemma PartialLimitsHold(a: Acl, key: string)
    requires Ordinary(a, key)
    ensures var l, u, v := a.live[key].enforced.limits, a.live[key].usage, CheckKey(a, key);
            && (v == Granted ==> (l.inb > 0 ==> u.inb < l.inb) && (l.out > 0 ==> u.out < l.out))
            && (l.inb > 0 && u.inb >= l.inb ==> v == InDataLimited)
            && (l.out > 0 && u.out >= l.out ==> v == InDataLimited || v == OutDataLimited)
            && (l.inb > 0 && u.inb < l.inb && l.out > 0 && u.out >= l.out ==> v == OutDataLimited)
            && (l.total == 0 && l.inb == 0 && l.out == 0 ==> v == Granted)
            && (l.total == 0 ==> (v == Granted <==> (l.inb > 0 ==> u.inb < l.inb) && (l.out > 0 ==> u.out < l.out)))
  {
    InDecision(a, key);
    if CheckKey(a, key) != InDataLimited {
      OutDecision(a, key);
    }
  }

  // -- the lists -----------------------------------------------------------------------

  /**
    The whole decision: the quota first, with its own verdict; then, with an allow list,
    exactly the pairs some rule of it says; without one, all but those some rule of the
    deny list says; with neither, all.
   */
  lemma CheckExact(a: Acl, key: string, network: string, addr: string)
    requires Ordinary(a, key)
    ensures CheckKey(a, key) != Granted ==> Check(a, key, network, addr) == CheckKey(a, key)
    ensures CheckKey(a, key) == Granted ==>
              var l, v := a.live[key].enforced.lists, Check(a, key, network, addr);
              && (v == Granted || v == AccessDenied)
              && (l.white.Some? ==> (v == Granted <==> SomeSays(l.white.value, network, addr)))
              && (l.white.None? && l.black.Some? ==> (v == AccessDenied <==> SomeSays(l.black.value, network, addr)))
              && (l.white.None? && l.black.None? ==> v == Granted)
  {
    var l := a.live[key].enforced.lists;
    if l.white.Some? {
      SomeMatchExact(l.white.value, network, addr);
    } else if l.black.Some? {
      SomeMatchExact(l.black.value, network, addr);
    }
  }

  /** A pair that no rule of the allow list says is kept out, however long the list is. */
  lemma AllowListKeepsOut(a: Acl, key: string, network: string, addr: string)
    requires Ordinary(a, key) && a.live[key].enforced.lists.white.Some?
    requires forall i :: 0 <= i < |a.live[key].enforced.lists.white.value| ==>
               TrimSpace(a.live[key].enforced.lists.white.value[i]) != addr
               && TrimSpace(a.live[key].enforced.lists.white.value[i]) != addr + "/" + network
    ensures Check(a, key, network, addr) != Granted
  {
    CheckExact(a, key, network, addr);
  }

  // -- the life of a key -----------------------------------------------------------------

  /** A new key has used nothing, may do everything, is stored last under its name, and changes no other. */
  lemma CreatedKey(a: Acl, name: string, key: string, network: string, addr: string)
    requires Agree(a) && key !in a.live
    ensures var b := CreateKey(a, name, key);
            && CheckKey(b, key) == Granted && Check(b, key, network, addr) == Granted
            && GetUsage(b, key) == Usage(0, 0) && LimitIn(b.sto, key) == Limit("", "", "", Lists(None, None))
            && (forall k :: k != key ==> CheckKey(b, k) == CheckKey(a, k) && GetUsage(b, k) == GetUsage(a, k))
            && |b.sto| == |a.sto| + 1 && b.sto[..|a.sto|] == a.sto
            && Saved(b)[|a.sto|] == FileKey(name, key, None, Some(Usage(0, 0)))
  {
    OpKeepsAgreement(NUMBERS, a, OpCreate(name, key));
    LimitInAt(CreateKey(a, name, key).sto, |a.sto|);
  }

  lemma {:induction false} WithoutAbsent(sto: seq<StoredKey>, key: string)
    requires forall i :: 0 <= i < |sto| ==> sto[i].key != key
    ensures Without(sto, key) == sto
  {
    if sto != [] {
      WithoutAbsent(sto[1..], key);
    }
  }

  lemma {:induction false} RecordCut(sto: seq<StoredKey>, i: nat)
    requires UniqueKeys(sto) && i < |sto|
    ensures Without(sto, sto[i].key) == sto[..i] + sto[i + 1..]
  {
    if i == 0 {
      WithoutAbsent(sto[1..], sto[0].key);
      assert sto[..0] + sto[1..] == sto[1..];
    } else {
      var rest := sto[1..];
      RecordCut(rest, i - 1);
      assert sto[..i] == [sto[0]] + rest[..i - 1] && sto[i + 1..] == rest[i..];
    }
  }

  lemma CutLimit(sto: seq<StoredKey>, i: nat)
    requires UniqueKeys(sto) && i < |sto|
    ensures LimitIn(sto[..i] + sto[i + 1..], sto[i].key) == Limit("", "", "", Lists(None, None))
  {
    hide LimitIn;
    LimitAbsent(sto[..i] + sto[i + 1..], sto[i].key);
  }

  /** A deleted key is refused, its record is cut out where it stood, and no other changes. */
  lemma RemovedKey(a: Acl, i: nat, network: string, addr: string)
    requires Agree(a) && i < |a.sto| && (a.adminKey == "" || a.adminKey != a.sto[i].key)
    ensures var key := a.sto[i].key;
            var b := RemoveKey(a, key);
            && CheckKey(b, key) == InvalidKey && Check(b, key, network, addr) == InvalidKey
            && GetUsage(b, key) == Usage(0, 0) && LimitIn(b.sto, key) == Limit("", "", "", Lists(None, None))
            && (forall k :: k != key ==> CheckKey(b, k) == CheckKey(a, k) && GetUsage(b, k) == GetUsage(a, k))
            && b.sto == a.sto[..i] + a.sto[i + 1..]
  {
    hide LimitIn, Without;
    RecordCut(a.sto, i);
    CutLimit(a.sto, i);
  }

  lemma {:induction false} LimitAbsent(sto: seq<StoredKey>, key: string)
    requires forall i :: 0 <= i < |sto| ==> sto[i].key != key
    ensures LimitIn(sto, key) == Limit("", "", "", Lists(None, None))
  {
    if sto != [] {
      LimitAbsent(sto[1..], key);
    }
  }

  /** Whatever changes the list leaves something for the saver to do; only a save does not. */
  lemma ChangesArePending(parse: Parse, a: Acl, op: Op)
    requires !op.OpSave?
    ensures Do(parse, a, op) == a || Do(parse, a, op).pending == a.pending + 1
    ensures Do(parse, a, op) == a <==> op.OpUse? && op.key !in a.live
  {
    hide Apply;
  }

  /**
    A reset frees a key that was over its quota, except one whose only partial limit is
    all of its total: that leaves the other direction nothing from the start.
   */
  lemma ResetFrees(a: Acl, key: string)
    requires Ordinary(a, key)
    ensures var b, l := ResetUsage(a, key), a.live[key].enforced.limits;
            && GetUsage(b, key) == Usage(0, 0) && b.live[key].enforced == a.live[key].enforced
            && (CheckKey(b, key) == Granted <==>
                  !(l.total > 0 && ((l.inb == 0 && l.out == l.total) || (l.out == 0 && l.inb == l.total))))
            && (forall k :: k != key ==> CheckKey(b, k) == CheckKey(a, k) && GetUsage(b, k) == GetUsage(a, k))
  {
  }
}
