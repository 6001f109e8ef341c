/**
  When a restart of the server changes what is enforced: the exact condition on the
  limit calls that were made, for every history of the access control list.
 */
module AclRestart {
  import opened Common
  import opened Quota
  import opened Rules
  import opened Limits
  import opened AclModel

  /** The life of a key: the stored limit it began with and the limit calls since. */
  datatype Past = Past(start: Option<Limit>, calls: seq<Option<Limit>>)

  const NEWBORN := Past(None, [])

  /** The limit its record holds: that of the last accepted call. */
  function StoredNow(parse: Parse, p: Past): Option<Limit>
    decreases |p.calls|
  {
    if p.calls == [] then p.start
    else
      var last := p.calls[|p.calls| - 1];
      if Succeeds(parse, last) then last else StoredNow(parse, p.(calls := p.calls[..|p.calls| - 1]))
  }

  function InForce(parse: Parse, p: Past): Enforced {
    AfterCalls(parse, Apply(parse, UNLIMITED, p.start).0, p.calls)
  }

  /** The restarted server would enforce the same. */
  predicate Survives(parse: Parse, p: Past) {
    InForce(parse, p) == Apply(parse, UNLIMITED, JsonOption(StoredNow(parse, p))).0
  }

  // -- the condition, in terms of the calls ---------------------------------------

  /** The number the calls last gave to a field, by a call that failed later on as well. */
  function Given(parse: Parse, calls: seq<Option<Limit>>, f: Field): Option<Word64> {
    if calls == [] then None
    else
      var last := calls[|calls| - 1];
      if Sets(parse, last, f) then parse(Text(last.value, f)) else Given(parse, calls[..|calls| - 1], f)
  }

  /** The lists of the last accepted limit. */
  function GivenLists(parse: Parse, calls: seq<Option<Limit>>): Lists {
    if calls == [] then NO_LISTS
    else
      var last := calls[|calls| - 1];
      if last.Some? && Succeeds(parse, last) then last.value.lists else GivenLists(parse, calls[..|calls| - 1])
  }

  /**
    The calls before the stored limit, that limit, and the refused calls after it.
    A stored limit that does not parse can only come from the file.
   */
  ghost predicate Parts(parse: Parse, p: Past, before: seq<Option<Limit>>, stored: Option<Limit>,
      after: seq<Option<Limit>>)
  {
    && [p.start] + p.calls == before + [stored] + after
    && (before != [] ==> Succeeds(parse, stored))
    && forall i :: 0 <= i < |after| ==> !Succeeds(parse, after[i])
  }

  /** A field the stored limit leaves open must not have been limited before it. */
  predicate NothingLeft(parse: Parse, before: seq<Option<Limit>>, f: Field) {
    Given(parse, before, f) == None || Given(parse, before, f) == Some(0)
  }

  /** A refused call since must not have given the field another number than the stored limit. */
  predicate NothingSlipped(parse: Parse, stored: Option<Limit>, after: seq<Option<Limit>>, f: Field) {
    Given(parse, after, f) == Some(if Sets(parse, stored, f) then parse(Text(stored.value, f)).value else 0)
  }

  predicate FieldCareful(parse: Parse, before: seq<Option<Limit>>, stored: Option<Limit>, after: seq<Option<Limit>>,
      f: Field)
  {
    if Given(parse, after, f).Some? then NothingSlipped(parse, stored, after, f)
    else Sets(parse, stored, f) || NothingLeft(parse, before, f)
  }

  /** An empty list does not survive the file; removing a limit does not lift lists. */
  predicate ListsCareful(parse: Parse, before: seq<Option<Limit>>, stored: Option<Limit>) {
    if stored.None? then GivenLists(parse, before) == NO_LISTS
    else Succeeds(parse, stored) ==> stored.value.lists.white != Some([]) && stored.value.lists.black != Some([])
  }

  ghost predicate Careful(parse: Parse, p: Past) {
    exists before, stored, after ::
      && Parts(parse, p, before, stored, after)
      && (forall f: Field :: FieldCareful(parse, before, stored, after, f))
      && ListsCareful(parse, before, stored)
  }

  // -- it is exact -------------------------------------------------------------------

  lemma {:induction false} NumberInForce(parse: Parse, calls: seq<Option<Limit>>, f: Field)
    ensures Enforcing(AfterCalls(parse, UNLIMITED, calls).limits, f)
              == if Given(parse, calls, f).Some? then Given(parse, calls, f).value else 0
  {
    if calls != [] {
      NumberInForce(parse, calls[..|calls| - 1], f);
      ApplyField(parse, AfterCalls(parse, UNLIMITED, calls[..|calls| - 1]), calls[|calls| - 1], f);
    }
  }

  lemma {:induction false} ListsInForce(parse: Parse, calls: seq<Option<Limit>>)
    ensures AfterCalls(parse, UNLIMITED, calls).lists == GivenLists(parse, calls)
  {
    if calls != [] {
      ListsInForce(parse, calls[..|calls| - 1]);
      ApplyLists(parse, AfterCalls(parse, UNLIMITED, calls[..|calls| - 1]), calls[|calls| - 1]);
    }
  }

  lemma {:induction false} GivenConcat(parse: Parse, x: seq<Option<Limit>>, y: seq<Option<Limit>>, f: Field)
    ensures Given(parse, x + y, f) == if Given(parse, y, f).Some? then Given(parse, y, f) else Given(parse, x, f)
  {
    if y == [] {
      assert x + y == x;
    } else {
      GivenConcat(parse, x, y[..|y| - 1], f);
      assert (x + y)[..|x + y| - 1] == x + y[..|y| - 1];
    }
  }

  lemma {:induction false} GivenListsRefused(parse: Parse, x: seq<Option<Limit>>, y: seq<Option<Limit>>)
    requires forall i :: 0 <= i < |y| ==> !Succeeds(parse, y[i])
    ensures GivenLists(parse, x + y) == GivenLists(parse, x)
  {
    if y == [] {
      assert x + y == x;
    } else {
      GivenListsRefused(parse, x, y[..|y| - 1]);
      assert (x + y)[..|x + y| - 1] == x + y[..|y| - 1];
    }
  }

  /** The start of a life is like a first call. */
  lemma {:induction false} InForceFromStart(parse: Parse, p: Past)
    ensures InForce(parse, p) == AfterCalls(parse, UNLIMITED, [p.start] + p.calls)
    decreases |p.calls|
  {
    var all := [p.start] + p.calls;
    if p.calls == [] {
      assert all == [p.start] && all[..0] == [];
    } else {
      var q := p.(calls := p.calls[..|p.calls| - 1]);
      InForceFromStart(parse, q);
      assert all[..|all| - 1] == [q.start] + q.calls;
    }
  }

  lemma {:induction false} PartsOf(parse: Parse, p: Past)
      returns (before: seq<Option<Limit>>, after: seq<Option<Limit>>)
    ensures Parts(parse, p, before, StoredNow(parse, p), after)
    decreases |p.calls|
  {
    if p.calls == [] {
      before, after := [], [];
    } else {
      var front, last := p.calls[..|p.calls| - 1], p.calls[|p.calls| - 1];
      if Succeeds(parse, last) {
        before, after := [p.start] + front, [];
      } else {
        before, after := PartsOf(parse, p.(calls := front));
        assert [p.start] + p.calls == ([p.start] + front) + [last];
        after := after + [last];
      }
    }
  }

  lemma {:induction false} PartsUnique(parse: Parse, p: Past, before: seq<Option<Limit>>, stored: Option<Limit>,
      after: seq<Option<Limit>>)
    requires Parts(parse, p, before, stored, after)
    ensures stored == StoredNow(parse, p)
    decreases |after|
  {
    var all := [p.start] + p.calls;
    if after == [] {
      assert all[|all| - 1] == stored;
    } else {
      var front := after[..|after| - 1];
      assert all[|all| - 1] == after[|after| - 1] && p.calls[|p.calls| - 1] == after[|after| - 1];
      assert [p.start] + p.calls[..|p.calls| - 1] == all[..|all| - 1] == before + [stored] + front;
      PartsUnique(parse, p.(calls := p.calls[..|p.calls| - 1]), before, stored, front);
    }
  }

  lemma FieldExact(parse: Parse, p: Past, before: seq<Option<Limit>>, stored: Option<Limit>, after: seq<Option<Limit>>,
      f: Field)
    requires Parts(parse, p, before, stored, after)
    ensures Enforcing(InForce(parse, p).limits, f) == Enforcing(Apply(parse, UNLIMITED, JsonOption(stored)).0.limits, f)
            <==> FieldCareful(parse, before, stored, after, f)
  {
    InForceFromStart(parse, p);
    NumberInForce(parse, [p.start] + p.calls, f);
    GivenConcat(parse, before + [stored], after, f);
    GivenConcat(parse, before, [stored], f);
    GivenOne(parse, stored, f);
    ApplyField(parse, UNLIMITED, JsonOption(stored), f);
    JsonSets(parse, stored, f);
  }

  lemma GivenOne(parse: Parse, call: Option<Limit>, f: Field)
    ensures Given(parse, [call], f) == if Sets(parse, call, f) then parse(Text(call.value, f)) else None
  {
    assert [call][..0] == [];
  }

  lemma JsonSets(parse: Parse, call: Option<Limit>, f: Field)
    ensures Sets(parse, JsonOption(call), f) <==> Sets(parse, call, f)
    ensures call.Some? ==> Text(JsonOption(call).value, f) == Text(call.value, f)
    ensures Succeeds(parse, JsonOption(call)) <==> Succeeds(parse, call)
  {
  }

  lemma ListsExact(parse: Parse, p: Past, before: seq<Option<Limit>>, stored: Option<Limit>, after: seq<Option<Limit>>)
    requires Parts(parse, p, before, stored, after)
    ensures InForce(parse, p).lists == Apply(parse, UNLIMITED, JsonOption(stored)).0.lists
            <==> ListsCareful(parse, before, stored)
  {
    InForceFromStart(parse, p);
    ListsInForce(parse, [p.start] + p.calls);
    GivenListsRefused(parse, before + [stored], after);
    assert (before + [stored])[..|before|] == before;
    ApplyLists(parse, UNLIMITED, JsonOption(stored));
    JsonSets(parse, stored, Total);
    if before == [] {
      assert GivenLists(parse, before) == NO_LISTS;
    }
  }

  lemma LimitsByField(x: ByteLimits, y: ByteLimits)
    ensures x == y <==> forall f: Field :: Enforcing(x, f) == Enforcing(y, f)
  {
    if forall f: Field :: Enforcing(x, f) == Enforcing(y, f) {
      assert Enforcing(x, Total) == Enforcing(y, Total) && Enforcing(x, In) == Enforcing(y, In)
          && Enforcing(x, Out) == Enforcing(y, Out);
    }
  }

  /**
    For every life of a key, refused calls and limits from the file included: a
    restart enforces the same exactly when the calls were careful.
   */
  lemma SurvivesExact(parse: Parse, p: Past)
    ensures Survives(parse, p) <==> Careful(parse, p)
  {
    hide Parts, FieldCareful, ListsCareful, InForce, Apply, StoredNow, Enforcing;
    var before, after := PartsOf(parse, p);
    SurvivesByParts(parse, p, before, StoredNow(parse, p), after);
    if Careful(parse, p) {
      var b, s, a :| Parts(parse, p, b, s, a) && (forall f: Field :: FieldCareful(parse, b, s, a, f))
          && ListsCareful(parse, b, s);
      PartsUnique(parse, p, b, s, a);
      SurvivesByParts(parse, p, b, s, a);
    }
  }

  lemma SurvivesByParts(parse: Parse, p: Past, before: seq<Option<Limit>>, stored: Option<Limit>,
      after: seq<Option<Limit>>)
    requires Parts(parse, p, before, stored, after) && stored == StoredNow(parse, p)
    ensures Survives(parse, p) <==>
              (forall f: Field :: FieldCareful(parse, before, stored, after, f)) && ListsCareful(parse, before, stored)
  {
    hide Parts, FieldCareful, ListsCareful, InForce, Apply, StoredNow, Enforcing;
    forall f: Field
      ensures Enforcing(InForce(parse, p).limits, f) ==
              Enforcing(Apply(parse, UNLIMITED, JsonOption(stored)).0.limits, f)
              <==> FieldCareful(parse, before, stored, after, f)
    {
      FieldExact(parse, p, before, stored, after, f);
    }
    LimitsByField(InForce(parse, p).limits, Apply(parse, UNLIMITED, JsonOption(stored)).0.limits);
    ListsExact(parse, p, before, stored, after);
  }

  /**
    The common case, in which every limit was accepted: the last call must give every
    field that was ever limited again, or leave fields blank that are not limited, and
    must not send an empty list; removing the limit is safe only if nothing was in force.
   */
  lemma LastCallDecides(parse: Parse, p: Past)
    requires p.calls != [] && Succeeds(parse, p.calls[|p.calls| - 1])
    ensures var before, last := [p.start] + p.calls[..|p.calls| - 1], p.calls[|p.calls| - 1];
            Survives(parse, p) <==>
              if last.None? then GivenLists(parse, before) == NO_LISTS
                  && forall f: Field :: NothingLeft(parse, before, f)
              else
                && last.value.lists.white != Some([]) && last.value.lists.black != Some([])
                && forall f: Field :: Text(last.value, f) == "" ==> NothingLeft(parse, before, f)
  {
    var before, last := [p.start] + p.calls[..|p.calls| - 1], p.calls[|p.calls| - 1];
    assert Parts(parse, p, before, last, []);
    SurvivesByParts(parse, p, before, last, []);
    forall f: Field
      ensures FieldCareful(parse, before, last, [], f)
              <==> (last.None? || Text(last.value, f) == "" ==> NothingLeft(parse, before, f))
    {
      AcceptedSets(parse, last, f);
    }
  }

  lemma AcceptedSets(parse: Parse, call: Option<Limit>, f: Field)
    requires Succeeds(parse, call)
    ensures Sets(parse, call, f) <==> call.Some? && Text(call.value, f) != ""
  {
  }

  // -- histories of the whole list -----------------------------------------------------

  /** The limit the file gives a key. */
  function FileLimit(file: seq<FileKey>, key: string): Option<Limit> {
    if file == [] then None
    else if file[|file| - 1].key == key then file[|file| - 1].limit
    else FileLimit(file[..|file| - 1], key)
  }

  lemma {:induction false} FileLimitAt(file: seq<FileKey>, i: nat)
    requires UniqueFile(file) && i < |file|
    ensures FileLimit(file, file[i].key) == file[i].limit
  {
    if i < |file| - 1 {
      FileLimitAt(file[..|file| - 1], i);
    }
  }

  /** What a history has done to one key, whatever it did to others. */
  function PastOf(p: Past, ops: seq<Op>, key: string): Past {
    if ops == [] then p
    else
      var q, op := PastOf(p, ops[..|ops| - 1], key), ops[|ops| - 1];
      if op.OpCreate? && op.key == key then NEWBORN
      else if op.OpLimit? && op.key == key then q.(calls := q.calls + [op.limit])
      else q
  }

  /** A live key is what its past made of it. */
  ghost predicate Explains(parse: Parse, a: Acl, key: string, p: Past) {
    key in a.live ==>
      && a.live[key].enforced == InForce(parse, p)
      && forall i :: 0 <= i < |a.sto| && a.sto[i].key == key ==> a.sto[i].limit == StoredNow(parse, p)
  }

  lemma CallSnoc(parse: Parse, p: Past, call: Option<Limit>)
    ensures var q := p.(calls := p.calls + [call]);
            && InForce(parse, q) == Apply(parse, InForce(parse, p), call).0
            && StoredNow(parse, q) == if Succeeds(parse, call) then call else StoredNow(parse, p)
  {
    assert (p.calls + [call])[..|p.calls|] == p.calls;
  }

  lemma CreateExplains(parse: Parse, a: Acl, name: string, key: string, k: string, p: Past)
    requires Agree(a) && key !in a.live && Explains(parse, a, k, p)
    ensures Explains(parse, CreateKey(a, name, key), k, if key == k then NEWBORN else p)
  {
    hide InForce, StoredNow;
    if k == key {
      NewbornPast(parse);
      forall i | 0 <= i < |a.sto|
        ensures a.sto[i].key != key
      {
        assert Holds(a.sto, a.sto[i].key);
      }
    }
  }

  lemma NewbornPast(parse: Parse)
    ensures InForce(parse, NEWBORN) == UNLIMITED && StoredNow(parse, NEWBORN) == None
  {
  }

  lemma {:induction false} WithoutFrom(sto: seq<StoredKey>, key: string)
    ensures forall r :: r in Without(sto, key) ==> r in sto
  {
    if sto != [] {
      WithoutFrom(sto[1..], key);
    }
  }

  lemma RemoveExplains(parse: Parse, a: Acl, key: string, k: string, p: Past)
    requires Explains(parse, a, k, p)
    ensures Explains(parse, RemoveKey(a, key), k, p)
  {
    hide InForce, StoredNow;
    WithoutFrom(a.sto, key);
    var b := RemoveKey(a, key);
    forall i | 0 <= i < |b.sto| && b.sto[i].key == k
      ensures k in a.live ==> b.sto[i].limit == StoredNow(parse, p)
    {
      assert b.sto[i] in b.sto;
    }
  }

  lemma LimitExplains(parse: Parse, a: Acl, key: string, l: Option<Limit>, k: string, p: Past)
    requires Explains(parse, a, k, p)
    ensures Explains(parse, SetLimit(parse, a, key, l), k, if key == k then p.(calls := p.calls + [l]) else p)
  {
    hide InForce, StoredNow, Apply, Succeeds;
    CallSnoc(parse, p, l);
    if key in a.live {
      ApplySucceeds(parse, a.live[key].enforced, l);
    }
  }

  lemma StepExplains(parse: Parse, a: Acl, op: Op, k: string, p: Past)
    requires Agree(a) && Fresh(a, op) && Explains(parse, a, k, p)
    ensures Explains(parse, Do(parse, a, op), k, PastOf(p, [op], k))
  {
    hide InForce, StoredNow, Apply, Succeeds, Agree;
    assert [op][..0] == [];
    match op
    case OpCreate(name, key) => CreateExplains(parse, a, name, key, k, p);
    case OpRemove(key) => RemoveExplains(parse, a, key, k, p);
    case OpLimit(key, l) => LimitExplains(parse, a, key, l, k, p);
    case OpUse(_, _, _) =>
    case OpReset(_) =>
    case OpSave =>
  }

  lemma PastSnoc(p: Past, ops: seq<Op>, key: string)
    requires ops != []
    ensures PastOf(p, ops, key) == PastOf(PastOf(p, ops[..|ops| - 1], key), [ops[|ops| - 1]], key)
  {
    assert [ops[|ops| - 1]][..0] == [];
  }

  lemma {:induction false} RunExplains(parse: Parse, a: Acl, ops: seq<Op>, k: string, p: Past)
    requires Agree(a) && FreshRun(parse, a, ops) && Explains(parse, a, k, p)
    ensures Explains(parse, Run(parse, a, ops), k, PastOf(p, ops, k))
  {
    hide Explains, Agree, Do;
    if ops == [] {
    } else {
      var front, op := ops[..|ops| - 1], ops[|ops| - 1];
      FreshFront(parse, a, ops);
      RunExplains(parse, a, front, k, p);
      RunKeepsAgreement(parse, a, front);
      RunSnoc(parse, a, ops);
      StepExplains(parse, Run(parse, a, front), op, k, PastOf(p, front, k));
      PastSnoc(p, ops, k);
    }
  }

  lemma LoadExplains(parse: Parse, adminKey: string, file: seq<FileKey>, k: string)
    requires UniqueFile(file)
    ensures Explains(parse, Load(parse, adminKey, file), k, Past(FileLimit(file, k), []))
  {
    hide Apply;
    LoadLiveLookup(parse, file);
    var a := Load(parse, adminKey, file);
    if k in a.live {
      var i :| 0 <= i < |file| && file[i].key == k;
      FileLimitAt(file, i);
    }
  }

  /** A live key is enforced as stored exactly when its past survives. */
  lemma FaithfulSurvives(parse: Parse, a: Acl, i: nat, p: Past)
    requires Agree(a) && i < |a.sto| && Explains(parse, a, a.sto[i].key, p)
    ensures a.sto[i].key in a.live
    ensures KeyFaithful(parse, a, a.sto[i]) <==> Survives(parse, p)
  {
    hide Apply, InForce, StoredNow;
    assert Holds(a.sto, a.sto[i].key);
  }

  /**
    From a loaded file, over every history of all operations: a save and a restart
    bring back the very live table, and with it every decision, exactly when the
    limit calls made for every key that is left were careful.
   */
  lemma RestartExact(parse: Parse, adminKey: string, file: seq<FileKey>, ops: seq<Op>)
    requires UniqueFile(file) && FreshRun(parse, Load(parse, adminKey, file), ops)
    ensures var a := Run(parse, Load(parse, adminKey, file), ops);
            Load(parse, a.adminKey, Saved(a)).live == a.live <==>
              forall k :: k in a.live ==> Careful(parse, PastOf(Past(FileLimit(file, k), []), ops, k))
  {
    hide Careful, Survives, KeyFaithful, Explains, PastOf, FileLimit, UniqueFile, FreshRun, Saved, LoadLive;
    var b := Load(parse, adminKey, file);
    var a := Run(parse, b, ops);
    LoadAgrees(parse, adminKey, file);
    RunKeepsAgreement(parse, b, ops);
    ReloadExact(parse, a);
    forall i | 0 <= i < |a.sto|
      ensures a.sto[i].key in a.live
      ensures KeyFaithful(parse, a, a.sto[i])
              <==> Careful(parse, PastOf(Past(FileLimit(file, a.sto[i].key), []), ops, a.sto[i].key))
    {
      var k := a.sto[i].key;
      var p := PastOf(Past(FileLimit(file, k), []), ops, k);
      LoadExplains(parse, adminKey, file, k);
      RunExplains(parse, b, ops, k, Past(FileLimit(file, k), []));
      FaithfulSurvives(parse, a, i, p);
      SurvivesExact(parse, p);
    }
    if forall i :: 0 <= i < |a.sto| ==> KeyFaithful(parse, a, a.sto[i]) {
      forall k | k in a.live
        ensures Careful(parse, PastOf(Past(FileLimit(file, k), []), ops, k))
      {
        AgreeHolds(a, k);
        var i :| 0 <= i < |a.sto| && a.sto[i].key == k;
        assert KeyFaithful(parse, a, a.sto[i]);
      }
    }
  }

  lemma AgreeHolds(a: Acl, k: string)
    requires Agree(a) && k in a.live
    ensures exists i :: 0 <= i < |a.sto| && a.sto[i].key == k
  {
  }
}
