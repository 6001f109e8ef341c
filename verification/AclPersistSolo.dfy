/**
  An operation that runs without interference has exactly the effect of the
  sequential one: the interleaved statements and the value model agree.

  For each operation, first the state its statements end in, then the value of
  that state, and last the two together.
 */
module AclPersistSolo {
  import opened Common
  import opened Quota
  import opened Limits
  import opened AclPersist
  import opened AclPersistRuns
  import M = AclModel
  import D = SliceDelete

  /** The run ends, with the lock free, in a state with the given sequential value. */
  ghost predicate Gives(r: Outcome, a: M.Acl) {
    r.Ends? && r.state.len <= |Current(r.state)| && View(a.adminKey, r.state) == a && r.state.lock == None
  }

  lemma Two(parse: Parse, s: State, a: Step, b: Step)
    requires Enabled(s, a) && Safe(s, a) && Enabled(Next(parse, s, a), b) && Safe(Next(parse, s, a), b)
    ensures Exec(parse, s, [a, b]) == Ends(Next(parse, Next(parse, s, a), b))
  {
    assert [a, b] == [a] + [b];
    ExecCons(parse, s, a, [b]);
    assert [b] == [b] + [];
    ExecCons(parse, Next(parse, s, a), b, []);
  }

  /** One step leads from `s` to `s'`. */
  predicate Leads(parse: Parse, s: State, c: Change, s': State) {
    CanChange(s, c) && ChangeSafe(s, c) && DoChange(parse, s, c) == s'
  }

  lemma ThreeLead(parse: Parse, s: State, a: Change, s1: State, b: Change, s2: State, c: Change, s3: State)
    requires Leads(parse, s, a, s1) && Leads(parse, s1, b, s2) && Leads(parse, s2, c, s3)
    ensures Exec(parse, s, [OfChange(a), OfChange(b), OfChange(c)]) == Ends(s3)
  {
    hide DoChange, CanChange, ChangeSafe;
    Three(parse, s, OfChange(a), OfChange(b), OfChange(c));
  }

  lemma TwoLead(parse: Parse, s: State, a: Change, s1: State, b: Change, s2: State)
    requires Leads(parse, s, a, s1) && Leads(parse, s1, b, s2)
    ensures Exec(parse, s, [OfChange(a), OfChange(b)]) == Ends(s2)
  {
    hide DoChange, CanChange, ChangeSafe;
    Two(parse, s, OfChange(a), OfChange(b));
  }

  // -- UpdateBytesUsage ----------------------------------------------------------

  function AfterIn(s: State, t: nat, key: string, inb: Word64, out: Word64): State
    requires key in s.live
  {
    s.(live := AddIn(s, key, inb), updating := s.updating[t := InAdded(key, out)])
  }

  function Used(s: State, key: string, inb: Word64, out: Word64): State
    requires key in s.live
  {
    var k := s.live[key];
    s.(live := s.live[key := k.(usage := Usage(WrapAdd(k.usage.inb, inb), WrapAdd(k.usage.out, out)))],
       pending := s.pending + 1)
  }

  lemma UseSteps(parse: Parse, s: State, t: nat, key: string, inb: Word64, out: Word64)
    requires s.lock == None && t !in s.updating && key in s.live
    ensures var s1 := AfterIn(s, t, key, inb, out);
            var s2 := s1.(live := AddOut(s1, key, out), updating := s1.updating[t := OutAdded]);
            Leads(parse, s, UseIn(t, key, inb, out), s1) && Leads(parse, s1, UseOut(t), s2) &&
            Leads(parse, s2, UseCount(t), Used(s, key, inb, out))
  {
    var s1 := AfterIn(s, t, key, inb, out);
    assert s1.updating[t := OutAdded] - {t} == s.updating;
  }

  lemma UsedView(adminKey: string, s: State, key: string, inb: Word64, out: Word64)
    requires s.len <= |Current(s)| && key in s.live
    ensures View(adminKey, Used(s, key, inb, out)) == M.AddUsage(View(adminKey, s), key, inb, out)
  {
  }

  lemma SoloUse(parse: Parse, s: State, adminKey: string, t: nat, key: string, inb: Word64, out: Word64)
    requires s.len <= |Current(s)| && s.lock == None && t !in s.updating && key in s.live
    ensures Gives(Exec(parse, s, [OfChange(UseIn(t, key, inb, out)), OfChange(UseOut(t)), OfChange(UseCount(t))]),
                  M.AddUsage(View(adminKey, s), key, inb, out))
  {
    UseSteps(parse, s, t, key, inb, out);
    UsedView(adminKey, s, key, inb, out);
    hide Exec, DoChange, AddIn, AddOut, Leads, View;
    var s1 := AfterIn(s, t, key, inb, out);
    var s2 := s1.(live := AddOut(s1, key, out), updating := s1.updating[t := OutAdded]);
    ThreeLead(parse, s, UseIn(t, key, inb, out), s1, UseOut(t), s2, UseCount(t), Used(s, key, inb, out));
  }

  // -- NewKey ---------------------------------------------------------------------

  function Created(s: State, key: string, name: string, spare: nat): State
    requires s.arrays != [] && s.len <= |Current(s)|
  {
    s.(live := s.live[key := M.LiveKey(UNLIMITED, NO_USAGE)],
       recs := s.recs[key := M.StoredKey(name, key, None, M.Absent)],
       arrays := Append(s.arrays, s.len, key, spare), len := s.len + 1, pending := s.pending + 1)
  }

  lemma CreateSteps(parse: Parse, s: State, key: string, name: string, spare: nat)
    requires s.arrays != [] && s.len <= |Current(s)| && s.lock == None && CanChange(s, NewInsert(key, name))
    ensures var s1 := s.(live := s.live[key := M.LiveKey(UNLIMITED, NO_USAGE)], creating := s.creating[key := name]);
            var s3 := Created(s, key, name, spare);
            var s2 := s3.(pending := s.pending, lock := Some(Appended));
            Leads(parse, s, NewInsert(key, name), s1) && Leads(parse, s1, NewAppend(key, spare), s2) &&
            Leads(parse, s2, NewCount, s3)
  {
    assert s.creating[key := name] - {key} == s.creating;
  }

  lemma CreatedView(adminKey: string, s: State, key: string, name: string, spare: nat)
    requires ListInv(s) && key !in s.recs
    ensures var s' := Created(s, key, name, spare);
            s'.len <= |Current(s')| && View(adminKey, s') == M.CreateKey(View(adminKey, s), name, key)
  {
    var k := M.StoredKey(name, key, None, M.Absent);
    var s' := Created(s, key, name, spare);
    AppendExact(s.arrays, s.len, key, spare);
    assert List(s') == List(s) + [key];
    forall i | 0 <= i < s.len
      ensures Row(s.recs[key := k], List(s)[i]) == Row(s.recs, List(s)[i])
    {
      assert List(s)[i] in List(s);
    }
    assert Rows(s.recs[key := k], List(s) + [key]) == Rows(s.recs, List(s)) + [k];
  }

  lemma SoloCreate(parse: Parse, s: State, adminKey: string, key: string, name: string, spare: nat)
    requires ListInv(s) && s.lock == None && CanChange(s, NewInsert(key, name))
    ensures Gives(Exec(parse, s, [OfChange(NewInsert(key, name)), OfChange(NewAppend(key, spare)), OfChange(NewCount)]),
                  M.CreateKey(View(adminKey, s), name, key))
  {
    CreateSteps(parse, s, key, name, spare);
    CreatedView(adminKey, s, key, name, spare);
    hide Exec, DoChange, Append, Leads, View;
    var s1 := s.(live := s.live[key := M.LiveKey(UNLIMITED, NO_USAGE)], creating := s.creating[key := name]);
    var s3 := Created(s, key, name, spare);
    ThreeLead(parse, s, NewInsert(key, name), s1, NewAppend(key, spare),
              s3.(pending := s.pending, lock := Some(Appended)), NewCount, s3);
  }

  // -- DelKey ---------------------------------------------------------------------

  lemma {:induction false} WithoutIsFilter(recs: map<string, M.StoredKey>, keys: seq<string>, key: string)
    requires forall k :: k in recs ==> recs[k].key == k
    ensures M.Without(Rows(recs, keys), key) == Rows(recs, D.Filter(keys, (k: string) => k == key))
  {
    if keys != [] {
      WithoutIsFilter(recs, keys[1..], key);
      assert Rows(recs, keys)[1..] == Rows(recs, keys[1..]);
      assert Rows(recs, [keys[0]] + D.Filter(keys[1..], (k: string) => k == key))
          == [Row(recs, keys[0])] + Rows(recs, D.Filter(keys[1..], (k: string) => k == key));
    }
  }

  function Removed(s: State, key: string): State
    requires s.arrays != [] && s.len <= |Current(s)| && Removal(s, key).Some?
  {
    var r := Removal(s, key).value;
    s.(live := s.live - {key}, recs := Cast(s.recs, s.live, key),
       arrays := s.arrays[|s.arrays| - 1 := r.slots], len := r.len, pending := s.pending + 1)
  }

  lemma RemoveSteps(parse: Parse, s: State, key: string)
    requires ListInv(s) && CanChange(s, DelStart(key))
    ensures Removal(s, key).Some?
    ensures var s1 := s.(recs := Cast(s.recs, s.live, key), live := s.live - {key}, lock := Some(Deleted(key)));
            var s2 := s1.(pending := s.pending + 1, lock := Some(DeleteCounted(key)));
            Leads(parse, s, DelStart(key), s1) && Leads(parse, s1, DelCount, s2) &&
            Leads(parse, s2, DelFilter, Removed(s, key))
  {
    RemovalExact(s, key);
  }

  lemma RemovedView(adminKey: string, s: State, key: string)
    requires ListInv(s)
    ensures Removal(s, key).Some?
    ensures var s' := Removed(s, key);
            s'.len <= |Current(s')| && View(adminKey, s') == M.RemoveKey(View(adminKey, s), key)
  {
    var hit := (k: string) => k == key;
    RemovalExact(s, key);
    var r := Removal(s, key).value;
    var left := D.Filter(List(s), hit);
    assert r.slots[..r.len] == left by {
      assert forall i :: 0 <= i < s.len ==> List(s)[i] == Current(s)[i];
      D.DeleteUnique(D.Slice(Current(s), s.len), hit);
    }
    D.FilterExact(List(s), hit);
    WithoutIsFilter(s.recs, List(s), key);
    forall i | 0 <= i < |left|
      ensures Row(Cast(s.recs, s.live, key), left[i]) == Row(s.recs, left[i])
    {
      assert left[i] in left;
    }
    assert Rows(Cast(s.recs, s.live, key), left) == Rows(s.recs, left);
  }

  lemma SoloRemove(parse: Parse, s: State, adminKey: string, key: string)
    requires ListInv(s) && CanChange(s, DelStart(key))
    ensures Gives(Exec(parse, s, [OfChange(DelStart(key)), OfChange(DelCount), OfChange(DelFilter)]),
                  M.RemoveKey(View(adminKey, s), key))
  {
    RemoveSteps(parse, s, key);
    RemovedView(adminKey, s, key);
    hide Exec, DoChange, Removal, Leads, View, Cast;
    var s1 := s.(recs := Cast(s.recs, s.live, key), live := s.live - {key}, lock := Some(Deleted(key)));
    ThreeLead(parse, s, DelStart(key), s1, DelCount, s1.(pending := s.pending + 1, lock := Some(DeleteCounted(key))),
              DelFilter, Removed(s, key));
  }

  // -- Limit ----------------------------------------------------------------------

  /** After the first two statements: enforced and still locked, or done. */
  function Tried(parse: Parse, s: State, key: string, limit: Option<Limit>): State {
    var s1 := s.(pending := s.pending + 1);
    if key !in s.live then s1 else Enforce(s1, key, limit, Apply(parse, s.live[key].enforced, limit))
  }

  function Stored(s: State, key: string, limit: Option<Limit>): State {
    s.(recs := if key in s.recs then s.recs[key := s.recs[key].(limit := limit)] else s.recs, lock := None)
  }

  lemma LimitSteps(parse: Parse, s: State, key: string, limit: Option<Limit>)
    requires CanChange(s, LimStart(key, limit))
    ensures var s1 := s.(pending := s.pending + 1, lock := Some(LimitCounted(key, limit)));
            var s2 := Tried(parse, s, key, limit);
            Leads(parse, s, LimStart(key, limit), s1) && Leads(parse, s1, LimApply, s2) &&
            (s2.lock != None ==> Leads(parse, s2, LimStore, Stored(s2, key, limit)))
  {
    hide Apply;
    StartStep(parse, s, key, limit);
    ApplyStep(parse, s, key, limit);
    hide Leads;
    var s2 := Tried(parse, s, key, limit);
    if s2.lock != None {
      StoreStep(parse, s2, key, limit);
    }
  }

  lemma StartStep(parse: Parse, s: State, key: string, limit: Option<Limit>)
    requires CanChange(s, LimStart(key, limit))
    ensures Leads(parse, s, LimStart(key, limit), s.(pending := s.pending + 1, lock := Some(LimitCounted(key, limit))))
  {
  }

  lemma ApplyStep(parse: Parse, s: State, key: string, limit: Option<Limit>)
    requires s.lock == None
    ensures Leads(parse, s.(pending := s.pending + 1, lock := Some(LimitCounted(key, limit))), LimApply,
                  Tried(parse, s, key, limit))
    ensures var s2 := Tried(parse, s, key, limit);
            s2.lock == None || s2.lock == Some(LimitApplied(key, limit))
  {
    hide Apply, Removal, Append, Cast, AddIn, AddOut, Enforce;
    if key in s.live {
      EnforceCounted(s.(pending := s.pending + 1), key, limit, Apply(parse, s.live[key].enforced, limit));
    }
  }

  /** Enforcing replaces the lock holder's state and looks at nothing of it. */
  lemma EnforceCounted(s: State, key: string, limit: Option<Limit>, applied: (Enforced, bool))
    requires key in s.live
    ensures Enforce(s.(lock := Some(LimitCounted(key, limit))), key, limit, applied) == Enforce(s, key, limit, applied)
    ensures var s2 := Enforce(s, key, limit, applied); s2.lock == None || s2.lock == Some(LimitApplied(key, limit))
  {
  }

  lemma StoreStep(parse: Parse, s: State, key: string, limit: Option<Limit>)
    requires s.lock == Some(LimitApplied(key, limit))
    ensures Leads(parse, s, LimStore, Stored(s, key, limit))
  {
  }

  lemma StoredRows(s: State, key: string, limit: Option<Limit>)
    requires ListInv(s)
    ensures Rows(Stored(s, key, limit).recs, List(s)) == M.StoreLimit(Rows(s.recs, List(s)), key, limit)
  {
    forall i | 0 <= i < s.len
      ensures Rows(Stored(s, key, limit).recs, List(s))[i] == M.StoreLimit(Rows(s.recs, List(s)), key, limit)[i]
    {
      assert List(s)[i] in List(s);
    }
  }

  lemma EnforcedView(adminKey: string, s: State, key: string, limit: Option<Limit>, applied: (Enforced, bool))
    requires ListInv(s) && s.lock == None && key in s.live
    ensures var s2 := Enforce(s.(pending := s.pending + 1), key, limit, applied);
            var end := if s2.lock == None then s2 else Stored(s2, key, limit);
            end.len <= |Current(end)| && View(adminKey, end) == M.TakeLimit(View(adminKey, s), key, limit, applied)
  {
    StoredRows(s, key, limit);
    hide Rows, M.StoreLimit;
    var s2 := Enforce(s.(pending := s.pending + 1), key, limit, applied);
    assert List(s2) == List(s);
  }

  lemma TriedView(parse: Parse, adminKey: string, s: State, key: string, limit: Option<Limit>)
    requires ListInv(s) && s.lock == None
    ensures var s2 := Tried(parse, s, key, limit);
            var end := if s2.lock == None then s2 else Stored(s2, key, limit);
            end.len <= |Current(end)| && View(adminKey, end) == M.SetLimit(parse, View(adminKey, s), key, limit)
  {
    hide Apply, Rows, Stored, Enforce, M.TakeLimit;
    if key in s.live {
      EnforcedView(adminKey, s, key, limit, Apply(parse, s.live[key].enforced, limit));
    }
  }

  /** The third statement is reached exactly when the limit applied without an error. */
  lemma SoloLimit(parse: Parse, s: State, adminKey: string, key: string, limit: Option<Limit>)
    requires ListInv(s) && CanChange(s, LimStart(key, limit))
    ensures var steps := [OfChange(LimStart(key, limit)), OfChange(LimApply)];
            Gives(Exec(parse, s, if Tried(parse, s, key, limit).lock == None then steps
                                 else [OfChange(LimStart(key, limit)), OfChange(LimApply), OfChange(LimStore)]),
                  M.SetLimit(parse, View(adminKey, s), key, limit))
    ensures Tried(parse, s, key, limit).lock == None <==> key !in s.live || !Succeeds(parse, limit)
  {
    hide Exec, DoChange, Leads, ListInv;
    LimitSteps(parse, s, key, limit);
    TriedView(parse, adminKey, s, key, limit);
    if key in s.live {
      ApplySucceeds(parse, s.live[key].enforced, limit);
    }
    var s1 := s.(pending := s.pending + 1, lock := Some(LimitCounted(key, limit)));
    var s2 := Tried(parse, s, key, limit);
    if s2.lock == None {
      TwoLead(parse, s, LimStart(key, limit), s1, LimApply, s2);
    } else {
      ThreeLead(parse, s, LimStart(key, limit), s1, LimApply, s2, LimStore, Stored(s2, key, limit));
    }
  }

  // -- DelUsage -------------------------------------------------------------------

  function Reset(s: State, key: string): State {
    s.(recs := Cast(s.recs, s.live, key),
       live := if key in s.live then s.live[key := s.live[key].(usage := NO_USAGE)] else s.live,
       pending := s.pending + 1)
  }

  lemma ResetSteps(parse: Parse, s: State, key: string)
    requires CanChange(s, ResStart(key))
    ensures var s1 := s.(pending := s.pending + 1, lock := Some(ResetCounted(key)));
            Leads(parse, s, ResStart(key), s1) && Leads(parse, s1, ResApply, Reset(s, key))
  {
  }

  lemma ResetView(adminKey: string, s: State, key: string)
    requires ListInv(s)
    ensures View(adminKey, Reset(s, key)) == M.ResetUsage(View(adminKey, s), key)
  {
    var s' := Reset(s, key);
    if key in s.live {
      forall i | 0 <= i < s.len
        ensures Rows(s'.recs, List(s))[i] == M.Detach(Rows(s.recs, List(s)), key, s.live[key].usage)[i]
      {
        assert List(s)[i] in List(s);
      }
      assert Rows(s'.recs, List(s)) == M.Detach(Rows(s.recs, List(s)), key, s.live[key].usage);
    }
  }

  lemma SoloReset(parse: Parse, s: State, adminKey: string, key: string)
    requires ListInv(s) && CanChange(s, ResStart(key))
    ensures Gives(Exec(parse, s, [OfChange(ResStart(key)), OfChange(ResApply)]), M.ResetUsage(View(adminKey, s), key))
  {
    ResetSteps(parse, s, key);
    ResetView(adminKey, s, key);
    hide Exec, DoChange, Leads, View, Cast;
    var s1 := s.(pending := s.pending + 1, lock := Some(ResetCounted(key)));
    TwoLead(parse, s, ResStart(key), s1, ResApply, Reset(s, key));
  }
}
