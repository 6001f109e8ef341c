/**
  The exact condition for a restart, over every interleaving: the limit calls made
  for each key along a run, and what a server started from the disk enforces.
 */
module AclPersistRestart {
  import opened Limits
  import opened AclPersist
  import opened AclPersistRuns
  import opened AclRestart
  import M = AclModel

  /** The step that applies a limit to a key is the call; a key begins with its creation. */
  function PastStep(s: State, step: Step, k: string, p: Past): Past
    requires Enabled(s, step)
  {
    match step
    case OfChange(NewInsert(key, _)) => if key == k then NEWBORN else p
    case OfChange(LimApply) =>
      if s.lock.value.key == k && k in s.live then p.(calls := p.calls + [s.lock.value.limit]) else p
    case _ => p
  }

  /** The life of a key along a run. */
  function PastAlong(parse: Parse, s: State, steps: seq<Step>, k: string, p: Past): Past
    decreases |steps|
  {
    if steps == [] || !Enabled(s, steps[0]) || !Safe(s, steps[0]) then p
    else PastAlong(parse, Next(parse, s, steps[0]), steps[1..], k, PastStep(s, steps[0], k, p))
  }

  /** The limit is enforced but not stored yet. */
  predicate Between(s: State, k: string) {
    s.lock.Some? && s.lock.value.LimitApplied? && s.lock.value.key == k
  }

  ghost predicate PastInv(parse: Parse, s: State, k: string, p: Past) {
    && (k in s.live ==> s.live[k].enforced == InForce(parse, p))
    && (k in s.creating ==> p == NEWBORN && !Named(s, k))
    && (Between(s, k) && k in s.live ==> StoredNow(parse, p) == s.lock.value.limit)
    && (k in s.recs && k in s.live && !Between(s, k) ==> s.recs[k].limit == StoredNow(parse, p))
  }

  lemma LimitPast(parse: Parse, s: State, k: string, p: Past)
    requires TableInv(s) && PastInv(parse, s, k, p) && CanChange(s, LimApply)
    ensures PastInv(parse, DoChange(parse, s, LimApply), k, PastStep(s, OfChange(LimApply), k, p))
  {
    hide InForce, StoredNow, Apply, Succeeds, TableInv, Removal, Append, Cast, AddIn, AddOut;
    var l := s.lock.value;
    CallSnoc(parse, p, l.limit);
    if l.key in s.live {
      ApplySucceeds(parse, s.live[l.key].enforced, l.limit);
    }
  }

  lemma StorePast(parse: Parse, s: State, k: string, p: Past)
    requires TableInv(s) && PastInv(parse, s, k, p) && CanChange(s, LimStore)
    ensures PastInv(parse, DoChange(parse, s, LimStore), k, p)
  {
    hide InForce, StoredNow;
  }

  lemma CreatePast(parse: Parse, s: State, key: string, name: string, k: string, p: Past)
    requires TableInv(s) && PastInv(parse, s, k, p) && CanChange(s, NewInsert(key, name))
    ensures PastInv(parse, DoChange(parse, s, NewInsert(key, name)), k,
            PastStep(s, OfChange(NewInsert(key, name)), k, p))
  {
    NewbornPast(parse);
    hide InForce, StoredNow;
  }

  lemma AppendPast(parse: Parse, s: State, key: string, spare: nat, k: string, p: Past)
    requires TableInv(s) && PastInv(parse, s, k, p) && CanChange(s, NewAppend(key, spare))
             && ChangeSafe(s, NewAppend(key, spare))
    ensures PastInv(parse, DoChange(parse, s, NewAppend(key, spare)), k, p)
  {
    NewbornPast(parse);
    hide InForce, StoredNow;
  }

  /** The step keeps the enforcement of every key it leaves alive and the limit of every record. */
  ghost predicate LimitsUntouched(s: State, s': State) {
    && (forall k :: k in s'.live ==> k in s.live && s'.live[k].enforced == s.live[k].enforced)
    && s'.recs.Keys == s.recs.Keys && (forall k :: k in s.recs ==> s'.recs[k].limit == s.recs[k].limit)
    && s'.creating == s.creating
    && (forall k :: k in s.creating && Named(s', k) ==> Named(s, k))
    && (forall k :: Between(s', k) <==> Between(s, k))
    && (forall k :: Between(s, k) ==> s'.lock == s.lock)
  }

  lemma UntouchedPast(parse: Parse, s: State, s': State, k: string, p: Past)
    requires PastInv(parse, s, k, p) && LimitsUntouched(s, s')
    ensures PastInv(parse, s', k, p)
  {
    hide InForce, StoredNow;
  }

  predicate SetsLimits(c: Change) {
    c.NewInsert? || c.NewAppend? || c.LimApply? || c.LimStore?
  }

  /** A step that keeps limits, whatever it does to usage, lock and keys. */
  lemma UntouchedBy(s: State, s': State)
    requires forall k :: k in s'.live ==> k in s.live && s'.live[k].enforced == s.live[k].enforced
    requires s'.recs.Keys == s.recs.Keys && forall k :: k in s.recs ==> s'.recs[k].limit == s.recs[k].limit
    requires s'.creating == s.creating
    requires s'.lock == s.lock || (!LimitHeld(s) && !LimitHeld(s'))
    requires forall k :: k in s.creating && Named(s', k) ==> Named(s, k)
    ensures LimitsUntouched(s, s')
  {
  }

  predicate LimitHeld(s: State) {
    s.lock.Some? && s.lock.value.LimitApplied?
  }

  lemma ChangeUntouched(parse: Parse, s: State, c: Change)
    requires CanChange(s, c) && ChangeSafe(s, c) && !SetsLimits(c)
    ensures LimitsUntouched(s, DoChange(parse, s, c))
  {
    hide LimitsUntouched, DoChange, CanChange, ChangeSafe, LimitHeld, Named;
    ChangeKeepsLimits(parse, s, c);
    ChangeKeepsLock(parse, s, c);
    UntouchedBy(s, DoChange(parse, s, c));
  }

  lemma ChangeKeepsLimits(parse: Parse, s: State, c: Change)
    requires CanChange(s, c) && ChangeSafe(s, c) && !SetsLimits(c)
    ensures var s' := DoChange(parse, s, c);
            && (forall k :: k in s'.live ==> k in s.live && s'.live[k].enforced == s.live[k].enforced)
            && s'.recs.Keys == s.recs.Keys && (forall k :: k in s.recs ==> s'.recs[k].limit == s.recs[k].limit)
            && s'.creating == s.creating
  {
    hide Apply, Append, Removal;
  }

  lemma ChangeKeepsLock(parse: Parse, s: State, c: Change)
    requires CanChange(s, c) && ChangeSafe(s, c) && !SetsLimits(c)
    ensures var s' := DoChange(parse, s, c);
            && (s'.lock == s.lock || (!LimitHeld(s) && !LimitHeld(s')))
            && forall k :: k in s.creating && Named(s', k) ==> Named(s, k)
  {
    hide Apply, Append, Removal, Cast, AddIn, AddOut;
  }

  lemma SaveUntouched(s: State, v: Save)
    requires CanSave(s, v) && SaveSafe(s, v)
    ensures LimitsUntouched(s, DoSave(s, v))
  {
  }

  lemma StepPast(parse: Parse, s: State, step: Step, k: string, p: Past)
    requires TableInv(s) && PastInv(parse, s, k, p) && Enabled(s, step) && Safe(s, step)
    ensures PastInv(parse, Next(parse, s, step), k, PastStep(s, step, k, p))
  {
    hide PastInv, LimitsUntouched, TableInv, DoChange, DoSave;
    match step
    case OfSave(v) =>
      SaveUntouched(s, v);
      UntouchedPast(parse, s, DoSave(s, v), k, p);
    case OfChange(c) =>
      if c.NewInsert? {
        CreatePast(parse, s, c.key, c.name, k, p);
      } else if c.NewAppend? {
        AppendPast(parse, s, c.key, c.spare, k, p);
      } else if c.LimApply? {
        LimitPast(parse, s, k, p);
      } else if c.LimStore? {
        StorePast(parse, s, k, p);
      } else {
        ChangeUntouched(parse, s, c);
        UntouchedPast(parse, s, DoChange(parse, s, c), k, p);
      }
  }

  lemma {:induction false} RunPast(parse: Parse, s: State, steps: seq<Step>, k: string, p: Past)
    requires Inv(s) && PastInv(parse, s, k, p) && Exec(parse, s, steps).Ends?
    ensures PastInv(parse, Exec(parse, s, steps).state, k, PastAlong(parse, s, steps, k, p))
    decreases |steps|
  {
    hide PastInv, Inv, TableInv, Next, PastStep;
    if steps == [] {
    } else {
      InvTables(s);
      StepPast(parse, s, steps[0], k, p);
      StepKeepsInv(parse, s, steps[0]);
      RunPast(parse, Next(parse, s, steps[0]), steps[1..], k, PastStep(s, steps[0], k, p));
    }
  }

  lemma InvTables(s: State)
    requires Inv(s)
    ensures TableInv(s)
  {
  }

  lemma StartPast(parse: Parse, file: seq<M.FileKey>, spare: nat, k: string)
    requires M.UniqueFile(file)
    ensures PastInv(parse, Start(parse, file, spare), k, Past(FileLimit(file, k), []))
  {
    hide Apply;
    M.LoadLiveLookup(parse, file);
    RecordsLookup(file);
    var s := Start(parse, file, spare);
    if k in s.live {
      var i :| 0 <= i < |file| && file[i].key == k;
      FileLimitAt(file, i);
    }
  }

  /** At rest every live key is what its life along the run made of it. */
  lemma RestExplains(parse: Parse, adminKey: string, s: State, k: string, p: Past)
    requires TableInv(s) && AtRest(s) && PastInv(parse, s, k, p)
    ensures Explains(parse, View(adminKey, s), k, p)
  {
    hide InForce, StoredNow;
    var a := View(adminKey, s);
    forall i | 0 <= i < |a.sto| && a.sto[i].key == k
      ensures k in s.live ==> a.sto[i].limit == StoredNow(parse, p)
    {
      assert List(s)[i] in List(s);
    }
  }

  /** Every key left at the end of the run was limited carefully. */
  ghost predicate AllCareful(parse: Parse, file: seq<M.FileKey>, spare: nat, steps: seq<Step>, live: set<string>) {
    forall k :: k in live
        ==> Careful(parse, PastAlong(parse, Start(parse, file, spare), steps, k, Past(FileLimit(file, k), [])))
  }

  lemma CarefulAtRest(parse: Parse, adminKey: string, file: seq<M.FileKey>, spare: nat, steps: seq<Step>, s: State,
      a: M.Acl)
    requires M.UniqueFile(file) && Exec(parse, Start(parse, file, spare), steps) == Ends(s)
    requires TableInv(s) && AtRest(s) && s.len <= |Current(s)| && a == View(adminKey, s) && M.Agree(a)
    ensures (forall i :: 0 <= i < |a.sto| ==> M.KeyFaithful(parse, a, a.sto[i]))
            <==> AllCareful(parse, file, spare, steps, s.live.Keys)
  {
    hide Exec, Start, TableInv, View, PastInv, PastAlong, Careful, Survives, FileLimit, Explains, M.KeyFaithful,
        M.Agree, AtRest;
    StartInv(parse, file, spare);
    var start := Start(parse, file, spare);
    ViewLive(adminKey, s);
    forall i | 0 <= i < |a.sto|
      ensures a.sto[i].key in a.live
      ensures M.KeyFaithful(parse, a, a.sto[i])
              <==> Careful(parse, PastAlong(parse, start, steps, a.sto[i].key, Past(FileLimit(file, a.sto[i].key), [])))
    {
      var k := a.sto[i].key;
      var p := PastAlong(parse, start, steps, k, Past(FileLimit(file, k), []));
      StartPast(parse, file, spare, k);
      RunPast(parse, start, steps, k, Past(FileLimit(file, k), []));
      RestExplains(parse, adminKey, s, k, p);
      FaithfulSurvives(parse, a, i, p);
      SurvivesExact(parse, p);
    }
    if forall i :: 0 <= i < |a.sto| ==> M.KeyFaithful(parse, a, a.sto[i]) {
      forall k | k in s.live
        ensures Careful(parse, PastAlong(parse, start, steps, k, Past(FileLimit(file, k), [])))
      {
        AgreeHolds(a, k);
        var i :| 0 <= i < |a.sto| && a.sto[i].key == k;
        assert M.KeyFaithful(parse, a, a.sto[i]);
      }
    }
  }

  lemma ViewLive(adminKey: string, s: State)
    requires s.len <= |Current(s)|
    ensures View(adminKey, s).live == s.live && View(adminKey, s).adminKey == adminKey
  {
  }

  /**
    In every interleaving, at rest after a save: a server started from the disk has
    the live table of the running one, and then decides and accounts as it does,
    exactly when the limit calls made for every key that is left were careful.
   */
  lemma RestartExactAtRest(parse: Parse, adminKey: string, file: seq<M.FileKey>, spare: nat, steps: seq<Step>)
    requires M.UniqueFile(file)
    ensures var r := Exec(parse, Start(parse, file, spare), steps);
            r.Ends? && AtRest(r.state) && r.state.lastSaveOk && r.state.everSaved ==>
              r.state.disk.Some? && r.state.len <= |Current(r.state)| &&
              var a, b := View(adminKey, r.state), M.Load(parse, adminKey, r.state.disk.value);
              && (b.live == a.live <==> AllCareful(parse, file, spare, steps, r.state.live.Keys))
              && (AllCareful(parse, file, spare, steps, r.state.live.Keys) ==>
                    && (forall key, network, addr :: M.Check(b, key, network, addr) == M.Check(a, key, network, addr))
                    && (forall key :: M.GetUsage(b, key) == M.GetUsage(a, key)))
  {
    hide Exec, Start, AllCareful, M.KeyFaithful, M.Agree, M.Check, M.GetUsage, M.Saved, M.Load, View, Snapshot;
    StartInv(parse, file, spare);
    RunKeepsInv(parse, Start(parse, file, spare), steps);
    var r := Exec(parse, Start(parse, file, spare), steps);
    if r.Ends? && AtRest(r.state) && r.state.lastSaveOk && r.state.everSaved {
      var s := r.state;
      var a := View(adminKey, s);
      ViewAgrees(adminKey, s);
      ViewLive(adminKey, s);
      SnapshotIsSaved(adminKey, s);
      CarefulAtRest(parse, adminKey, file, spare, steps, s, a);
      M.ReloadExact(parse, a);
      if AllCareful(parse, file, spare, steps, s.live.Keys) {
        M.ReloadKeepsDecisions(parse, a);
      }
    }
  }
}
