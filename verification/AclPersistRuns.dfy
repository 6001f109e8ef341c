/** Whole runs of the interleaved access control list: safety, durability, restart. */
module AclPersistRuns {
  import opened Common
  import opened Quota
  import opened Limits
  import opened AclPersist
  import M = AclModel
  import D = SliceDelete

  // -- the start: a file without duplicate keys has just been read --------------

  function FileKeys(file: seq<M.FileKey>): seq<string> {
    seq(|file|, i requires 0 <= i < |file| => file[i].key)
  }

  function Records(file: seq<M.FileKey>): map<string, M.StoredKey> {
    if file == [] then map[]
    else Records(file[..|file| - 1])[file[|file| - 1].key := M.ReadKey(file[|file| - 1])]
  }

  /** `spare` is the unused capacity the decoder left behind the list. */
  function Start(parse: Parse, file: seq<M.FileKey>, spare: nat): State {
    State(M.LoadLive(parse, file), Records(file), [FileKeys(file) + seq(spare, i => "")], |file|,
          0, None, map[], map[], Some(file), Idle, true, false)
  }

  lemma {:induction false} RecordsLookup(file: seq<M.FileKey>)
    requires M.UniqueFile(file)
    ensures forall i :: 0 <= i < |file| ==>
              file[i].key in Records(file) && Records(file)[file[i].key] == M.ReadKey(file[i])
    ensures forall k :: k in Records(file) ==>
              Records(file)[k].key == k && exists i :: 0 <= i < |file| && file[i].key == k
  {
    if file != [] {
      var front := file[..|file| - 1];
      RecordsLookup(front);
      forall k | k in Records(file)
        ensures exists i :: 0 <= i < |file| && file[i].key == k
      {
        if k == file[|file| - 1].key {
          assert file[|file| - 1].key == k;
        } else {
          assert k in Records(front);
          var i :| 0 <= i < |front| && front[i].key == k;
          assert file[i].key == k;
        }
      }
    }
  }

  lemma StartList(parse: Parse, file: seq<M.FileKey>, spare: nat)
    ensures List(Start(parse, file, spare)) == FileKeys(file)
  {
  }

  lemma StartHolds(file: seq<M.FileKey>, k: string)
    ensures k in FileKeys(file) <==> exists i :: 0 <= i < |file| && file[i].key == k
  {
    if exists i :: 0 <= i < |file| && file[i].key == k {
      var i :| 0 <= i < |file| && file[i].key == k;
      assert FileKeys(file)[i] == k;
    }
    if k in FileKeys(file) {
      var i :| 0 <= i < |file| && FileKeys(file)[i] == k;
      assert file[i].key == k;
    }
  }

  lemma StartTable(parse: Parse, file: seq<M.FileKey>, spare: nat)
    requires M.UniqueFile(file)
    ensures TableInv(Start(parse, file, spare))
  {
    hide M.LoadLive, Records;
    var s := Start(parse, file, spare);
    StartList(parse, file, spare);
    forall k: string
      ensures (k in List(s) <==> k in s.live) && (k in List(s) <==> k in s.recs)
    {
      StartSameKeys(parse, file, k);
    }
    StartDistinct(file);
    forall k | k in s.recs
      ensures s.recs[k].key == k
    {
      RecordsLookup(file);
    }
  }

  lemma StartSameKeys(parse: Parse, file: seq<M.FileKey>, k: string)
    requires M.UniqueFile(file)
    ensures k in FileKeys(file) <==> k in M.LoadLive(parse, file)
    ensures k in FileKeys(file) <==> k in Records(file)
  {
    StartHolds(file, k);
    M.LoadLiveLookup(parse, file);
    RecordsLookup(file);
  }

  lemma StartDistinct(file: seq<M.FileKey>)
    requires M.UniqueFile(file)
    ensures D.Distinct(FileKeys(file))
  {
  }

  lemma StartSnapshot(parse: Parse, file: seq<M.FileKey>, spare: nat, i: nat)
    requires M.UniqueFile(file) && i < |file|
    ensures Normal(file[i]) == Normal(Snapshot(Start(parse, file, spare))[i])
  {
    M.LoadLiveLookup(parse, file);
    RecordsLookup(file);
    assert Snapshot(Start(parse, file, spare))[i] == Fresh(Start(parse, file, spare), file[i].key);
  }

  lemma StartInv(parse: Parse, file: seq<M.FileKey>, spare: nat)
    requires M.UniqueFile(file)
    ensures Inv(Start(parse, file, spare))
  {
    var s := Start(parse, file, spare);
    StartTable(parse, file, spare);
    forall i | 0 <= i < |file|
      ensures Normal(file[i]) == Normal(Snapshot(s)[i])
    {
      StartSnapshot(parse, file, spare, i);
    }
    assert SameFile(file, Snapshot(s));
  }

  // -- runs ------------------------------------------------------------------------

  datatype Outcome = Stuck | Panic | Ends(state: State)

  /** Execute a schedule; it is stuck when it asks for a step that cannot be taken. */
  function Exec(parse: Parse, s: State, steps: seq<Step>): Outcome
    decreases |steps|
  {
    if steps == [] then Ends(s)
    else if !Enabled(s, steps[0]) then Stuck
    else if !Safe(s, steps[0]) then Panic
    else Exec(parse, Next(parse, s, steps[0]), steps[1..])
  }

  lemma {:induction false} RunKeepsInv(parse: Parse, s: State, steps: seq<Step>)
    requires Inv(s)
    ensures Exec(parse, s, steps) != Panic
    ensures Exec(parse, s, steps).Ends? ==> Inv(Exec(parse, s, steps).state)
    decreases |steps|
  {
    if steps != [] && Enabled(s, steps[0]) {
      StepKeepsInv(parse, s, steps[0]);
      RunKeepsInv(parse, Next(parse, s, steps[0]), steps[1..]);
    }
  }

  lemma {:induction false} ExecConcat(parse: Parse, s: State, p: seq<Step>, q: seq<Step>)
    ensures Exec(parse, s, p + q) ==
              (if Exec(parse, s, p).Ends? then Exec(parse, Exec(parse, s, p).state, q) else Exec(parse, s, p))
    decreases |p|
  {
    if p == [] {
      assert p + q == q;
    } else {
      assert (p + q)[1..] == p[1..] + q;
      if Enabled(s, p[0]) && Safe(s, p[0]) {
        ExecConcat(parse, Next(parse, s, p[0]), p[1..], q);
      }
    }
  }

  /** Nothing is going on and nothing is waiting to be saved. */
  predicate AtRest(s: State) {
    s.pending == 0 && s.updating == map[] && s.creating == map[] && s.lock == None && s.saver.Idle?
  }

  /**
    No update is lost: however the operations and the saver interleave, no step
    panics, and whenever everything is at rest and the last save did write the
    file, the file holds the current state.
   */
  lemma NoLostUpdate(parse: Parse, file: seq<M.FileKey>, spare: nat, steps: seq<Step>)
    requires M.UniqueFile(file)
    ensures var r := Exec(parse, Start(parse, file, spare), steps);
            r != Panic &&
            (r.Ends? ==> r.state.len <= |Current(r.state)| &&
                         (AtRest(r.state) && r.state.lastSaveOk ==> DiskCurrent(r.state)))
  {
    StartInv(parse, file, spare);
    RunKeepsInv(parse, Start(parse, file, spare), steps);
  }

  /** At rest the live table and the stored list hold the same keys, each once. */
  lemma TablesAgreeAtRest(parse: Parse, file: seq<M.FileKey>, spare: nat, steps: seq<Step>)
    requires M.UniqueFile(file)
    ensures var r := Exec(parse, Start(parse, file, spare), steps);
            r.Ends? && AtRest(r.state) ==>
              r.state.len <= |Current(r.state)| && M.Agree(View("", r.state))
  {
    StartInv(parse, file, spare);
    RunKeepsInv(parse, Start(parse, file, spare), steps);
    var r := Exec(parse, Start(parse, file, spare), steps);
    if r.Ends? && AtRest(r.state) {
      ViewAgrees("", r.state);
    }
  }

  // -- the sequential value behind a state --------------------------------------

  function Row(recs: map<string, M.StoredKey>, key: string): M.StoredKey {
    if key in recs then recs[key] else M.StoredKey("", key, None, M.Absent)
  }

  function Rows(recs: map<string, M.StoredKey>, keys: seq<string>): seq<M.StoredKey> {
    seq(|keys|, i requires 0 <= i < |keys| => Row(recs, keys[i]))
  }

  function View(adminKey: string, s: State): M.Acl
    requires s.len <= |Current(s)|
  {
    M.Acl(adminKey, s.live, Rows(s.recs, List(s)), s.pending)
  }

  lemma ViewAgrees(adminKey: string, s: State)
    requires TableInv(s) && s.lock == None && s.creating == map[]
    ensures M.Agree(View(adminKey, s))
  {
    var a := View(adminKey, s);
    forall i | 0 <= i < s.len
      ensures a.sto[i].key == List(s)[i]
    {
      assert List(s)[i] in List(s);
    }
    forall k: string
      ensures M.Holds(a.sto, k) <==> k in List(s)
    {
      if M.Holds(a.sto, k) {
        var i :| 0 <= i < |a.sto| && a.sto[i].key == k;
        assert List(s)[i] == k;
      }
      if k in List(s) {
        var i :| 0 <= i < s.len && List(s)[i] == k;
        assert a.sto[i].key == k;
      }
    }
  }

  lemma SnapshotIsSaved(adminKey: string, s: State)
    requires TableInv(s)
    ensures Snapshot(s) == M.Saved(View(adminKey, s))
  {
    var a := View(adminKey, s);
    forall i | 0 <= i < s.len
      ensures Snapshot(s)[i] == M.Saved(a)[i]
    {
      assert List(s)[i] in List(s);
    }
  }

  /**
    A restart at rest, after at least one save: the server that reads the file
    decides and accounts as the old one did, provided every key is enforced as
    its stored limit asks for.
   */
  lemma RestartKeepsDecisions(parse: Parse, adminKey: string, file: seq<M.FileKey>, spare: nat, steps: seq<Step>)
    requires M.UniqueFile(file)
    ensures var r := Exec(parse, Start(parse, file, spare), steps);
            r.Ends? && AtRest(r.state) && r.state.lastSaveOk && r.state.everSaved ==>
              r.state.len <= |Current(r.state)| && r.state.disk.Some? &&
              var a := View(adminKey, r.state);
              var b := M.Load(parse, adminKey, r.state.disk.value);
              (forall i :: 0 <= i < |a.sto| ==> M.KeyFaithful(parse, a, a.sto[i])) ==>
                (forall key, network, addr :: M.Check(b, key, network, addr) == M.Check(a, key, network, addr)) &&
                (forall key :: M.GetUsage(b, key) == M.GetUsage(a, key))
  {
    StartInv(parse, file, spare);
    RunKeepsInv(parse, Start(parse, file, spare), steps);
    var r := Exec(parse, Start(parse, file, spare), steps);
    if r.Ends? && AtRest(r.state) && r.state.lastSaveOk && r.state.everSaved {
      var a := View(adminKey, r.state);
      ViewAgrees(adminKey, r.state);
      SnapshotIsSaved(adminKey, r.state);
      if forall i :: 0 <= i < |a.sto| ==> M.KeyFaithful(parse, a, a.sto[i]) {
        M.ReloadKeepsDecisions(parse, a);
      }
    }
  }

  // -- the saver always catches up --------------------------------------------------

  function Repeat(v: Save, n: nat): seq<Step> {
    seq(n, i => OfSave(v))
  }

  lemma EmptyRun(parse: Parse, s: State)
    ensures Exec(parse, s, []) == Ends(s)
  {
  }

  lemma ExecCons(parse: Parse, s: State, step: Step, rest: seq<Step>)
    requires Enabled(s, step) && Safe(s, step)
    ensures Exec(parse, s, [step] + rest) == Exec(parse, Next(parse, s, step), rest)
  {
    assert ([step] + rest)[1..] == rest;
  }

  /** A slice header within its array. */
  predicate InRange(s: State, arr: nat, len: nat) {
    arr < |s.arrays| && len <= |s.arrays[arr]|
  }

  /** Records may have been attached to live counters, which changes none as written. */
  ghost predicate SameAsWritten(s: State, s': State) {
    && s'.live == s.live && s'.arrays == s.arrays && s'.len == s.len && s'.recs.Keys == s.recs.Keys
    && forall k :: Fresh(s', k) == Fresh(s, k)
  }

  lemma CopyOnce(s: State)
    requires CanSave(s, Copy) && SaveSafe(s, Copy)
    ensures SameAsWritten(s, DoSave(s, Copy))
  {
  }

  lemma {:induction false} CopyAll(parse: Parse, s: State, n: nat)
    requires s.saver.Copying? && s.saver.next + n <= s.saver.len && InRange(s, s.saver.arr, s.saver.len)
    ensures var r := Exec(parse, s, Repeat(Copy, n));
            r.Ends? && SameAsWritten(s, r.state) &&
            r.state == s.(recs := r.state.recs, saver := s.saver.(next := s.saver.next + n))
    decreases n
  {
    if n > 0 {
      CopyOnce(s);
      assert Repeat(Copy, n) == [OfSave(Copy)] + Repeat(Copy, n - 1);
      ExecCons(parse, s, OfSave(Copy), Repeat(Copy, n - 1));
      CopyAll(parse, DoSave(s, Copy), n - 1);
    }
  }

  lemma {:induction false} ReadAll(parse: Parse, s: State, n: nat)
    requires s.saver.Encoding? && |s.saver.out| + n <= s.saver.len && InRange(s, s.saver.arr, s.saver.len)
    ensures var r := Exec(parse, s, Repeat(Read, n));
            r.Ends? && r.state.saver.Encoding? && |r.state.saver.out| == |s.saver.out| + n &&
            r.state == s.(saver := s.saver.(out := r.state.saver.out))
    decreases n
  {
    if n > 0 {
      assert Repeat(Read, n) == [OfSave(Read)] + Repeat(Read, n - 1);
      ExecCons(parse, s, OfSave(Read), Repeat(Read, n - 1));
      ReadAll(parse, DoSave(s, Read), n - 1);
    }
  }

  const PROLOGUE := [OfSave(See), OfSave(Zero), OfSave(Truncate), OfSave(Range)]

  /** One undisturbed round of the background loop over `n` keys. */
  function Round(n: nat): seq<Step> {
    PROLOGUE + ((Repeat(Copy, n) + [OfSave(Encode)]) + (Repeat(Read, n) + [OfSave(Write)]))
  }

  lemma Prologue(parse: Parse, s: State)
    requires s.saver.Idle? && s.lock == None && s.pending > 0 && s.arrays != []
    ensures Exec(parse, s, PROLOGUE)
              == Ends(s.(pending := 0, disk := None, saver := Copying(|s.arrays| - 1, s.len, 0)))
  {
    hide Exec;
    var s3 := s.(pending := 0, disk := None, saver := Truncated);
    Three(parse, s, OfSave(See), OfSave(Zero), OfSave(Truncate));
    assert PROLOGUE == [OfSave(See), OfSave(Zero), OfSave(Truncate)] + [OfSave(Range)];
    ExecConcat(parse, s, [OfSave(See), OfSave(Zero), OfSave(Truncate)], [OfSave(Range)]);
    assert [OfSave(Range)] == [OfSave(Range)] + [];
    ExecCons(parse, s3, OfSave(Range), []);
    EmptyRun(parse, Next(parse, s3, OfSave(Range)));
  }

  lemma CopyPhase(parse: Parse, s: State)
    requires s.arrays != [] && s.len <= |Current(s)| && s.saver == Copying(|s.arrays| - 1, s.len, 0)
    ensures var r := Exec(parse, s, Repeat(Copy, s.len) + [OfSave(Encode)]);
            r.Ends? && SameAsWritten(s, r.state) &&
            r.state == s.(recs := r.state.recs, saver := Encoding(|s.arrays| - 1, s.len, []))
  {
    hide Exec, SameAsWritten, Repeat;
    CopyAll(parse, s, s.len);
    var s' := Exec(parse, s, Repeat(Copy, s.len)).state;
    EncodeStep(parse, s, s');
    ExecConcat(parse, s, Repeat(Copy, s.len), [OfSave(Encode)]);
  }

  lemma EncodeStep(parse: Parse, s: State, s': State)
    requires SameAsWritten(s, s') && CanSave(s', Encode) && s'.arrays != []
    ensures var end := s'.(saver := Encoding(|s'.arrays| - 1, s'.len, []));
            Exec(parse, s', [OfSave(Encode)]) == Ends(end) && SameAsWritten(s, end)
  {
    var end := s'.(saver := Encoding(|s'.arrays| - 1, s'.len, []));
    assert forall k :: Fresh(end, k) == Fresh(s', k);
    assert [OfSave(Encode)] == [OfSave(Encode)] + [];
    ExecCons(parse, s', OfSave(Encode), []);
  }

  lemma WritePhase(parse: Parse, s: State)
    requires s.arrays != [] && s.len <= |Current(s)| && s.saver == Encoding(|s.arrays| - 1, s.len, [])
    ensures var r := Exec(parse, s, Repeat(Read, s.len) + [OfSave(Write)]);
            r.Ends? &&
            r.state == s.(saver := Idle, disk := r.state.disk, lastSaveOk := true, everSaved := true)
  {
    hide Exec, Repeat;
    ReadAll(parse, s, s.len);
    ExecConcat(parse, s, Repeat(Read, s.len), [OfSave(Write)]);
    WriteStep(parse, Exec(parse, s, Repeat(Read, s.len)).state);
  }

  lemma WriteStep(parse: Parse, s: State)
    requires CanSave(s, Write)
    ensures Exec(parse, s, [OfSave(Write)])
              == Ends(s.(disk := Some(s.saver.out), saver := Idle, lastSaveOk := true, everSaved := true))
  {
    assert [OfSave(Write)] == [OfSave(Write)] + [];
    ExecCons(parse, s, OfSave(Write), []);
  }

  lemma SnapshotFrame(s: State, s': State)
    requires SameAsWritten(s, s') && s.len <= |Current(s)|
    ensures Snapshot(s') == Snapshot(s)
  {
  }

  /** An undisturbed round from start to end, before asking what it wrote. */
  lemma RoundEnds(parse: Parse, s: State)
    requires s.saver.Idle? && s.lock == None && s.pending > 0 && s.arrays != [] && s.len <= |Current(s)|
    ensures var r := Exec(parse, s, Round(s.len));
            r.Ends? && SameAsWritten(s, r.state) &&
            r.state == s.(pending := 0, recs := r.state.recs, disk := r.state.disk, lastSaveOk := true,
                everSaved := true)
  {
    hide Exec, SameAsWritten, Repeat, PROLOGUE;
    var copy := Repeat(Copy, s.len) + [OfSave(Encode)];
    var write := Repeat(Read, s.len) + [OfSave(Write)];
    Prologue(parse, s);
    var s1 := Exec(parse, s, PROLOGUE).state;
    ExecConcat(parse, s, PROLOGUE, copy + write);
    CopyPhase(parse, s1);
    ExecConcat(parse, s1, copy, write);
    var s2 := Exec(parse, s1, copy).state;
    WritePhase(parse, s2);
    var s3 := Exec(parse, s2, write).state;
    SameRecords(s, s1);
    SameRecords(s2, s3);
    SameTransitive(s, s1, s2);
    SameTransitive(s, s2, s3);
  }

  lemma SameRecords(s: State, s': State)
    requires s'.live == s.live && s'.arrays == s.arrays && s'.len == s.len && s'.recs == s.recs
    ensures SameAsWritten(s, s')
  {
  }

  lemma SameTransitive(s: State, t: State, u: State)
    requires SameAsWritten(s, t) && SameAsWritten(t, u)
    ensures SameAsWritten(s, u)
  {
  }

  /**
    From any reachable moment at which the saver sleeps and a change is counted
    and complete, an undisturbed round ends with the file current, whether or not
    earlier saves failed.
   */
  lemma SaverCatchesUp(parse: Parse, s: State)
    requires Inv(s) && AtRest(s.(pending := 0)) && s.pending > 0
    ensures var r := Exec(parse, s, Round(s.len));
            r.Ends? && AtRest(r.state) && r.state.live == s.live && r.state.disk == Some(Snapshot(s))
  {
    RoundEnds(parse, s);
    RunKeepsInv(parse, s, Round(s.len));
    var s' := Exec(parse, s, Round(s.len)).state;
    SnapshotFrame(s, s');
    assert Clean(s') && DiskCurrent(s');
  }

  // -- where an update is lost ------------------------------------------------------

  const ONE_KEY := [M.FileKey("", "k", None, None)]

  /** The state after one byte came in for the only key of the file. */
  function OneByte(parse: Parse): State {
    var s := Start(parse, ONE_KEY, 0);
    s.(live := map["k" := M.LiveKey(UNLIMITED, Usage(1, 0))], pending := 1)
  }

  lemma OneKeyStart(parse: Parse)
    ensures var s := Start(parse, ONE_KEY, 0);
            s.live == map["k" := M.LiveKey(UNLIMITED, NO_USAGE)]
                && s.recs == map["k" := M.StoredKey("", "k", None, M.Absent)] && s.arrays == [["k"]] && s.len == 1
  {
    M.LoadLiveLookup(parse, ONE_KEY);
    RecordsLookup(ONE_KEY);
    StartList(parse, ONE_KEY, 0);
    assert ONE_KEY[0].key == "k";
    assert FileKeys(ONE_KEY) + seq(0, i => "") == ["k"];
  }

  lemma OneByteSteps(parse: Parse)
    ensures Exec(parse, Start(parse, ONE_KEY, 0),
                 [OfChange(UseIn(0, "k", 1, 0)), OfChange(UseOut(0)), OfChange(UseCount(0))]) == Ends(OneByte(parse))
  {
    hide Exec, Start;
    OneKeyStart(parse);
    StartIdle(parse);
    var s0 := Start(parse, ONE_KEY, 0);
    var s1 := s0.(live := AddIn(s0, "k", 1), updating := map[0 := InAdded("k", 0)]);
    var s2 := s1.(live := AddOut(s1, "k", 0), updating := map[0 := OutAdded]);
    var a, b, c := OfChange(UseIn(0, "k", 1, 0)), OfChange(UseOut(0)), OfChange(UseCount(0));
    assert Next(parse, s0, a) == s1 && Next(parse, s1, b) == s2;
    assert s2.updating - {0} == map[];
    Three(parse, s0, a, b, c);
  }

  lemma StartIdle(parse: Parse)
    ensures var s := Start(parse, ONE_KEY, 0);
            s.updating == map[] && s.creating == map[] && s.lock == None && s.pending == 0 && s.saver.Idle?
            && s.disk == Some(ONE_KEY) && !s.everSaved && s.len == 1
  {
  }

  lemma FailedRound(parse: Parse, s: State)
    requires s.saver.Idle? && s.pending > 0 && s.lock == None
    ensures Exec(parse, s, [OfSave(See), OfSave(Zero), OfSave(OpenFail)])
              == Ends(s.(pending := 0, lastSaveOk := false, saver := Idle))
  {
    hide Exec;
    Three(parse, s, OfSave(See), OfSave(Zero), OfSave(OpenFail));
  }

  /**
    A save that cannot open the file has already reset the counter: the update it
    was for stays out of the file until some later change is counted.
   */
  lemma FailedSaveLosesUpdate(parse: Parse)
    ensures var r := Exec(parse, Start(parse, ONE_KEY, 0),
                          [OfChange(UseIn(0, "k", 1, 0)), OfChange(UseOut(0)), OfChange(UseCount(0))]
                          + [OfSave(See), OfSave(Zero), OfSave(OpenFail)]);
            r.Ends? && AtRest(r.state) && r.state.len <= |Current(r.state)| && !DiskCurrent(r.state)
  {
    OneByteSteps(parse);
    StartIdle(parse);
    OneKeyStart(parse);
    hide Exec, Start;
    FailedRound(parse, OneByte(parse));
    ExecConcat(parse, Start(parse, ONE_KEY, 0),
               [OfChange(UseIn(0, "k", 1, 0)), OfChange(UseOut(0)), OfChange(UseCount(0))],
               [OfSave(See), OfSave(Zero), OfSave(OpenFail)]);
    var end := OneByte(parse).(pending := 0, lastSaveOk := false, saver := Idle);
    assert Current(end)[0] == "k";
    assert Snapshot(end)[0].usage == Some(Usage(1, 0));
    assert Normal(ONE_KEY[0]) != Normal(Snapshot(end)[0]);
  }

  lemma Three(parse: Parse, s: State, a: Step, b: Step, c: Step)
    requires Enabled(s, a) && Safe(s, a)
    requires Enabled(Next(parse, s, a), b) && Safe(Next(parse, s, a), b)
    requires Enabled(Next(parse, Next(parse, s, a), b), c) && Safe(Next(parse, Next(parse, s, a), b), c)
    ensures Exec(parse, s, [a, b, c]) == Ends(Next(parse, Next(parse, Next(parse, s, a), b), c))
  {
    var s1 := Next(parse, s, a);
    var s2 := Next(parse, s1, b);
    assert [a, b, c][1..] == [b, c];
    assert [b, c][1..] == [c];
    assert [c][1..] == [];
    assert Exec(parse, s2, [c]) == Exec(parse, Next(parse, s2, c), []);
    assert Exec(parse, s1, [b, c]) == Exec(parse, s2, [c]);
  }

  // -- what the file holds --------------------------------------------------------------

  /** How the last save that ended did end. */
  datatype Ending = NoSave | NotOpened | NotWritten | Written

  /** The file as the ends of the saves leave it: a save that cannot open it leaves it alone. */
  datatype Left = Left(file: Option<seq<M.FileKey>>, ending: Ending)

  function LeftStep(s: State, step: Step, l: Left): Left
    requires Enabled(s, step)
  {
    match step
    case OfSave(OpenFail) => Left(l.file, NotOpened)
    case OfSave(WriteFail) => Left(None, NotWritten)
    case OfSave(Write) => Left(Some(s.saver.out), Written)
    case _ => l
  }

  function LeftAlong(parse: Parse, s: State, steps: seq<Step>, l: Left): Left
    decreases |steps|
  {
    if steps == [] || !Enabled(s, steps[0]) || !Safe(s, steps[0]) then l
    else LeftAlong(parse, Next(parse, s, steps[0]), steps[1..], LeftStep(s, steps[0], l))
  }

  /** Between two saves the file is what they left; from the truncation on it holds nothing. */
  predicate DiskIs(s: State, l: Left) {
    && s.disk == (if s.saver.Idle? || s.saver.Seen? || s.saver.Opening? then l.file else None)
    && (s.lastSaveOk <==> l.ending.NoSave? || l.ending.Written?)
  }

  lemma StepDisk(parse: Parse, s: State, step: Step, l: Left)
    requires Enabled(s, step) && Safe(s, step) && DiskIs(s, l)
    ensures DiskIs(Next(parse, s, step), LeftStep(s, step, l))
  {
    match step
    case OfChange(c) =>
      hide DiskIs, SameDisk, DoChange, CanChange, ChangeSafe;
      ChangeDisk(parse, s, c);
      SameDiskIs(s, DoChange(parse, s, c), l);
    case OfSave(v) =>
      hide DiskIs, DoSave, CanSave, SaveSafe, LeftStep;
      SaveDisk(s, v, l);
  }

  lemma SaveDisk(s: State, v: Save, l: Left)
    requires CanSave(s, v) && SaveSafe(s, v) && DiskIs(s, l)
    ensures DiskIs(DoSave(s, v), LeftStep(s, OfSave(v), l))
  {
  }

  lemma SameDiskIs(s: State, t: State, l: Left)
    requires SameDisk(s, t) && DiskIs(s, l)
    ensures DiskIs(t, l)
  {
  }

  predicate SameDisk(s: State, t: State) {
    t.disk == s.disk && t.saver == s.saver && t.lastSaveOk == s.lastSaveOk && t.everSaved == s.everSaved
  }

  lemma ChangeDisk(parse: Parse, s: State, c: Change)
    requires CanChange(s, c) && ChangeSafe(s, c)
    ensures SameDisk(s, DoChange(parse, s, c))
  {
    hide Apply, Removal, Cast, Append, AddIn, AddOut, Enforce, SameDisk;
    if c.LimApply? {
      LimitDisk(parse, s);
    } else {
      OtherDisk(parse, s, c);
    }
  }

  lemma LimitDisk(parse: Parse, s: State)
    requires CanChange(s, LimApply)
    ensures SameDisk(s, DoChange(parse, s, LimApply))
  {
    hide Apply, Enforce, Removal, Cast, Append, AddIn, AddOut;
    var l := s.lock.value;
    if l.key in s.live {
      EnforceDisk(s, l.key, l.limit, Apply(parse, s.live[l.key].enforced, l.limit));
    }
  }

  lemma EnforceDisk(s: State, key: string, limit: Option<Limit>, applied: (Enforced, bool))
    requires key in s.live
    ensures SameDisk(s, Enforce(s, key, limit, applied))
  {
  }

  lemma OtherDisk(parse: Parse, s: State, c: Change)
    requires CanChange(s, c) && ChangeSafe(s, c) && !c.LimApply?
    ensures SameDisk(s, DoChange(parse, s, c))
  {
    hide Apply, Removal, Cast, Append, AddIn, AddOut, Enforce;
  }

  lemma {:induction false} RunDisk(parse: Parse, s: State, steps: seq<Step>, l: Left)
    requires DiskIs(s, l) && Exec(parse, s, steps).Ends?
    ensures DiskIs(Exec(parse, s, steps).state, LeftAlong(parse, s, steps, l))
    decreases |steps|
  {
    hide DiskIs, LeftStep, Next;
    if steps == [] {
    } else {
      StepDisk(parse, s, steps[0], l);
      RunDisk(parse, Next(parse, s, steps[0]), steps[1..], LeftStep(s, steps[0], l));
    }
  }

  /**
    What the file holds, in every interleaving: at rest it is the current state if the
    last save wrote it or there was none; it holds no list at all, and is not current,
    if the last save that opened it did not write it, also when later ones could not
    open it; and after saves that could not open it, it is what the last one that did
    has left.
   */
  lemma FileAfterSaves(parse: Parse, file: seq<M.FileKey>, spare: nat, steps: seq<Step>)
    requires M.UniqueFile(file)
    ensures var s := Start(parse, file, spare);
            var r := Exec(parse, s, steps);
            var l := LeftAlong(parse, s, steps, Left(Some(file), NoSave));
            r.Ends? && AtRest(r.state) ==>
              && r.state.len <= |Current(r.state)| && r.state.disk == l.file
              && (l.ending.NoSave? || l.ending.Written? ==> DiskCurrent(r.state))
              && (l.ending.NotWritten? ==> l.file == None)
              && (l.file == None ==> !DiskCurrent(r.state))
  {
    hide Exec, LeftAlong;
    var s := Start(parse, file, spare);
    NoLostUpdate(parse, file, spare, steps);
    if Exec(parse, s, steps).Ends? {
      RunDisk(parse, s, steps, Left(Some(file), NoSave));
      NotWrittenLeavesNothing(parse, s, steps, Left(Some(file), NoSave));
    }
  }

  lemma {:induction false} NotWrittenLeavesNothing(parse: Parse, s: State, steps: seq<Step>, l: Left)
    requires l.ending.NotWritten? ==> l.file == None
    ensures var m := LeftAlong(parse, s, steps, l); m.ending.NotWritten? ==> m.file == None
    decreases |steps|
  {
    hide Next;
    if steps == [] || !Enabled(s, steps[0]) || !Safe(s, steps[0]) {
    } else {
      NotWrittenLeavesNothing(parse, Next(parse, s, steps[0]), steps[1..], LeftStep(s, steps[0], l));
    }
  }
}
