/**
  Usage accounting over every interleaving. The In and Out bytes of one call are
  added in two statements without the lock, and a reset may come between them.
 */
module AclPersistUsage {
  import opened Common
  import opened Quota
  import opened Limits
  import opened AclPersist
  import opened AclPersistRuns
  import M = AclModel

  /** Bytes added for a key in one direction since it was created or last reset, as a plain sum. */
  function Total(s: State, step: Step, k: string, incoming: bool, sum: int): int
    requires Enabled(s, step)
  {
    match step
    case OfChange(UseIn(_, key, inb, _)) => if incoming && key == k && k in s.live then sum + inb else sum
    case OfChange(UseOut(t)) => if !incoming && s.updating[t].key == k && k in s.live then sum + s.updating[t].out
        else sum
    case OfChange(ResApply) => if s.lock.value.key == k && k in s.live then 0 else sum
    case OfChange(NewInsert(key, _)) => if key == k then 0 else sum
    case _ => sum
  }

  function TotalAlong(parse: Parse, s: State, steps: seq<Step>, k: string, incoming: bool, sum: int): int
    decreases |steps|
  {
    if steps == [] || !Enabled(s, steps[0]) || !Safe(s, steps[0]) then sum
    else TotalAlong(parse, Next(parse, s, steps[0]), steps[1..], k, incoming, Total(s, steps[0], k, incoming, sum))
  }

  function Used(u: Usage, incoming: bool): Word64 {
    if incoming then u.inb else u.out
  }

  predicate Accounts(s: State, k: string, incoming: bool, sum: int) {
    k in s.live ==> Used(s.live[k].usage, incoming) == sum % TWO_64
  }

  lemma UseAccounts(parse: Parse, s: State, c: Change, k: string, incoming: bool, sum: int)
    requires CanChange(s, c) && ChangeSafe(s, c) && (c.UseIn? || c.UseOut?) && Accounts(s, k, incoming, sum)
    ensures Accounts(DoChange(parse, s, c), k, incoming, Total(s, OfChange(c), k, incoming, sum))
  {
    if c.UseIn? {
      M.ModAdd(sum, c.inb);
    } else {
      M.ModAdd(sum, s.updating[c.t].out);
    }
  }

  lemma OtherAccounts(parse: Parse, s: State, c: Change, k: string, incoming: bool, sum: int)
    requires CanChange(s, c) && ChangeSafe(s, c) && !c.UseIn? && !c.UseOut? && Accounts(s, k, incoming, sum)
    ensures Accounts(DoChange(parse, s, c), k, incoming, Total(s, OfChange(c), k, incoming, sum))
  {
    hide Apply, Removal, Cast, Append;
  }

  lemma StepAccounts(parse: Parse, s: State, step: Step, k: string, incoming: bool, sum: int)
    requires Enabled(s, step) && Safe(s, step) && Accounts(s, k, incoming, sum)
    ensures Accounts(Next(parse, s, step), k, incoming, Total(s, step, k, incoming, sum))
  {
    match step
    case OfChange(c) =>
      hide Accounts, Total, DoChange;
      if c.UseIn? || c.UseOut? {
        UseAccounts(parse, s, c, k, incoming, sum);
      } else {
        OtherAccounts(parse, s, c, k, incoming, sum);
      }
    case OfSave(v) =>
      assert DoSave(s, v).live == s.live;
  }

  lemma {:induction false} RunAccounts(parse: Parse, s: State, steps: seq<Step>, k: string, incoming: bool, sum: int)
    requires Accounts(s, k, incoming, sum) && Exec(parse, s, steps).Ends?
    ensures Accounts(Exec(parse, s, steps).state, k, incoming, TotalAlong(parse, s, steps, k, incoming, sum))
    decreases |steps|
  {
    hide Accounts, Total, Next;
    if steps == [] {
    } else {
      StepAccounts(parse, s, steps[0], k, incoming, sum);
      RunAccounts(parse, Next(parse, s, steps[0]), steps[1..], k, incoming, Total(s, steps[0], k, incoming, sum));
    }
  }

  /** The usage the file gives a key. */
  function FileUsage(parse: Parse, file: seq<M.FileKey>, k: string): Usage {
    if k in M.LoadLive(parse, file) then M.LoadLive(parse, file)[k].usage else NO_USAGE
  }

  /**
    In every interleaving, at every moment, what a live key has used in one direction
    is, modulo 2^64, what the file gave it plus the bytes added by the statements since,
    or those since its creation or its last reset; saving adds nothing.
   */
  lemma UsageInEveryRun(parse: Parse, file: seq<M.FileKey>, spare: nat, steps: seq<Step>, k: string, incoming: bool)
    ensures var r := Exec(parse, Start(parse, file, spare), steps);
            r.Ends? && k in r.state.live ==>
              Used(r.state.live[k].usage, incoming)
              == TotalAlong(parse, Start(parse, file, spare), steps, k, incoming,
                  Used(FileUsage(parse, file, k), incoming)) % TWO_64
  {
    var s := Start(parse, file, spare);
    if Exec(parse, s, steps).Ends? {
      RunAccounts(parse, s, steps, k, incoming, Used(FileUsage(parse, file, k), incoming));
    }
  }

  // -- by calls --------------------------------------------------------------------

  /** Bytes the calls for a live key report in one direction. */
  function Reported(s: State, step: Step, k: string, incoming: bool): int {
    if step.OfChange? && step.change.UseIn? && step.change.key == k && k in s.live
    then if incoming then step.change.inb else step.change.out
    else 0
  }

  function ReportedAlong(parse: Parse, s: State, steps: seq<Step>, k: string, incoming: bool): int
    decreases |steps|
  {
    if steps == [] || !Enabled(s, steps[0]) || !Safe(s, steps[0]) then 0
    else Reported(s, steps[0], k, incoming) + ReportedAlong(parse, Next(parse, s, steps[0]), steps[1..], k, incoming)
  }

  /** No step of the run resets, creates or deletes the key. */
  predicate LeavesKey(parse: Parse, s: State, steps: seq<Step>, k: string)
    decreases |steps|
  {
    steps == [] || !Enabled(s, steps[0]) || !Safe(s, steps[0]) ||
    (!Touches(s, steps[0], k) && LeavesKey(parse, Next(parse, s, steps[0]), steps[1..], k))
  }

  predicate Touches(s: State, step: Step, k: string)
    requires Enabled(s, step)
  {
    match step
    case OfChange(ResApply) => s.lock.value.key == k
    case OfChange(NewInsert(key, _)) => key == k
    case OfChange(DelStart(key)) => key == k
    case _ => false
  }

  function DueOf(u: Update, k: string): int {
    if u.InAdded? && u.key == k then u.out else 0
  }

  /** Out bytes for a key of calls that have only added their In bytes. */
  ghost function Due(m: map<nat, Update>, k: string): int {
    if m == map[] then 0
    else
      var t :| t in m;
      DueOf(m[t], k) + Due(m - {t}, k)
  }

  lemma {:induction false} DueWithout(m: map<nat, Update>, k: string, t: nat)
    requires t in m
    ensures Due(m, k) == DueOf(m[t], k) + Due(m - {t}, k)
    decreases |m|
  {
    var u: nat :| u in m && Due(m, k) == DueOf(m[u], k) + Due(m - {u}, k);
    if u != t {
      DueWithout(m - {u}, k, t);
      DueWithout(m - {t}, k, u);
      assert (m - {u}) - {t} == (m - {t}) - {u};
    }
  }

  lemma DueWith(m: map<nat, Update>, k: string, t: nat, u: Update)
    ensures Due(m[t := u], k) == DueOf(u, k) + Due(m - {t}, k)
  {
    DueWithout(m[t := u], k, t);
    assert m[t := u] - {t} == m - {t};
  }

  ghost function DueIn(s: State, k: string, incoming: bool): int {
    if incoming then 0 else Due(s.updating, k)
  }

  lemma DueIs(key: string, out: Word64, k: string)
    ensures DueOf(InAdded(key, out), k) == (if key == k then out else 0) && DueOf(OutAdded, k) == 0
  {
  }

  lemma UseReported(parse: Parse, s: State, c: Change, k: string, incoming: bool, sum: int)
    requires CanChange(s, c) && (c.UseIn? || c.UseOut? || c.UseCount?) && k in s.live
    ensures k in DoChange(parse, s, c).live
    ensures Total(s, OfChange(c), k, incoming, sum) + DueIn(DoChange(parse, s, c), k, incoming)
            == sum + DueIn(s, k, incoming) + Reported(s, OfChange(c), k, incoming)
  {
    hide Due, DueOf;
    match c
    case UseIn(t, key, inb, out) =>
      DueWith(s.updating, k, t, InAdded(key, out));
      assert s.updating - {t} == s.updating;
      DueIs(key, out, k);
    case UseOut(t) =>
      DueWithout(s.updating, k, t);
      DueWith(s.updating, k, t, OutAdded);
      DueIs(s.updating[t].key, s.updating[t].out, k);
    case UseCount(t) =>
      DueWithout(s.updating, k, t);
      DueIs(k, 0, k);
    case _ =>
  }

  lemma OtherUpdating(parse: Parse, s: State, c: Change)
    requires CanChange(s, c) && ChangeSafe(s, c) && !c.UseIn? && !c.UseOut? && !c.UseCount?
    ensures DoChange(parse, s, c).updating == s.updating
    ensures !c.DelStart? ==> s.live.Keys <= DoChange(parse, s, c).live.Keys
    ensures c.DelStart? ==> DoChange(parse, s, c).live == s.live - {c.key}
  {
    hide Apply, Removal, Cast, Append, AddIn, AddOut, Enforce;
    if c.LimApply? {
      EnforceUpdating(parse, s);
    }
  }

  lemma EnforceUpdating(parse: Parse, s: State)
    requires CanChange(s, LimApply)
    ensures var s' := DoChange(parse, s, LimApply); s'.updating == s.updating && s'.live.Keys == s.live.Keys
  {
    hide Apply;
  }

  lemma SaveReported(s: State, v: Save, k: string, incoming: bool, sum: int)
    requires CanSave(s, v) && SaveSafe(s, v)
    ensures DoSave(s, v).live == s.live && DueIn(DoSave(s, v), k, incoming) == DueIn(s, k, incoming)
    ensures Total(s, OfSave(v), k, incoming, sum) == sum && Reported(s, OfSave(v), k, incoming) == 0
  {
    hide Due;
  }

  lemma OtherReported(parse: Parse, s: State, c: Change, k: string, incoming: bool, sum: int)
    requires CanChange(s, c) && ChangeSafe(s, c) && !c.UseIn? && !c.UseOut? && !c.UseCount?
    requires !Touches(s, OfChange(c), k) && k in s.live
    ensures k in DoChange(parse, s, c).live && DueIn(DoChange(parse, s, c), k, incoming) == DueIn(s, k, incoming)
    ensures Total(s, OfChange(c), k, incoming, sum) == sum && Reported(s, OfChange(c), k, incoming) == 0
  {
    hide Due, DoChange, ChangeSafe, CanChange;
    OtherUpdating(parse, s, c);
  }

  /** What has been added, and what is still to be added, is what the calls report. */
  lemma StepReported(parse: Parse, s: State, step: Step, k: string, incoming: bool, sum: int)
    requires Enabled(s, step) && Safe(s, step) && !Touches(s, step, k) && k in s.live
    ensures k in Next(parse, s, step).live
    ensures Total(s, step, k, incoming, sum) + DueIn(Next(parse, s, step), k, incoming)
            == sum + DueIn(s, k, incoming) + Reported(s, step, k, incoming)
  {
    hide DueIn, Total, Reported, Touches, DoChange, DoSave, ChangeSafe, CanChange, SaveSafe, CanSave;
    match step
    case OfSave(v) => SaveReported(s, v, k, incoming, sum);
    case OfChange(c) =>
      if c.UseIn? || c.UseOut? || c.UseCount? {
        UseReported(parse, s, c, k, incoming, sum);
      } else {
        OtherReported(parse, s, c, k, incoming, sum);
      }
  }

  lemma {:induction false} RunReported(parse: Parse, s: State, steps: seq<Step>, k: string, incoming: bool, sum: int)
    requires Exec(parse, s, steps).Ends? && LeavesKey(parse, s, steps, k) && k in s.live
    ensures var t := Exec(parse, s, steps).state;
            && k in t.live
            && TotalAlong(parse, s, steps, k, incoming, sum) + DueIn(t, k, incoming)
               == sum + DueIn(s, k, incoming) + ReportedAlong(parse, s, steps, k, incoming)
    decreases |steps|
  {
    hide DueIn, Total, Reported, Next, Touches;
    if steps == [] {
    } else {
      StepReported(parse, s, steps[0], k, incoming, sum);
      RunReported(parse, Next(parse, s, steps[0]), steps[1..], k, incoming, Total(s, steps[0], k, incoming, sum));
    }
  }

  /**
    In every interleaving that neither resets nor deletes a key of the file, once no
    call is half-way its usage is what the file gave it plus what the calls reported,
    modulo 2^64, in both directions.
   */
  lemma UsageConserved(parse: Parse, file: seq<M.FileKey>, spare: nat, steps: seq<Step>, k: string, incoming: bool)
    requires k in M.LoadLive(parse, file)
    ensures var s := Start(parse, file, spare);
            var r := Exec(parse, s, steps);
            r.Ends? && LeavesKey(parse, s, steps, k) && r.state.updating == map[] ==>
              && k in r.state.live
              && Used(r.state.live[k].usage, incoming)
                 == (Used(FileUsage(parse, file, k), incoming) + ReportedAlong(parse, s, steps, k, incoming)) % TWO_64
  {
    hide Exec, LeavesKey, TotalAlong, ReportedAlong, Start, M.LoadLive, Due;
    var s := Start(parse, file, spare);
    StartUsage(parse, file, spare);
    if Exec(parse, s, steps).Ends? && LeavesKey(parse, s, steps, k) {
      RunReported(parse, s, steps, k, incoming, Used(FileUsage(parse, file, k), incoming));
      UsageInEveryRun(parse, file, spare, steps, k, incoming);
      NothingDue(k);
    }
  }

  lemma StartUsage(parse: Parse, file: seq<M.FileKey>, spare: nat)
    ensures var s := Start(parse, file, spare); s.live == M.LoadLive(parse, file) && s.updating == map[]
  {
  }

  lemma NothingDue(k: string)
    ensures Due(map[], k) == 0
  {
  }

  /** A reset between the two halves of a call keeps only the second half. */
  lemma ResetBetweenHalves(parse: Parse, s: State, t: nat, key: string, inb: Word64, out: Word64)
    requires s.lock == None && t !in s.updating && key in s.live && key !in s.creating
    ensures var r := Exec(parse, s,
            [OfChange(UseIn(t, key, inb, out)), OfChange(ResStart(key)), OfChange(ResApply)] + [OfChange(UseOut(t))]);
            r.Ends? && key in r.state.live && r.state.live[key].usage == Usage(0, out)
  {
    hide Exec;
    var a, b, c, d := OfChange(UseIn(t, key, inb, out)), OfChange(ResStart(key)), OfChange(ResApply),
        OfChange(UseOut(t));
    Three(parse, s, a, b, c);
    var s3 := Next(parse, Next(parse, Next(parse, s, a), b), c);
    ExecConcat(parse, s, [a, b, c], [d]);
    assert [d] == [d] + [];
    ExecCons(parse, s3, d, []);
    EmptyRun(parse, Next(parse, s3, d));
  }
}
