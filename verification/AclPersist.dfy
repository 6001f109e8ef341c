/**
  The access control list under concurrency: any number of goroutines changing it
  and one background saver, interleaved statement by statement. Stored records are
  reached through slices of pointers; a pointer is identified by its record's key.

  The pending counter is the saver's only signal. It is read without the lock
  and set to zero under the lock, while most of what a save reads is read without
  it, so a save may well write a half-made change. What is shown is that such a
  change always leaves the counter positive, and another save follows.
 */
module AclPersist {
  import opened Common
  import opened Quota
  import opened Limits
  import M = AclModel
  import D = SliceDelete

  /** An UpdateBytesUsage in progress: after the In bytes, and after the Out bytes. */
  datatype Update = InAdded(key: string, out: Word64) | OutAdded

  /** The operation that holds the lock, and how far it is. */
  datatype Locked =
    | Appended                                         // NewKey: stored, change not counted
    | Deleted(key: string)                             // DelKey: out of the live table, not counted
    | DeleteCounted(key: string)                       // DelKey: counted, record still stored
    | LimitCounted(key: string, limit: Option<Limit>)  // Limit: counted, nothing applied
    | LimitApplied(key: string, limit: Option<Limit>)  // Limit: enforced, not stored
    | ResetCounted(key: string)                        // DelUsage: counted, usage not replaced

  /** Something has changed that the counter does not show yet. */
  predicate Uncounted(l: Locked) {
    l.Appended? || l.Deleted?
  }

  /** The saver; a slice header is the number of its backing array and a length. */
  datatype Saver =
    | Idle
    | Seen                                                 // found the counter positive
    | Opening                                              // has set it to zero
    | Truncated
    | Copying(arr: nat, len: nat, next: nat)
    | Encoding(arr: nat, len: nat, out: seq<M.FileKey>)

  datatype State = State(
    live: map<string, M.LiveKey>,
    recs: map<string, M.StoredKey>,  // records that were ever stored, by key
    arrays: seq<seq<string>>,        // backing arrays of the stored list, the current one last
    len: nat,                        // length of the current list
    pending: nat,
    lock: Option<Locked>,
    updating: map<nat, Update>,      // by goroutine
    creating: map<string, string>,   // keys of NewKey calls that are about to lock, with names
    disk: Option<seq<M.FileKey>>,    // None while the file is truncated
    saver: Saver,
    lastSaveOk: bool,                // the last save that ended did write the file; true before the first
    everSaved: bool)

  function Current(s: State): seq<string> {
    if s.arrays == [] then [] else s.arrays[|s.arrays| - 1]
  }

  function List(s: State): seq<string>
    requires s.len <= |Current(s)|
  {
    Current(s)[..s.len]
  }

  /** The statements of the operations that change the list. */
  datatype Change =
    | UseIn(t: nat, key: string, inb: Word64, out: Word64)
    | UseOut(t: nat)
    | UseCount(t: nat)
    | NewInsert(key: string, name: string)
    | NewAppend(key: string, spare: nat)
    | NewCount
    | DelStart(key: string)
    | DelCount
    | DelFilter
    | LimStart(key: string, limit: Option<Limit>)
    | LimApply
    | LimStore
    | ResStart(key: string)
    | ResApply

  /** The statements of the background saver; opening and writing the file may fail. */
  datatype Save = See | Zero | OpenFail | Truncate | Range | Copy | Encode | Read | WriteFail | Write

  datatype Step = OfChange(change: Change) | OfSave(save: Save)

  predicate CanChange(s: State, c: Change) {
    match c
    case UseIn(t, _, _, _) => t !in s.updating
    case UseOut(t) => t in s.updating && s.updating[t].InAdded?
    case UseCount(t) => t in s.updating && s.updating[t].OutAdded? && s.lock == None
    // a freshly generated key is one nobody has used, nor names just now
    case NewInsert(key, _) => key !in s.live && key !in s.recs && key !in s.creating && !Named(s, key)
    case NewAppend(key, _) => key in s.creating && s.lock == None
    case NewCount => s.lock.Some? && s.lock.value.Appended?
    // a key in creation has not been handed out, so nobody can name it yet
    case DelStart(key) => s.lock == None && key !in s.creating
    case DelCount => s.lock.Some? && s.lock.value.Deleted?
    case DelFilter => s.lock.Some? && s.lock.value.DeleteCounted?
    case LimStart(key, _) => s.lock == None && key !in s.creating
    case LimApply => s.lock.Some? && s.lock.value.LimitCounted?
    case LimStore => s.lock.Some? && s.lock.value.LimitApplied?
    case ResStart(key) => s.lock == None && key !in s.creating
    case ResApply => s.lock.Some? && s.lock.value.ResetCounted?
  }

  /** The operation that holds the lock is about this key. */
  predicate Named(s: State, key: string) {
    s.lock.Some? && !s.lock.value.Appended? && s.lock.value.key == key
  }

  predicate CanSave(s: State, v: Save) {
    match v
    case See => s.saver.Idle? && s.pending > 0
    case Zero => s.saver.Seen? && s.lock == None
    case OpenFail => s.saver.Opening?
    case Truncate => s.saver.Opening?
    case Range => s.saver.Truncated?
    case Copy => s.saver.Copying? && s.saver.next < s.saver.len
    case Encode => s.saver.Copying? && s.saver.next >= s.saver.len
    case Read => s.saver.Encoding? && |s.saver.out| < s.saver.len
    case WriteFail => s.saver.Encoding? && |s.saver.out| >= s.saver.len
    case Write => s.saver.Encoding? && |s.saver.out| >= s.saver.len
  }

  /** A record that points to a live counter about to disappear keeps that counter's value. */
  function Cast(recs: map<string, M.StoredKey>, live: map<string, M.LiveKey>, key: string): map<string, M.StoredKey> {
    if key in recs && key in live && recs[key].usage == M.Shared
    then recs[key := recs[key].(usage := M.Detached(live[key].usage))]
    else recs
  }

  /** append(list, key): in place when the array has room, else into a larger copy. */
  function Append(arrays: seq<seq<string>>, len: nat, key: string, spare: nat): seq<seq<string>>
    requires arrays != [] && len <= |arrays[|arrays| - 1]|
  {
    var cur := arrays[|arrays| - 1];
    if len < |cur| then arrays[|arrays| - 1 := cur[len := key]]
    else arrays + [cur[..len] + [key] + seq(spare, i => "")]
  }

  /** DelKey's loop over the stored list; None is a panic. */
  function Removal(s: State, key: string): Option<D.Slice<string>>
    requires s.len <= |Current(s)|
  {
    D.Delete(D.Slice(Current(s), s.len), 0, s.len, (k: string) => k == key)
  }

  /** The slice operations of the step stay in bounds. */
  predicate ChangeSafe(s: State, c: Change) {
    match c
    case NewAppend(_, _) => s.arrays != [] && s.len <= |Current(s)|
    case DelFilter => s.arrays != [] && s.len <= |Current(s)| && s.lock.Some? && s.lock.value.DeleteCounted?
                      && Removal(s, s.lock.value.key).Some?
    case _ => true
  }

  predicate SaveSafe(s: State, v: Save) {
    match v
    case Range => s.arrays != []
    case Encode => s.arrays != []
    case Copy => s.saver.Copying? && s.saver.arr < |s.arrays| && s.saver.next < |s.arrays[s.saver.arr]|
    case Read => s.saver.Encoding? && s.saver.arr < |s.arrays| && |s.saver.out| < |s.arrays[s.saver.arr]|
    case _ => true
  }

  function ReadRecord(s: State, key: string): M.FileKey {
    if key in s.recs then M.WriteKey(s.recs[key], s.live) else M.FileKey("", key, None, None)
  }

  function AddIn(s: State, key: string, inb: Word64): map<string, M.LiveKey>
    requires key in s.live
  {
    var k := s.live[key];
    s.live[key := k.(usage := k.usage.(inb := WrapAdd(k.usage.inb, inb)))]
  }

  /** A key deleted in the meantime takes the bytes to an object nobody reaches. */
  function AddOut(s: State, key: string, out: Word64): map<string, M.LiveKey> {
    if key !in s.live then s.live
    else
      var k := s.live[key];
      s.live[key := k.(usage := k.usage.(out := WrapAdd(k.usage.out, out)))]
  }

  /** Enforce what applyACLKeyLimit returned; on an error the lock is released at once. */
  function Enforce(s: State, key: string, limit: Option<Limit>, applied: (Enforced, bool)): State
    requires key in s.live
  {
    s.(live := s.live[key := s.live[key].(enforced := applied.0)],
       lock := if applied.1 then Some(LimitApplied(key, limit)) else None)
  }

  function DoChange(parse: Parse, s: State, c: Change): State
    requires CanChange(s, c) && ChangeSafe(s, c)
  {
    match c
    case UseIn(t, key, inb, out) =>
      if key !in s.live then s
      else s.(live := AddIn(s, key, inb), updating := s.updating[t := InAdded(key, out)])
    case UseOut(t) =>
      s.(live := AddOut(s, s.updating[t].key, s.updating[t].out), updating := s.updating[t := OutAdded])
    case UseCount(t) =>
      s.(pending := s.pending + 1, updating := s.updating - {t})
    case NewInsert(key, name) =>
      s.(live := s.live[key := M.LiveKey(UNLIMITED, NO_USAGE)], creating := s.creating[key := name])
    case NewAppend(key, spare) =>
      s.(recs := s.recs[key := M.StoredKey(s.creating[key], key, None, M.Absent)],
         arrays := Append(s.arrays, s.len, key, spare), len := s.len + 1,
         lock := Some(Appended), creating := s.creating - {key})
    case NewCount =>
      s.(pending := s.pending + 1, lock := None)
    case DelStart(key) =>
      s.(recs := Cast(s.recs, s.live, key), live := s.live - {key}, lock := Some(Deleted(key)))
    case DelCount =>
      s.(pending := s.pending + 1, lock := Some(DeleteCounted(s.lock.value.key)))
    case DelFilter =>
      var r := Removal(s, s.lock.value.key).value;
      s.(arrays := s.arrays[|s.arrays| - 1 := r.slots], len := r.len, lock := None)
    case LimStart(key, limit) =>
      s.(pending := s.pending + 1, lock := Some(LimitCounted(key, limit)))
    case LimApply =>
      var l := s.lock.value;
      if l.key !in s.live then s.(lock := None)
      else Enforce(s, l.key, l.limit, Apply(parse, s.live[l.key].enforced, l.limit))
    case LimStore =>
      var l := s.lock.value;
      s.(recs := if l.key in s.recs then s.recs[l.key := s.recs[l.key].(limit := l.limit)] else s.recs,
         lock := None)
    case ResStart(key) =>
      s.(pending := s.pending + 1, lock := Some(ResetCounted(key)))
    case ResApply =>
      var key := s.lock.value.key;
      s.(recs := Cast(s.recs, s.live, key),
         live := if key in s.live then s.live[key := s.live[key].(usage := NO_USAGE)] else s.live,
         lock := None)
  }

  function DoSave(s: State, v: Save): State
    requires CanSave(s, v) && SaveSafe(s, v)
  {
    match v
    case See => s.(saver := Seen)
    case Zero => s.(pending := 0, saver := Opening)
    case OpenFail => s.(saver := Idle, lastSaveOk := false)
    case Truncate => s.(disk := None, saver := Truncated)
    case Range => s.(saver := Copying(|s.arrays| - 1, s.len, 0))
    case Copy =>
      var key := s.arrays[s.saver.arr][s.saver.next];
      s.(recs := if key in s.live && key in s.recs then s.recs[key := s.recs[key].(usage := M.Shared)] else s.recs,
         saver := s.saver.(next := s.saver.next + 1))
    case Encode => s.(saver := Encoding(|s.arrays| - 1, s.len, []))
    case Read =>
      s.(saver := s.saver.(out := s.saver.out + [ReadRecord(s, s.arrays[s.saver.arr][|s.saver.out|])]))
    case WriteFail => s.(saver := Idle, lastSaveOk := false)
    case Write => s.(disk := Some(s.saver.out), saver := Idle, lastSaveOk := true, everSaved := true)
  }

  predicate Enabled(s: State, step: Step) {
    match step
    case OfChange(c) => CanChange(s, c)
    case OfSave(v) => CanSave(s, v)
  }

  predicate Safe(s: State, step: Step) {
    match step
    case OfChange(c) => ChangeSafe(s, c)
    case OfSave(v) => SaveSafe(s, v)
  }

  function Next(parse: Parse, s: State, step: Step): State
    requires Enabled(s, step) && Safe(s, step)
  {
    match step
    case OfChange(c) => DoChange(parse, s, c)
    case OfSave(v) => DoSave(s, v)
  }

  // -- what should be on disk -------------------------------------------------

  /** One record as it is written once the pointer copy has been made. */
  function Fresh(s: State, key: string): M.FileKey {
    if key in s.recs
    then M.WriteKey(if key in s.live then s.recs[key].(usage := M.Shared) else s.recs[key], s.live)
    else M.FileKey("", key, None, None)
  }

  function Snapshot(s: State): seq<M.FileKey>
    requires s.len <= |Current(s)|
  {
    seq(s.len, i requires 0 <= i < s.len => Fresh(s, Current(s)[i]))
  }

  /** Nil usage counts as zero and an empty list as nil. */
  function Normal(k: M.FileKey): M.FileKey {
    k.(limit := M.JsonOption(k.limit), usage := Some(if k.usage.Some? then k.usage.value else NO_USAGE))
  }

  ghost predicate SameFile(f: seq<M.FileKey>, g: seq<M.FileKey>) {
    |f| == |g| && forall i :: 0 <= i < |f| ==> Normal(f[i]) == Normal(g[i])
  }

  /** The counter is zero and no operation has changed anything it has not counted. */
  predicate Clean(s: State) {
    s.pending == 0 && s.updating == map[] && s.creating == map[] && (s.lock.Some? ==> !Uncounted(s.lock.value))
  }

  /**
    The file a save wrote is the snapshot itself; the file the server was started
    with is the snapshot up to what saving normalises.
   */
  ghost predicate DiskCurrent(s: State)
    requires s.len <= |Current(s)|
  {
    s.disk.Some? && (if s.everSaved then s.disk.value == Snapshot(s) else SameFile(s.disk.value, Snapshot(s)))
  }

  // -- the invariant ------------------------------------------------------------

  /** Inside the lock a counted change stays counted: zeroing needs the lock. */
  predicate LockInv(s: State) {
    s.lock.Some? && !Uncounted(s.lock.value) ==> s.pending > 0
  }

  predicate BeingDeleted(s: State, key: string) {
    s.lock.Some? && (s.lock.value.Deleted? || s.lock.value.DeleteCounted?) && s.lock.value.key == key
  }

  ghost predicate ListInv(s: State) {
    && s.arrays != [] && s.len <= |Current(s)|
    && D.Distinct(List(s))
    && (forall k :: k in List(s) ==> k in s.recs)
    && (forall k :: k in s.recs ==> s.recs[k].key == k && k !in s.creating)
    && (forall k :: k in s.recs && k !in s.live ==> s.recs[k].usage != M.Shared)
  }

  /** The two representations agree but for keys in creation or in deletion. */
  ghost predicate TableInv(s: State) {
    && ListInv(s)
    && (forall k :: k in List(s) ==> k in s.live || BeingDeleted(s, k))
    && (forall k :: k in s.live ==> k in List(s) || k in s.creating)
    && (forall k :: k in s.creating ==> k in s.live)
    && (forall k :: BeingDeleted(s, k) ==> k !in s.live && k !in s.creating)
  }

  /** The saver's slices stay within their arrays. */
  predicate RangeInv(s: State) {
    match s.saver
    case Copying(arr, len, next) => arr < |s.arrays| && next <= len <= |s.arrays[arr]|
    case Encoding(arr, len, out) => arr < |s.arrays| && |out| <= len <= |s.arrays[arr]|
    case _ => true
  }

  ghost predicate Copied(s: State, n: nat)
    requires n <= s.len <= |Current(s)|
  {
    forall j :: 0 <= j < n && Current(s)[j] in s.live && Current(s)[j] in s.recs ==>
                  s.recs[Current(s)[j]].usage == M.Shared
  }

  /** While nothing is pending, a running save sees exactly the current state. */
  ghost predicate SaveInv(s: State)
    requires s.len <= |Current(s)|
  {
    Clean(s) ==>
      match s.saver
      case Idle => s.lastSaveOk ==> DiskCurrent(s)
      case Copying(arr, len, next) =>
        arr == |s.arrays| - 1 && len == s.len && next <= len && Copied(s, next)
      case Encoding(arr, len, out) =>
        arr == |s.arrays| - 1 && len == s.len && |out| <= len && Copied(s, len) && out == Snapshot(s)[..|out|]
      case _ => true
  }

  ghost predicate Inv(s: State) {
    LockInv(s) && TableInv(s) && RangeInv(s) && SaveInv(s)
  }

  // -- every step is safe and keeps the invariant -----------------------------

  /** The deletion inside DelKey does not panic and removes the one pointer it is after. */
  lemma RemovalExact(s: State, key: string)
    requires ListInv(s)
    ensures var r := Removal(s, key);
            r.Some? && |r.value.slots| == |Current(s)| && r.value.len <= |Current(s)| &&
            D.Distinct(r.value.slots[..r.value.len]) &&
            forall k :: k in r.value.slots[..r.value.len] <==> k in List(s) && k != key
  {
    var hit := (k: string) => k == key;
    var sl := D.Slice(Current(s), s.len);
    assert forall i :: 0 <= i < s.len ==> List(s)[i] == Current(s)[i];
    D.DeleteUnique(sl, hit);
    D.DeleteSameArray(sl, 0, s.len, hit);
    D.FilterExact(D.Content(sl), hit);
  }

  /** No step panics: not DelKey's deletions, and not the saver's stale slices. */
  lemma StepSafe(s: State, step: Step)
    requires Inv(s) && Enabled(s, step)
    ensures Safe(s, step)
  {
    if step.OfChange? && step.change.DelFilter? {
      RemovalExact(s, s.lock.value.key);
    }
  }

  lemma AppendExact(arrays: seq<seq<string>>, len: nat, key: string, spare: nat)
    requires arrays != [] && len <= |arrays[|arrays| - 1]|
    ensures var r := Append(arrays, len, key, spare);
            |r| >= |arrays| && len + 1 <= |r[|r| - 1]| &&
            r[|r| - 1][..len + 1] == arrays[|arrays| - 1][..len] + [key] &&
            forall a :: 0 <= a < |arrays| ==> |r[a]| == |arrays[a]|
  {
  }

  /** Only a key in creation joins the list, with a new record. */
  lemma TableGrown(s: State, s': State, key: string, r: M.StoredKey)
    requires TableInv(s) && key in s.creating && s.lock == None
    requires r.key == key && r.usage == M.Absent && s'.recs == s.recs[key := r]
    requires s'.live == s.live && s'.creating == s.creating - {key} && s'.lock == Some(Appended)
    requires s'.arrays != [] && s'.len <= |Current(s')| && List(s') == List(s) + [key]
    ensures TableInv(s')
  {
    hide Current, List;
    assert forall k :: k in List(s') <==> k in List(s) || k == key;
  }

  lemma TableNewAppend(parse: Parse, s: State, key: string, spare: nat)
    requires TableInv(s) && CanChange(s, NewAppend(key, spare)) && ChangeSafe(s, NewAppend(key, spare))
    ensures TableInv(DoChange(parse, s, NewAppend(key, spare)))
  {
    hide TableInv, Append;
    var s' := DoChange(parse, s, NewAppend(key, spare));
    AppendExact(s.arrays, s.len, key, spare);
    assert List(s') == List(s) + [key];
    TableGrown(s, s', key, M.StoredKey(s.creating[key], key, None, M.Absent));
  }

  /** Only the key being deleted goes from the list. */
  lemma TableShrunk(s: State, s': State, key: string)
    requires TableInv(s) && BeingDeleted(s, key)
    requires s'.recs == s.recs && s'.live == s.live && s'.creating == s.creating && s'.lock == None
    requires s'.arrays != [] && s'.len <= |Current(s')| && D.Distinct(List(s'))
    requires forall k :: k in List(s') <==> k in List(s) && k != key
    ensures TableInv(s')
  {
    hide Current, List;
  }

  lemma TableDelFilter(parse: Parse, s: State)
    requires TableInv(s) && CanChange(s, DelFilter) && ChangeSafe(s, DelFilter)
    ensures TableInv(DoChange(parse, s, DelFilter))
  {
    hide TableInv, D.Delete, D.Distinct;
    var key := s.lock.value.key;
    TableList(s);
    RemovalExact(s, key);
    var r, s' := Removal(s, key).value, DoChange(parse, s, DelFilter);
    assert Current(s') == r.slots && List(s') == r.slots[..r.len];
    TableShrunk(s, s', key);
  }

  lemma TableList(s: State)
    requires TableInv(s)
    ensures ListInv(s)
  {
  }

  lemma TableNewInsert(parse: Parse, s: State, key: string, name: string)
    requires TableInv(s) && CanChange(s, NewInsert(key, name))
    ensures TableInv(DoChange(parse, s, NewInsert(key, name)))
  {
    var s' := DoChange(parse, s, NewInsert(key, name));
    assert List(s') == List(s);
    assert forall k :: BeingDeleted(s, k) <==> BeingDeleted(s', k);
  }

  /** Only one key leaves the live table, and records no longer share its counter. */
  lemma TableDropped(s: State, s': State, key: string)
    requires TableInv(s) && s.lock == None && key !in s.creating
    requires s'.arrays == s.arrays && s'.len == s.len && s'.creating == s.creating
    requires s'.live == s.live - {key} && s'.recs == Cast(s.recs, s.live, key) && s'.lock == Some(Deleted(key))
    ensures TableInv(s')
  {
    assert List(s') == List(s);
    assert forall k :: BeingDeleted(s', k) <==> k == key;
    assert forall k :: !BeingDeleted(s, k);
    hide Current, List, BeingDeleted;
  }

  lemma TableDelStart(parse: Parse, s: State, key: string)
    requires TableInv(s) && CanChange(s, DelStart(key))
    ensures TableInv(DoChange(parse, s, DelStart(key)))
  {
    hide TableInv, Cast;
    TableDropped(s, DoChange(parse, s, DelStart(key)), key);
  }

  /** The step touches neither the list nor the set of live keys. */
  ghost predicate SameTables(s: State, s': State) {
    && s'.arrays == s.arrays && s'.len == s.len && s'.creating == s.creating
    && s'.live.Keys == s.live.Keys && s'.recs.Keys == s.recs.Keys
    && (forall k :: k in s.recs ==> s'.recs[k].key == s.recs[k].key)
    && (forall k :: k in s.recs && k !in s.live && s'.recs[k].usage == M.Shared ==> s.recs[k].usage == M.Shared)
    && (forall k :: BeingDeleted(s, k) <==> BeingDeleted(s', k))
  }

  lemma TableFrame(s: State, s': State)
    requires TableInv(s) && SameTables(s, s')
    ensures TableInv(s')
  {
    assert List(s') == List(s);
  }

  lemma SaveSameTables(s: State, v: Save)
    requires CanSave(s, v) && SaveSafe(s, v) && TableInv(s)
    ensures SameTables(s, DoSave(s, v))
  {
  }

  predicate MovesKeys(c: Change) {
    c.NewInsert? || c.NewAppend? || c.DelStart? || c.DelFilter?
  }

  lemma ChangeSameTables(parse: Parse, s: State, c: Change)
    requires CanChange(s, c) && ChangeSafe(s, c) && !MovesKeys(c) && TableInv(s)
    ensures SameTables(s, DoChange(parse, s, c))
  {
    if c.ResApply? {
      ResetSameTables(parse, s);
    } else if c.LimApply? {
      var l := s.lock.value;
      if l.key in s.live {
        EnforceSameTables(s, l.key, l.limit, Apply(parse, s.live[l.key].enforced, l.limit));
      } else {
        assert forall k :: !BeingDeleted(s, k);
      }
    } else if c.LimStore? {
      StoreSameTables(parse, s);
    } else {
      CountSameTables(parse, s, c);
    }
  }

  lemma ResetSameTables(parse: Parse, s: State)
    requires CanChange(s, ResApply) && TableInv(s)
    ensures SameTables(s, DoChange(parse, s, ResApply))
  {
  }

  lemma EnforceSameTables(s: State, key: string, limit: Option<Limit>, applied: (Enforced, bool))
    requires s.lock == Some(LimitCounted(key, limit)) && key in s.live
    ensures SameTables(s, Enforce(s, key, limit, applied))
  {
    var s' := Enforce(s, key, limit, applied);
    assert s'.recs == s.recs && s'.live.Keys == s.live.Keys;
  }

  lemma StoreSameTables(parse: Parse, s: State)
    requires CanChange(s, LimStore) && TableInv(s)
    ensures SameTables(s, DoChange(parse, s, LimStore))
  {
  }

  predicate OnlyCounts(c: Change) {
    !MovesKeys(c) && !c.ResApply? && !c.LimApply? && !c.LimStore?
  }

  lemma CountKeepsKeys(parse: Parse, s: State, c: Change)
    requires CanChange(s, c) && ChangeSafe(s, c) && OnlyCounts(c)
    ensures var s' := DoChange(parse, s, c);
            s'.recs == s.recs && s'.live.Keys == s.live.Keys && s'.arrays == s.arrays && s'.len == s.len
                && s'.creating == s.creating
  {
    hide Removal, Apply, Append, Cast;
  }

  lemma CountKeepsDeleting(parse: Parse, s: State, c: Change, k: string)
    requires CanChange(s, c) && ChangeSafe(s, c) && OnlyCounts(c)
    ensures BeingDeleted(s, k) <==> BeingDeleted(DoChange(parse, s, c), k)
  {
    hide Removal, Apply, Append, Cast, AddIn, AddOut;
  }

  lemma CountSameTables(parse: Parse, s: State, c: Change)
    requires CanChange(s, c) && ChangeSafe(s, c) && TableInv(s) && OnlyCounts(c)
    ensures SameTables(s, DoChange(parse, s, c))
  {
    hide DoChange, CanChange, ChangeSafe, TableInv, BeingDeleted;
    CountKeepsKeys(parse, s, c);
    forall k: string
      ensures BeingDeleted(s, k) <==> BeingDeleted(DoChange(parse, s, c), k)
    {
      CountKeepsDeleting(parse, s, c, k);
    }
  }

  lemma TableKept(parse: Parse, s: State, step: Step)
    requires TableInv(s) && Enabled(s, step) && Safe(s, step)
    ensures TableInv(Next(parse, s, step))
  {
    match step
    case OfSave(v) =>
      SaveSameTables(s, v);
      TableFrame(s, DoSave(s, v));
    case OfChange(c) =>
      match c
      case NewAppend(key, spare) => TableNewAppend(parse, s, key, spare);
      case NewInsert(key, name) => TableNewInsert(parse, s, key, name);
      case DelStart(key) => TableDelStart(parse, s, key);
      case DelFilter => TableDelFilter(parse, s);
      case _ =>
        ChangeSameTables(parse, s, c);
        TableFrame(s, DoChange(parse, s, c));
  }

  /** Backing arrays keep their size: a header taken earlier stays within its array. */
  lemma ArraysKeepSize(parse: Parse, s: State, c: Change)
    requires TableInv(s) && CanChange(s, c) && ChangeSafe(s, c)
    ensures var s' := DoChange(parse, s, c);
            s'.saver == s.saver && |s'.arrays| >= |s.arrays| &&
            forall a :: 0 <= a < |s.arrays| ==> |s'.arrays[a]| == |s.arrays[a]|
  {
    match c
    case NewAppend(key, spare) => AppendExact(s.arrays, s.len, key, spare);
    case DelFilter => RemovalExact(s, s.lock.value.key);
    case _ =>
  }

  lemma RangeKept(parse: Parse, s: State, step: Step)
    requires TableInv(s) && RangeInv(s) && Enabled(s, step) && Safe(s, step)
    ensures RangeInv(Next(parse, s, step))
  {
    match step
    case OfChange(c) => ArraysKeepSize(parse, s, c);
    case OfSave(v) => SaveRange(s, v);
  }

  lemma SaveRange(s: State, v: Save)
    requires TableInv(s) && RangeInv(s) && CanSave(s, v) && SaveSafe(s, v)
    ensures RangeInv(DoSave(s, v))
  {
    match v
    case Range =>
    case Encode =>
    case Copy =>
    case Read =>
    case _ => assert !DoSave(s, v).saver.Copying? && !DoSave(s, v).saver.Encoding?;
  }

  /** Every step of an operation leaves its change counted, or visible as uncounted. */
  lemma ChangeIsNotClean(parse: Parse, s: State, c: Change)
    requires LockInv(s) && CanChange(s, c) && ChangeSafe(s, c)
    ensures DoChange(parse, s, c) == s || !Clean(DoChange(parse, s, c))
    ensures LockInv(DoChange(parse, s, c))
  {
    match c
    case UseIn(t, key, inb, out) =>
      var s' := DoChange(parse, s, c);
      assert s' == s || t in s'.updating;
    case UseOut(t) => assert t in DoChange(parse, s, c).updating;
    case NewInsert(key, _) => assert key in DoChange(parse, s, c).creating;
    case LimApply => LimitIsNotClean(parse, s);
    case _ =>
  }

  lemma LimitIsNotClean(parse: Parse, s: State)
    requires LockInv(s) && CanChange(s, LimApply)
    ensures !Clean(DoChange(parse, s, LimApply)) && LockInv(DoChange(parse, s, LimApply))
  {
    hide Apply;
  }

  /** One more record shares the counter of its live key. */
  lemma CopiedOneMore(s: State, s': State, n: nat)
    requires n < s.len <= |Current(s)| && Copied(s, n)
    requires s'.arrays == s.arrays && s'.len == s.len && s'.live == s.live
    requires var key := Current(s)[n];
             s'.recs == if key in s.live && key in s.recs then s.recs[key := s.recs[key].(usage := M.Shared)]
                 else s.recs
    ensures Copied(s', n + 1)
  {
    assert Current(s') == Current(s);
  }

  lemma SaveKeptCopy(s: State)
    requires TableInv(s) && SaveInv(s) && CanSave(s, Copy) && SaveSafe(s, Copy)
    ensures SaveInv(DoSave(s, Copy))
  {
    hide TableInv, Copied, Snapshot, DiskCurrent;
    TableList(s);
    if Clean(s) {
      CopiedOneMore(s, DoSave(s, Copy), s.saver.next);
    }
  }

  /** A record that has been attached reads as it should be written. */
  lemma ReadIsFresh(s: State, n: nat)
    requires ListInv(s) && n < s.len && Copied(s, s.len)
    ensures ReadRecord(s, Current(s)[n]) == Fresh(s, Current(s)[n])
    ensures Snapshot(s)[..n + 1] == Snapshot(s)[..n] + [Fresh(s, Current(s)[n])]
  {
  }

  lemma SaveKeptRead(s: State)
    requires ListInv(s) && SaveInv(s) && CanSave(s, Read) && SaveSafe(s, Read)
    ensures SaveInv(DoSave(s, Read))
  {
    if Clean(s) {
      var s' := DoSave(s, Read);
      ReadIsFresh(s, |s.saver.out|);
      assert forall k :: Fresh(s', k) == Fresh(s, k);
      assert Snapshot(s') == Snapshot(s);
      hide Snapshot;
      assert s'.saver.out == Snapshot(s)[..|s.saver.out| + 1];
    }
  }

  lemma SaveKeptWrite(s: State)
    requires TableInv(s) && SaveInv(s) && CanSave(s, Write)
    ensures SaveInv(DoSave(s, Write))
  {
    var s' := DoSave(s, Write);
    if Clean(s) {
      assert Snapshot(s') == Snapshot(s);
      assert s.saver.out == Snapshot(s);
    }
  }

  lemma SaveKept(s: State, v: Save)
    requires TableInv(s) && SaveInv(s) && LockInv(s) && CanSave(s, v) && SaveSafe(s, v)
    ensures DoSave(s, v).len <= |Current(DoSave(s, v))| && SaveInv(DoSave(s, v))
    ensures LockInv(DoSave(s, v))
  {
    match v
    case Copy => SaveKeptCopy(s);
    case Read => SaveKeptRead(s);
    case Write => SaveKeptWrite(s);
    case See =>
    case Zero =>
    case OpenFail =>
    case Truncate =>
    case Range =>
    case Encode =>
    case WriteFail =>
  }

  lemma StepKeepsInv(parse: Parse, s: State, step: Step)
    requires Inv(s) && Enabled(s, step)
    ensures Safe(s, step) && Inv(Next(parse, s, step))
  {
    StepSafe(s, step);
    TableKept(parse, s, step);
    RangeKept(parse, s, step);
    match step
    case OfChange(c) => ChangeIsNotClean(parse, s, c);
    case OfSave(v) => SaveKept(s, v);
  }
}
