/**
  The access control list as a value: the live table that decides, the stored
  records that are written to disk, and what saving and reloading do to them.
 */
module AclModel {
  import opened Common
  import opened Quota
  import opened Rules
  import opened Limits

  /**
    The usage pointer of a stored record: nil, the very counter of the live key
    of the same name, or a counter that is no longer updated.
   */
  datatype StoredUsage = Absent | Shared | Detached(value: Usage)

  datatype LiveKey = LiveKey(enforced: Enforced, usage: Usage)
  datatype StoredKey = StoredKey(name: string, key: string, limit: Option<Limit>, usage: StoredUsage)

  datatype Acl = Acl(adminKey: string, live: map<string, LiveKey>, sto: seq<StoredKey>, pending: nat)

  datatype Verdict = Granted | InvalidKey | InDataLimited | OutDataLimited | AccessDenied

  // -- decisions ---------------------------------------------------------

  predicate IsAdmin(a: Acl, key: string) {
    a.adminKey != "" && a.adminKey == key
  }

  function CheckKey(a: Acl, key: string): Verdict {
    if IsAdmin(a, key) then Granted
    else if key !in a.live then InvalidKey
    else if InLimited(a.live[key].enforced.limits, a.live[key].usage) then InDataLimited
    else if OutLimited(a.live[key].enforced.limits, a.live[key].usage) then OutDataLimited
    else Granted
  }

  ghost function Check(a: Acl, key: string, network: string, addr: string): Verdict {
    if IsAdmin(a, key) then Granted
    else if CheckKey(a, key) != Granted then CheckKey(a, key)
    else if Allows(a.live[key].enforced.lists, network, addr) then Granted
    else AccessDenied
  }

  function GetUsage(a: Acl, key: string): Usage {
    if key in a.live then a.live[key].usage else NO_USAGE
  }

  /** The limit of the first record of that name; a fresh empty one for nil or none. */
  function LimitIn(sto: seq<StoredKey>, key: string): Limit {
    if sto == [] then EMPTY_LIMIT
    else if sto[0].key == key then (if sto[0].limit.Some? then sto[0].limit.value else EMPTY_LIMIT)
    else LimitIn(sto[1..], key)
  }

  /** A known, unprivileged key that is granted stays below a consistent total limit. */
  lemma GrantedIsBelowTotal(a: Acl, key: string)
    requires key in a.live && !IsAdmin(a, key)
    requires var l := a.live[key].enforced.limits; l.total > 0 && Consistent(l)
    requires NoWrap(a.live[key].usage)
    requires CheckKey(a, key) == Granted
    ensures a.live[key].usage.inb + a.live[key].usage.out < a.live[key].enforced.limits.total
  {
    TotalQuotaExact(a.live[key].enforced.limits);
    assert Admits(a.live[key].enforced.limits, a.live[key].usage);
  }

  // -- the two representations -------------------------------------------

  ghost predicate UniqueKeys(sto: seq<StoredKey>) {
    forall i, j :: 0 <= i < j < |sto| ==> sto[i].key != sto[j].key
  }

  ghost predicate Holds(sto: seq<StoredKey>, key: string) {
    exists i :: 0 <= i < |sto| && sto[i].key == key
  }

  /** Live table and stored records hold the same keys, each key once. */
  ghost predicate Agree(a: Acl) {
    UniqueKeys(a.sto) && forall k: string :: k in a.live <==> Holds(a.sto, k)
  }

  lemma AgreeUnique(a: Acl)
    requires Agree(a)
    ensures UniqueKeys(a.sto)
  {
  }

  // -- changes -----------------------------------------------------------

  function AddUsage(a: Acl, key: string, inb: Word64, out: Word64): Acl {
    if key !in a.live then a
    else
      var u := a.live[key].usage;
      var u' := Usage(WrapAdd(u.inb, inb), WrapAdd(u.out, out));
      a.(live := a.live[key := a.live[key].(usage := u')], pending := a.pending + 1)
  }

  function CreateKey(a: Acl, name: string, key: string): Acl {
    a.(live := a.live[key := LiveKey(UNLIMITED, NO_USAGE)],
       sto := a.sto + [StoredKey(name, key, None, Absent)],
       pending := a.pending + 1)
  }

  function Without(sto: seq<StoredKey>, key: string): seq<StoredKey> {
    if sto == [] then []
    else if sto[0].key == key then Without(sto[1..], key)
    else [sto[0]] + Without(sto[1..], key)
  }

  function RemoveKey(a: Acl, key: string): Acl {
    a.(live := a.live - {key}, sto := Without(a.sto, key), pending := a.pending + 1)
  }

  function StoreLimit(sto: seq<StoredKey>, key: string, l: Option<Limit>): seq<StoredKey> {
    seq(|sto|, i requires 0 <= i < |sto| => if sto[i].key == key then sto[i].(limit := l) else sto[i])
  }

  function SetLimit(parse: Parse, a: Acl, key: string, l: Option<Limit>): Acl {
    if key !in a.live then a.(pending := a.pending + 1)
    else TakeLimit(a, key, l, Apply(parse, a.live[key].enforced, l))
  }

  /** What applied is enforced even after an error; the text is stored only without one. */
  function TakeLimit(a: Acl, key: string, l: Option<Limit>, applied: (Enforced, bool)): Acl
    requires key in a.live
  {
    a.(live := a.live[key := a.live[key].(enforced := applied.0)],
       sto := if applied.1 then StoreLimit(a.sto, key, l) else a.sto,
       pending := a.pending + 1)
  }

  /** The stored record keeps pointing at the counter that was replaced. */
  function Detach(sto: seq<StoredKey>, key: string, last: Usage): seq<StoredKey> {
    seq(|sto|, i requires 0 <= i < |sto| =>
      if sto[i].key == key && sto[i].usage == Shared then sto[i].(usage := Detached(last)) else sto[i])
  }

  function ResetUsage(a: Acl, key: string): Acl {
    if key !in a.live then a.(pending := a.pending + 1)
    else
      a.(live := a.live[key := a.live[key].(usage := NO_USAGE)],
         sto := Detach(a.sto, key, a.live[key].usage),
         pending := a.pending + 1)
  }

  /** The pointer copy at the start of a save. */
  function Attach(sto: seq<StoredKey>, live: map<string, LiveKey>): seq<StoredKey> {
    seq(|sto|, i requires 0 <= i < |sto| => if sto[i].key in live then sto[i].(usage := Shared) else sto[i])
  }

  // -- the file ----------------------------------------------------------

  /** One record as written; a nil limit or usage is left out. */
  datatype FileKey = FileKey(name: string, key: string, limit: Option<Limit>, usage: Option<Usage>)

  /** `omitempty`: a list without elements is not written and reads back as nil. */
  function Omit(l: Option<seq<string>>): Option<seq<string>> {
    if l == Some([]) then None else l
  }

  function Json(l: Limit): Limit {
    l.(lists := Lists(Omit(l.lists.white), Omit(l.lists.black)))
  }

  function JsonOption(l: Option<Limit>): Option<Limit> {
    if l.Some? then Some(Json(l.value)) else None
  }

  function WriteKey(k: StoredKey, live: map<string, LiveKey>): FileKey {
    FileKey(k.name, k.key, JsonOption(k.limit),
            match k.usage
            case Absent => None
            case Shared => if k.key in live then Some(live[k.key].usage) else None
            case Detached(u) => Some(u))
  }

  function Encode(sto: seq<StoredKey>, live: map<string, LiveKey>): seq<FileKey> {
    seq(|sto|, i requires 0 <= i < |sto| => WriteKey(sto[i], live))
  }

  /** The file an undisturbed save leaves. */
  function Saved(a: Acl): seq<FileKey> {
    Encode(Attach(a.sto, a.live), a.live)
  }

  ghost predicate UniqueFile(file: seq<FileKey>) {
    forall i, j :: 0 <= i < j < |file| ==> file[i].key != file[j].key
  }

  function ReadKey(k: FileKey): StoredKey {
    StoredKey(k.name, k.key, k.limit, if k.usage.Some? then Shared else Absent)
  }

  /** A limit that fails to parse is enforced as far as it goes; the error is dropped. */
  function ReadLive(parse: Parse, k: FileKey): LiveKey {
    LiveKey(Apply(parse, UNLIMITED, k.limit).0, if k.usage.Some? then k.usage.value else NO_USAGE)
  }

  function LoadLive(parse: Parse, file: seq<FileKey>): map<string, LiveKey> {
    if file == [] then map[]
    else
      var k := file[|file| - 1];
      LoadLive(parse, file[..|file| - 1])[k.key := ReadLive(parse, k)]
  }

  /** The list as built from a file in which every key occurs once. */
  function Load(parse: Parse, adminKey: string, file: seq<FileKey>): Acl {
    Acl(adminKey, LoadLive(parse, file), seq(|file|, i requires 0 <= i < |file| => ReadKey(file[i])), 0)
  }

  lemma {:induction false} LoadLiveLookup(parse: Parse, file: seq<FileKey>)
    requires UniqueFile(file)
    ensures forall i :: 0 <= i < |file| ==>
              file[i].key in LoadLive(parse, file) && LoadLive(parse, file)[file[i].key] == ReadLive(parse, file[i])
    ensures forall k :: k in LoadLive(parse, file) ==> exists i :: 0 <= i < |file| && file[i].key == k
  {
    if file != [] {
      var front := file[..|file| - 1];
      hide ReadLive;
      LoadLiveLookup(parse, front);
      forall k | k in LoadLive(parse, file)
        ensures exists i :: 0 <= i < |file| && file[i].key == k
      {
        if k == file[|file| - 1].key {
          assert file[|file| - 1].key == k;
        } else {
          assert k in LoadLive(parse, front);
          var i :| 0 <= i < |front| && front[i].key == k;
          assert file[i].key == k;
        }
      }
    }
  }

  // -- every change keeps the two representations together ------------------

  lemma {:induction false} WithoutExact(sto: seq<StoredKey>, key: string)
    ensures forall k: string :: Holds(Without(sto, key), k) <==> k != key && Holds(sto, k)
    ensures UniqueKeys(sto) ==> UniqueKeys(Without(sto, key))
  {
    if sto != [] {
      var rest := Without(sto[1..], key);
      WithoutExact(sto[1..], key);
      forall k: string
        ensures Holds(sto, k) <==> sto[0].key == k || Holds(sto[1..], k)
      {
        if Holds(sto, k) && sto[0].key != k {
          var i :| 0 <= i < |sto| && sto[i].key == k;
          assert sto[1..][i - 1].key == k;
        }
        if Holds(sto[1..], k) {
          var i :| 0 <= i < |sto[1..]| && sto[1..][i].key == k;
          assert sto[i + 1].key == k;
        }
      }
      if sto[0].key != key {
        var r := Without(sto, key);
        assert r[1..] == rest;
        forall k: string
          ensures Holds(r, k) <==> sto[0].key == k || Holds(rest, k)
        {
          if Holds(r, k) && sto[0].key != k {
            var i :| 0 <= i < |r| && r[i].key == k;
            assert rest[i - 1].key == k;
          }
          if Holds(rest, k) {
            var i :| 0 <= i < |rest| && rest[i].key == k;
            assert r[i + 1].key == k;
          }
          if sto[0].key == k {
            assert r[0].key == k;
          }
        }
        if UniqueKeys(sto) {
          assert UniqueKeys(sto[1..]);
          forall j | 0 < j < |r|
            ensures r[0].key != r[j].key
          {
            assert rest[j - 1].key == r[j].key;
            assert Holds(rest, r[j].key);
            var i :| 0 <= i < |sto[1..]| && sto[1..][i].key == r[j].key;
            assert sto[i + 1].key == r[j].key;
          }
        }
      } else if UniqueKeys(sto) {
        assert UniqueKeys(sto[1..]);
      }
    }
  }

  ghost predicate SameKeys(s: seq<StoredKey>, t: seq<StoredKey>) {
    |s| == |t| && forall i :: 0 <= i < |s| ==> s[i].key == t[i].key
  }

  lemma SameKeysAgree(s: seq<StoredKey>, t: seq<StoredKey>)
    requires SameKeys(s, t)
    ensures forall k: string :: Holds(s, k) <==> Holds(t, k)
    ensures UniqueKeys(s) <==> UniqueKeys(t)
  {
    forall k: string
      ensures Holds(s, k) <==> Holds(t, k)
    {
      if Holds(s, k) {
        var i :| 0 <= i < |s| && s[i].key == k;
        assert t[i].key == k;
      }
      if Holds(t, k) {
        var i :| 0 <= i < |t| && t[i].key == k;
        assert s[i].key == k;
      }
    }
  }

  datatype Op =
    | OpUse(key: string, inb: Word64, out: Word64)
    | OpCreate(name: string, key: string)
    | OpRemove(key: string)
    | OpLimit(key: string, limit: Option<Limit>)
    | OpReset(key: string)
    | OpSave

  function Do(parse: Parse, a: Acl, op: Op): Acl {
    match op
    case OpUse(k, i, o) => AddUsage(a, k, i, o)
    case OpCreate(n, k) => CreateKey(a, n, k)
    case OpRemove(k) => RemoveKey(a, k)
    case OpLimit(k, l) => SetLimit(parse, a, k, l)
    case OpReset(k) => ResetUsage(a, k)
    case OpSave => a.(sto := Attach(a.sto, a.live))
  }

  /** Freshly generated keys are fresh. */
  predicate Fresh(a: Acl, op: Op) {
    op.OpCreate? ==> op.key !in a.live
  }

  lemma OpKeepsAgreement(parse: Parse, a: Acl, op: Op)
    requires Agree(a) && Fresh(a, op)
    ensures Agree(Do(parse, a, op))
  {
    var a' := Do(parse, a, op);
    match op
    case OpCreate(name, key) =>
      assert a'.sto[|a.sto|].key == key;
      forall k: string
        ensures Holds(a'.sto, k) <==> k == key || Holds(a.sto, k)
      {
        if Holds(a.sto, k) {
          var i :| 0 <= i < |a.sto| && a.sto[i].key == k;
          assert a'.sto[i].key == k;
        }
        if k == key {
          assert a'.sto[|a.sto|].key == k;
        }
      }
      assert !Holds(a.sto, key);
      forall i | 0 <= i < |a.sto|
        ensures a'.sto[i].key != key
      {
        assert a.sto[i].key == a'.sto[i].key;
      }
    case OpRemove(key) =>
      WithoutExact(a.sto, key);
    case _ =>
      assert SameKeys(a.sto, a'.sto);
      SameKeysAgree(a.sto, a'.sto);
  }

  function Run(parse: Parse, a: Acl, ops: seq<Op>): Acl
    decreases |ops|
  {
    if ops == [] then a else Run(parse, Do(parse, a, ops[0]), ops[1..])
  }

  ghost predicate FreshRun(parse: Parse, a: Acl, ops: seq<Op>)
    decreases |ops|
  {
    ops == [] || (Fresh(a, ops[0]) && FreshRun(parse, Do(parse, a, ops[0]), ops[1..]))
  }

  lemma LoadAgrees(parse: Parse, adminKey: string, file: seq<FileKey>)
    requires UniqueFile(file)
    ensures Agree(Load(parse, adminKey, file))
  {
    var a := Load(parse, adminKey, file);
    LoadLiveLookup(parse, file);
    forall k: string
      ensures k in a.live <==> Holds(a.sto, k)
    {
      if k in a.live {
        var i :| 0 <= i < |file| && file[i].key == k;
        assert a.sto[i].key == k;
      }
      if Holds(a.sto, k) {
        var i :| 0 <= i < |a.sto| && a.sto[i].key == k;
        assert file[i].key == k;
      }
    }
  }

  lemma ZeroAgrees(a: Acl)
    requires Agree(a)
    ensures Agree(a.(pending := 0))
  {
  }

  lemma LoadSnoc(parse: Parse, adminKey: string, file: seq<FileKey>, k: FileKey)
    ensures var a := Load(parse, adminKey, file);
            Load(parse, adminKey, file + [k])
              == a.(live := a.live[k.key := ReadLive(parse, k)], sto := a.sto + [ReadKey(k)])
  {
    assert (file + [k])[..|file|] == file;
  }

  lemma LoadStepAgrees(parse: Parse, adminKey: string, file: seq<FileKey>, k: FileKey)
    requires Agree(Load(parse, adminKey, file)) && k.key !in Load(parse, adminKey, file).live
    ensures Agree(Load(parse, adminKey, file + [k]))
  {
    var a, b := Load(parse, adminKey, file), Load(parse, adminKey, file + [k]);
    assert (file + [k])[..|file|] == file;
    OpKeepsAgreement(parse, a, OpCreate(k.name, k.key));
    var c := CreateKey(a, k.name, k.key);
    assert SameKeys(b.sto, c.sto);
    SameKeysAgree(b.sto, c.sto);
    assert b.live.Keys == c.live.Keys;
    assert forall l: string :: l in b.live <==> l in c.live;
  }

  lemma {:induction false} RunKeepsAgreement(parse: Parse, a: Acl, ops: seq<Op>)
    requires Agree(a) && FreshRun(parse, a, ops)
    ensures Agree(Run(parse, a, ops))
    decreases |ops|
  {
    if ops != [] {
      OpKeepsAgreement(parse, a, ops[0]);
      RunKeepsAgreement(parse, Do(parse, a, ops[0]), ops[1..]);
    }
  }

  /** From a file without duplicates on, the two representations never drift apart. */
  lemma TwoRepresentations(parse: Parse, adminKey: string, file: seq<FileKey>, ops: seq<Op>)
    requires UniqueFile(file) && FreshRun(parse, Load(parse, adminKey, file), ops)
    ensures Agree(Run(parse, Load(parse, adminKey, file), ops))
  {
    LoadAgrees(parse, adminKey, file);
    RunKeepsAgreement(parse, Load(parse, adminKey, file), ops);
  }

  // -- Limit followed by GetLimit -------------------------------------------

  lemma {:induction false} LimitInAt(sto: seq<StoredKey>, i: nat)
    requires UniqueKeys(sto) && i < |sto|
    ensures LimitIn(sto, sto[i].key) == (if sto[i].limit.Some? then sto[i].limit.value else EMPTY_LIMIT)
  {
    if i > 0 {
      assert UniqueKeys(sto[1..]);
      LimitInAt(sto[1..], i - 1);
    }
  }

  /** A successful call is what the next query returns, and no other key changes. */
  lemma LimitThenGetLimit(parse: Parse, a: Acl, key: string, l: Option<Limit>)
    requires Agree(a) && key in a.live && Succeeds(parse, l)
    ensures var a' := SetLimit(parse, a, key, l);
            LimitIn(a'.sto, key) == (if l.Some? then l.value else EMPTY_LIMIT) &&
            forall k :: k in a.live && k != key ==> a'.live[k] == a.live[k] && LimitIn(a'.sto, k) == LimitIn(a.sto, k)
  {
    ApplySucceeds(parse, a.live[key].enforced, l);
    hide Apply, Succeeds;
    assert SetLimit(parse, a, key, l).sto == StoreLimit(a.sto, key, l);
    StoredLimitIn(a.sto, key, l, key);
    forall k | k in a.live && k != key
      ensures LimitIn(StoreLimit(a.sto, key, l), k) == LimitIn(a.sto, k)
    {
      StoredLimitIn(a.sto, key, l, k);
    }
  }

  lemma StoredLimitIn(sto: seq<StoredKey>, key: string, l: Option<Limit>, k: string)
    requires UniqueKeys(sto) && Holds(sto, k)
    ensures LimitIn(StoreLimit(sto, key, l), k) ==
              if k != key then LimitIn(sto, k) else if l.Some? then l.value else EMPTY_LIMIT
  {
    hide LimitIn;
    var i :| 0 <= i < |sto| && sto[i].key == k;
    LimitInAt(sto, i);
    LimitInAt(StoreLimit(sto, key, l), i);
  }

  // -- save, then load -------------------------------------------------------

  /** The enforcement of a key is the one its own stored limit asks for. */
  ghost predicate KeyFaithful(parse: Parse, a: Acl, k: StoredKey) {
    k.key in a.live && Faithful(parse, a.live[k.key].enforced, JsonOption(k.limit))
  }

  /**
    After an accepted call the file asks for what is enforced exactly when every field
    the call leaves blank was not limited before and no list is empty; a call without
    a limit must find nothing in force at all.
   */
  lemma AcceptedFaithfulExact(parse: Parse, e: Enforced, call: Option<Limit>)
    requires Succeeds(parse, call)
    ensures Faithful(parse, Apply(parse, e, call).0, JsonOption(call)) <==>
              if call.None? then e == UNLIMITED
              else
                && (forall f: Field :: Text(call.value, f) == "" ==> Enforcing(e.limits, f) == 0)
                && call.value.lists.white != Some([]) && call.value.lists.black != Some([])
  {
    FaithfulExact(parse, e, call);
    ApplyLists(parse, e, call);
    if call.Some? {
      ApplyLists(parse, UNLIMITED, call);
      ApplyLists(parse, UNLIMITED, JsonOption(call));
      assert Apply(parse, UNLIMITED, JsonOption(call)).0.limits == Apply(parse, UNLIMITED, call).0.limits;
    }
  }

  lemma SavedKeys(parse: Parse, a: Acl)
    requires Agree(a)
    ensures UniqueFile(Saved(a))
    ensures SameKeys(Load(parse, a.adminKey, Saved(a)).sto, a.sto)
  {
    assert forall i :: 0 <= i < |a.sto| ==> Saved(a)[i].key == a.sto[i].key;
  }

  lemma ReloadKey(parse: Parse, a: Acl, i: nat)
    requires Agree(a) && i < |a.sto|
    ensures var live := LoadLive(parse, Saved(a));
            var k := a.sto[i].key;
            k in a.live && k in live && live[k].usage == a.live[k].usage &&
            (live[k] == a.live[k] <==> KeyFaithful(parse, a, a.sto[i]))
  {
    var k := a.sto[i].key;
    var file := Saved(a);
    SavedKeys(parse, a);
    LoadLiveLookup(parse, file);
    assert Holds(a.sto, k);
    assert file[i].key == k && file[i].usage == Some(a.live[k].usage);
    assert LoadLive(parse, file)[k] == ReadLive(parse, file[i]);
  }

  /**
    Saving and reloading keeps the keys, their order, names and usage, and gives
    back the live table itself exactly when every key is enforced as its stored
    limit, written without empty lists, asks for.
   */
  lemma ReloadExact(parse: Parse, a: Acl)
    requires Agree(a)
    ensures var r := Load(parse, a.adminKey, Saved(a));
            SameKeys(r.sto, a.sto) && Agree(r) && r.live.Keys == a.live.Keys &&
            (forall k :: k in a.live ==> r.live[k].usage == a.live[k].usage) &&
            (r.live == a.live <==> forall i :: 0 <= i < |a.sto| ==> KeyFaithful(parse, a, a.sto[i]))
  {
    var r := Load(parse, a.adminKey, Saved(a));
    SavedKeys(parse, a);
    LoadAgrees(parse, a.adminKey, Saved(a));
    SameKeysAgree(r.sto, a.sto);
    forall k: string
      ensures k in r.live <==> k in a.live
    {
      assert k in r.live <==> Holds(r.sto, k);
      assert k in a.live <==> Holds(a.sto, k);
    }
    forall k | k in a.live
      ensures r.live[k].usage == a.live[k].usage
      ensures (forall i :: 0 <= i < |a.sto| ==> KeyFaithful(parse, a, a.sto[i])) ==> r.live[k] == a.live[k]
    {
      assert Holds(a.sto, k);
      var i :| 0 <= i < |a.sto| && a.sto[i].key == k;
      ReloadKey(parse, a, i);
    }
    if r.live == a.live {
      forall i | 0 <= i < |a.sto|
        ensures KeyFaithful(parse, a, a.sto[i])
      {
        ReloadKey(parse, a, i);
      }
    }
  }

  /** In that case every decision and every usage query survives the restart. */
  lemma ReloadKeepsDecisions(parse: Parse, a: Acl)
    requires Agree(a) && forall i :: 0 <= i < |a.sto| ==> KeyFaithful(parse, a, a.sto[i])
    ensures var r := Load(parse, a.adminKey, Saved(a));
            (forall key, network, addr :: Check(r, key, network, addr) == Check(a, key, network, addr)) &&
            (forall key :: GetUsage(r, key) == GetUsage(a, key))
  {
    hide KeyFaithful, SameKeys, Agree, Saved, LoadLive;
    ReloadExact(parse, a);
    var r := Load(parse, a.adminKey, Saved(a));
    assert r.live == a.live && r.adminKey == a.adminKey;
  }

  // -- where a restart does change decisions -------------------------------

  const NUMBERS: Parse := t => if t == "1" then Some(1) else None

  /**
    `limit --reset` sends a limit with blank texts: the old number stays in
    force, so a key over its quota stays denied until the server is restarted.
   */
  lemma ResetNeedsRestart()
    ensures exists a: Acl :: Agree(a) && "k" in a.live &&
              var b := SetLimit(NUMBERS, a, "k", Some(EMPTY_LIMIT));
              LimitIn(b.sto, "k") == EMPTY_LIMIT && CheckKey(b, "k") != Granted &&
              CheckKey(Load(NUMBERS, b.adminKey, Saved(b)), "k") == Granted
  {
    var l := Limit("1", "", "", NO_LISTS);
    var a := Acl("", map["k" := LiveKey(Enforced(ByteLimits(1, 0, 0), NO_LISTS), Usage(1, 0))],
                 [StoredKey("", "k", Some(l), Absent)], 0);
    assert a.sto[0].key == "k";
    assert Agree(a);
    var b := SetLimit(NUMBERS, a, "k", Some(EMPTY_LIMIT));
    LimitInAt(b.sto, 0);
    var file := Saved(b);
    LoadLiveLookup(NUMBERS, file);
    assert file[0].key == "k" && file[0].limit == Some(EMPTY_LIMIT) && file[0].usage == Some(Usage(1, 0));
    assert InLimited(ByteLimits(1, 0, 0), Usage(1, 0));
  }

  /** An empty allow list denies everything until a restart, and nothing afterwards. */
  lemma EmptyAllowListIsLost()
    ensures exists a: Acl :: Agree(a) && "k" in a.live &&
              var b := SetLimit(NUMBERS, a, "k", Some(Limit("", "", "", Lists(Some([]), None))));
              Check(b, "k", "tcp", "h:1") == AccessDenied &&
              Check(Load(NUMBERS, b.adminKey, Saved(b)), "k", "tcp", "h:1") == Granted
  {
    var a := Acl("", map["k" := LiveKey(UNLIMITED, NO_USAGE)], [StoredKey("", "k", None, Absent)], 0);
    assert a.sto[0].key == "k";
    assert Agree(a);
    var l := Limit("", "", "", Lists(Some([]), None));
    var b := SetLimit(NUMBERS, a, "k", Some(l));
    var file := Saved(b);
    LoadLiveLookup(NUMBERS, file);
    assert file[0].key == "k" && file[0].limit == Some(EMPTY_LIMIT) && file[0].usage == Some(NO_USAGE);
    assert !SomeMatch([], "tcp", "h:1");
  }

  // -- usage accounting ------------------------------------------------------

  /** Bytes added to `key` in one direction since the last reset, as a plain sum. */
  function Sum(ops: seq<Op>, key: string, start: int, incoming: bool): int {
    if ops == [] then start
    else
      var op := ops[|ops| - 1];
      var before := Sum(ops[..|ops| - 1], key, start, incoming);
      if op.OpUse? && op.key == key then before + (if incoming then op.inb else op.out)
      else if op.OpReset? && op.key == key then 0
      else before
  }

  lemma {:induction false} RunSnoc(parse: Parse, a: Acl, ops: seq<Op>)
    requires ops != []
    ensures Run(parse, a, ops) == Do(parse, Run(parse, a, ops[..|ops| - 1]), ops[|ops| - 1])
    decreases |ops|
  {
    if |ops| > 1 {
      RunSnoc(parse, Do(parse, a, ops[0]), ops[1..]);
      assert ops[1..][..|ops| - 2] == ops[..|ops| - 1][1..];
    }
  }

  predicate Keeps(key: string, ops: seq<Op>) {
    forall i :: 0 <= i < |ops| ==> !(ops[i].OpRemove? && ops[i].key == key) && !(ops[i].OpCreate? && ops[i].key == key)
  }

  /** The limit calls of a history that name the key. */
  function CallsFor(ops: seq<Op>, key: string): seq<Option<Limit>> {
    if ops == [] then []
    else
      var op := ops[|ops| - 1];
      CallsFor(ops[..|ops| - 1], key) + (if op.OpLimit? && op.key == key then [op.limit] else [])
  }

  /** The limit of the last call that succeeded. */
  function LastAccepted(parse: Parse, start: Limit, calls: seq<Option<Limit>>): Limit {
    if calls == [] then start
    else
      var call := calls[|calls| - 1];
      if Succeeds(parse, call) then (if call.Some? then call.value else EMPTY_LIMIT)
      else LastAccepted(parse, start, calls[..|calls| - 1])
  }

  lemma EnforcedAfter(parse: Parse, a: Acl, key: string, op: Op)
    requires key in a.live && Keeps(key, [op])
    ensures key in Do(parse, a, op).live
    ensures Do(parse, a, op).live[key].enforced ==
              if op.OpLimit? && op.key == key then Apply(parse, a.live[key].enforced, op.limit).0
              else a.live[key].enforced
  {
    hide Apply;
    assert [op][0] == op;
  }

  /** What the limit calls for a key have made of it. */
  ghost predicate LimitsAre(parse: Parse, a: Acl, key: string, b: Acl, calls: seq<Option<Limit>>) {
    && key in a.live && key in b.live
    && b.live[key].enforced == AfterCalls(parse, a.live[key].enforced, calls)
    && LimitIn(b.sto, key) == LastAccepted(parse, LimitIn(a.sto, key), calls)
  }

  lemma LimitsStep(parse: Parse, a: Acl, key: string, b: Acl, calls: seq<Option<Limit>>, op: Op)
    requires LimitsAre(parse, a, key, b, calls) && Agree(b) && Fresh(b, op) && Keeps(key, [op])
    ensures LimitsAre(parse, a, key, Do(parse, b, op),
                      calls + (if op.OpLimit? && op.key == key then [op.limit] else []))
  {
    hide Do, Apply, LimitIn, Succeeds, Agree, Fresh, Keeps;
    EnforcedAfter(parse, b, key, op);
    StoredAfter(parse, b, key, op);
    if op.OpLimit? && op.key == key {
      assert (calls + [op.limit])[..|calls|] == calls;
    } else {
      assert calls + [] == calls;
    }
  }

  /**
    Whatever else happens to the list, what is enforced for a key is the outcome of
    the limit calls for it alone, and what a query returns is the last accepted one.
   */
  lemma {:induction false} LimitsAfterRun(parse: Parse, a: Acl, key: string, ops: seq<Op>)
    requires Agree(a) && FreshRun(parse, a, ops) && key in a.live && Keeps(key, ops)
    ensures LimitsAre(parse, a, key, Run(parse, a, ops), CallsFor(ops, key))
  {
    hide Do, Apply, LimitIn, Succeeds, Agree, Fresh, FreshRun;
    if ops == [] {
    } else {
      var front, op := ops[..|ops| - 1], ops[|ops| - 1];
      FreshFront(parse, a, ops);
      LimitsAfterRun(parse, a, key, front);
      RunKeepsAgreement(parse, a, front);
      RunSnoc(parse, a, ops);
      LimitsStep(parse, a, key, Run(parse, a, front), CallsFor(front, key), op);
    }
  }

  lemma {:induction false} FreshFront(parse: Parse, a: Acl, ops: seq<Op>)
    requires ops != [] && FreshRun(parse, a, ops)
    ensures FreshRun(parse, a, ops[..|ops| - 1])
    ensures Fresh(Run(parse, a, ops[..|ops| - 1]), ops[|ops| - 1])
    decreases |ops|
  {
    if |ops| > 1 {
      FreshFront(parse, Do(parse, a, ops[0]), ops[1..]);
      assert ops[1..][..|ops| - 2] == ops[..|ops| - 1][1..];
    }
  }

  lemma StoredAfter(parse: Parse, a: Acl, key: string, op: Op)
    requires Agree(a) && Fresh(a, op) && key in a.live && Keeps(key, [op])
    ensures LimitIn(Do(parse, a, op).sto, key) ==
              if op.OpLimit? && op.key == key && Succeeds(parse, op.limit)
              then (if op.limit.Some? then op.limit.value else EMPTY_LIMIT)
              else LimitIn(a.sto, key)
  {
    hide Apply, Succeeds, LimitIn;
    assert [op][0] == op;
    var i :| 0 <= i < |a.sto| && a.sto[i].key == key;
    LimitInAt(a.sto, i);
    if op.OpLimit? {
      if op.key in a.live {
        ApplySucceeds(parse, a.live[op.key].enforced, op.limit);
        StoredLimitIn(a.sto, op.key, op.limit, key);
      }
    } else if op.OpRemove? {
      WithoutLimit(a.sto, op.key, key);
    } else {
      OpKeepsAgreement(parse, a, op);
      LimitInAt(Do(parse, a, op).sto, i);
    }
  }

  lemma {:induction false} WithoutLimit(sto: seq<StoredKey>, key: string, k: string)
    requires k != key
    ensures LimitIn(Without(sto, key), k) == LimitIn(sto, k)
  {
    if sto != [] {
      WithoutLimit(sto[1..], key, k);
    }
  }

  lemma UsageAfter(parse: Parse, a: Acl, key: string, op: Op)
    requires key in a.live && Keeps(key, [op])
    ensures key in Do(parse, a, op).live
    ensures Do(parse, a, op).live[key].usage ==
              var u := a.live[key].usage;
              if op.OpUse? && op.key == key then Usage(WrapAdd(u.inb, op.inb), WrapAdd(u.out, op.out))
              else if op.OpReset? && op.key == key then NO_USAGE
              else u
  {
    hide Apply;
    assert [op][0] == op;
  }

  /**
    Conservation: while a key exists its usage is, modulo 2^64, what it was
    loaded with plus every event since, or every event since the last reset;
    saving, which shares the counter with the stored record, adds nothing.
   */
  lemma {:induction false} UsageConserved(parse: Parse, a: Acl, key: string, ops: seq<Op>)
    requires key in a.live && Keeps(key, ops)
    ensures key in Run(parse, a, ops).live
    ensures GetUsage(Run(parse, a, ops), key).inb == Sum(ops, key, a.live[key].usage.inb, true) % TWO_64
    ensures GetUsage(Run(parse, a, ops), key).out == Sum(ops, key, a.live[key].usage.out, false) % TWO_64
  {
    if ops != [] {
      UsageConserved(parse, a, key, ops[..|ops| - 1]);
      RunSnoc(parse, a, ops);
      var op := ops[|ops| - 1];
      UsageAfter(parse, Run(parse, a, ops[..|ops| - 1]), key, op);
      hide Run, Do;
      if op.OpUse? && op.key == key {
        ModAdd(Sum(ops[..|ops| - 1], key, a.live[key].usage.inb, true), op.inb);
        ModAdd(Sum(ops[..|ops| - 1], key, a.live[key].usage.out, false), op.out);
      }
    }
  }

  lemma ModAdd(x: int, y: int)
    ensures (x % TWO_64 + y) % TWO_64 == (x + y) % TWO_64
  {
    assert x == TWO_64 * (x / TWO_64) + x % TWO_64;
    ModShift(x % TWO_64 + y, x / TWO_64);
  }

  lemma ModShift(x: int, q: int)
    ensures (x + TWO_64 * q) % TWO_64 == x % TWO_64
  {
    var z := x + TWO_64 * q;
    assert z == TWO_64 * (x / TWO_64 + q) + x % TWO_64;
  }
}
