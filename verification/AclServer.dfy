/**
  The access control list as the server holds it: a map of mutable key objects, a
  slice of mutable records, and usage counters that both may point to. Every method
  is specified by the operation of the same name on values (module AclModel).
 */
module AclServer {
  import opened Common
  import opened Quota
  import opened Limits
  import Rules
  import M = AclModel
  import D = SliceDelete

  function Added(u: Usage, inb: Word64, out: Word64): Usage {
    Usage(WrapAdd(u.inb, inb), WrapAdd(u.out, out))
  }

  /** How far the disk lets a save get. */
  datatype Disk = Works | OpenFails | TruncateFails | WriteFails

  /** What a turn of the saver does to the file; after a failing write it holds no complete list. */
  datatype FileState = Untouched | Emptied | Written(file: seq<M.FileKey>)

  class UsageCell {
    ghost const owner: string  // the key whose traffic is counted
    var inb: Word64
    var out: Word64

    constructor (ghost owner: string, inb: Word64, out: Word64)
      ensures this.owner == owner && this.inb == inb && this.out == out
    {
      this.owner, this.inb, this.out := owner, inb, out;
    }

    ghost function Value(): Usage
      reads this
    {
      Usage(inb, out)
    }
  }

  class KeyCell {
    ghost const owner: string
    var bytesLimit: Word64
    var inBytesLimit: Word64
    var outBytesLimit: Word64
    var whitelist: Option<seq<string>>
    var blacklist: Option<seq<string>>
    var usage: UsageCell

    constructor (usage: UsageCell)
      ensures Enforcement() == UNLIMITED && this.usage == usage && owner == usage.owner
    {
      owner := usage.owner;
      bytesLimit, inBytesLimit, outBytesLimit := 0, 0, 0;
      whitelist, blacklist := None, None;
      this.usage := usage;
    }

    ghost function Enforcement(): Enforced
      reads this
    {
      Enforced(ByteLimits(bytesLimit, inBytesLimit, outBytesLimit), Rules.Lists(whitelist, blacklist))
    }

    method InBytesLimited() returns (r: bool)
      ensures r == InLimited(Enforcement().limits, usage.Value())
    {
      if inBytesLimit > 0 {
        return usage.inb >= inBytesLimit;
      }
      if bytesLimit <= 0 {
        return false;
      }
      if outBytesLimit > 0 {
        return usage.inb >= WrapSub(bytesLimit, outBytesLimit);
      }
      return WrapAdd(usage.inb, usage.out) >= bytesLimit;
    }

    method OutBytesLimited() returns (r: bool)
      ensures r == OutLimited(Enforcement().limits, usage.Value())
    {
      if outBytesLimit > 0 {
        return usage.out >= outBytesLimit;
      }
      if bytesLimit <= 0 {
        return false;
      }
      if inBytesLimit > 0 {
        return usage.out >= WrapSub(bytesLimit, inBytesLimit);
      }
      return WrapAdd(usage.inb, usage.out) >= bytesLimit;
    }

    /** applyACLKeyLimit, field by field; an error leaves the fields before it applied. */
    method Apply(parse: Parse, call: Option<Limit>) returns (ok: bool)
      modifies this
      ensures usage == old(usage)
      ensures (Enforcement(), ok) == Limits.Apply(parse, old(Enforcement()), call)
    {
      if call.Some? {
        var l := call.value;
        if l.bytes != "" {
          var b := parse(l.bytes);
          if b.None? {
            return false;
          }
          bytesLimit := b.value;
        }
        if l.inBytes != "" {
          var b := parse(l.inBytes);
          if b.None? {
            return false;
          }
          inBytesLimit := b.value;
        }
        if l.outBytes != "" {
          var b := parse(l.outBytes);
          if b.None? {
            return false;
          }
          outBytesLimit := b.value;
        }
        blacklist := l.lists.black;
        whitelist := l.lists.white;
      }
      return true;
    }
  }

  class RecordCell {
    const name: string
    const key: string
    var limit: Option<Limit>
    var usage: UsageCell?

    constructor (name: string, key: string, limit: Option<Limit>, usage: UsageCell?)
      ensures this.name == name && this.key == key && this.limit == limit && this.usage == usage
    {
      this.name, this.key, this.limit, this.usage := name, key, limit, usage;
    }
  }

  predicate HasKey(r: RecordCell?, key: string) {
    r != null && r.key == key
  }

  /** Position `at[j]` of the old list is position `j` of the new one. */
  ghost predicate Picks(rs: seq<RecordCell?>, left: seq<RecordCell?>, rows: seq<M.StoredKey>, left': seq<M.StoredKey>,
                        key: string, at: seq<nat>)
  {
    && |rs| == |rows| && |at| == |left| == |left'|
    && forall j :: 0 <= j < |at| ==>
                     at[j] < |rs| && left[j] == rs[at[j]] && left'[j] == rows[at[j]] && rows[at[j]].key != key
  }

  lemma PicksIndex(rs: seq<RecordCell?>, left: seq<RecordCell?>, rows: seq<M.StoredKey>, left': seq<M.StoredKey>,
                   key: string, at: seq<nat>)
    requires Picks(rs, left, rows, left', key, at)
    ensures |at| == |left| && |rs| == |rows|
    ensures forall j :: 0 <= j < |at| ==> at[j] < |rs| && left[j] == rs[at[j]] && rows[at[j]].key != key
  {
  }

  lemma DistinctIndex<T>(xs: seq<T>)
    requires D.Distinct(xs)
    ensures forall i, j :: 0 <= i < j < |xs| ==> xs[i] != xs[j]
  {
  }

  /** Filtering records and filtering their rows pick the same positions. */
  lemma {:induction false} FilterRows(rs: seq<RecordCell?>, rows: seq<M.StoredKey>, key: string) returns (at: seq<nat>)
    requires |rs| == |rows| && forall i :: 0 <= i < |rs| ==> rs[i] != null && rs[i].key == rows[i].key
    ensures Picks(rs, D.Filter(rs, (r: RecordCell?) => HasKey(r, key)), rows, M.Without(rows, key), key, at)
  {
    if rs == [] {
      at := [];
    } else {
      var hit := (r: RecordCell?) => HasKey(r, key);
      var rest := FilterRows(rs[1..], rows[1..], key);
      at := Later(rest);
      PicksLater(rs, D.Filter(rs[1..], hit), rows, M.Without(rows[1..], key), key, rest);
      if rs[0].key != key {
        PicksFirst(rs, D.Filter(rs[1..], hit), rows, M.Without(rows[1..], key), key, at);
        at := [0] + at;
      }
    }
  }

  function Later(at: seq<nat>): seq<nat> {
    seq(|at|, j requires 0 <= j < |at| => at[j] + 1)
  }

  lemma PicksLater(rs: seq<RecordCell?>, left: seq<RecordCell?>, rows: seq<M.StoredKey>, left': seq<M.StoredKey>,
                   key: string, at: seq<nat>)
    requires |rs| == |rows| > 0 && Picks(rs[1..], left, rows[1..], left', key, at)
    ensures Picks(rs, left, rows, left', key, Later(at))
  {
  }

  lemma PicksFirst(rs: seq<RecordCell?>, left: seq<RecordCell?>, rows: seq<M.StoredKey>, left': seq<M.StoredKey>,
                   key: string, at: seq<nat>)
    requires |rs| == |rows| > 0 && Picks(rs, left, rows, left', key, at) && rows[0].key != key
    ensures Picks(rs, [rs[0]] + left, rows, [rows[0]] + left', key, [0] + at)
  {
  }

  /**
    DelKey's loop over the slots that were in use when it started, whatever the list
    holds; with the key in it more than once it may panic or leave some of them.
   */
  method RemoveRecords(slots: array<RecordCell?>, n: nat, key: string) returns (m: nat, panics: bool)
    requires n <= slots.Length
    modifies slots
    ensures m <= n && (panics <==> D.LateHit(old(slots[..n]), (r: RecordCell?) => HasKey(r, key)))
    ensures !panics ==> slots[..m] == D.Kept(old(slots[..n]), (r: RecordCell?) => HasKey(r, key))
  {
    ghost var hit := (r: RecordCell?) => HasKey(r, key);
    ghost var end := D.Delete(D.Slice(slots[..], n), 0, n, hit);
    D.DeleteExact(D.Slice(slots[..], n), hit);
    D.DeleteSameArray(D.Slice(slots[..], n), 0, n, hit);
    assert slots[..][..n] == slots[..n];
    m, panics := n, false;
    for i := 0 to n
      invariant m <= n
      invariant D.Delete(D.Slice(slots[..], m), i, n, hit) == end
    {
      if HasKey(slots[i], key) {
        if i + 1 > m {
          return m, true;
        }
        CutInPlace(slots, i, m, hit);
        m := m - 1;
      }
    }
    assert slots[..][..m] == slots[..m];
  }

  /** A key that occurs at most once is taken out, and nothing panics. */
  lemma OnceIsFilter(rs: seq<RecordCell?>, key: string)
    requires forall i, j :: 0 <= i < j < |rs| ==> !(HasKey(rs[i], key) && HasKey(rs[j], key))
    ensures var hit := (r: RecordCell?) => HasKey(r, key);
            !D.LateHit(rs, hit) && D.Kept(rs, hit) == D.Filter(rs, hit)
  {
    var hit := (r: RecordCell?) => HasKey(r, key);
    D.KeptExact(rs, hit);
  }

  /** append(list[:i], list[i+1:]...), which moves the tail one slot to the left. */
  method CutInPlace(slots: array<RecordCell?>, i: nat, m: nat, ghost hit: RecordCell? -> bool)
    requires i < m <= slots.Length
    modifies slots
    ensures D.Cut(D.Slice(old(slots[..]), m), i) == Some(D.Slice(slots[..], m - 1))
  {
    ghost var was := slots[..];
    forall j | i <= j < m - 1 {
      slots[j] := slots[j + 1];
    }
    assert slots[..] == was[..i] + was[i + 1..m] + was[m - 1..];
  }

  method Enlarged(a: array<RecordCell?>, n: nat) returns (b: array<RecordCell?>)
    requires n <= a.Length
    ensures fresh(b) && b.Length == 2 * n + 1 && forall i :: 0 <= i < n ==> b[i] == a[i]
  {
    b := new RecordCell?[2 * n + 1](_ => null);
    forall i | 0 <= i < n {
      b[i] := a[i];
    }
  }

  class Server {
    const parse: Parse
    const adminKey: string
    var keys: map<string, KeyCell>
    var slots: array<RecordCell?>  // backing array of the stored list
    var n: nat                     // its length
    var pending: nat
    ghost var Value: M.Acl         // the value this object stands for
    ghost var Repr: set<object>

    /** How the objects hang together. */
    ghost predicate Shape()
      reads this, Repr
    {
      && this in Repr && slots in Repr && n <= slots.Length
      && (forall k :: k in keys ==>
                        keys[k] in Repr && keys[k].owner == k && keys[k].usage in Repr && keys[k].usage.owner == k)
      && (forall i :: 0 <= i < n ==> slots[i] != null && slots[i] in Repr && slots[i].key in keys)
      && (forall i :: 0 <= i < n && slots[i].usage != null ==>
                        slots[i].usage in Repr && slots[i].usage.owner == slots[i].key)
      && (forall i, j :: 0 <= i < j < n ==> slots[i] != slots[j])
    }

    ghost function LiveOf(k: string): M.LiveKey
      reads this, Repr
      requires Shape() && k in keys
    {
      M.LiveKey(keys[k].Enforcement(), keys[k].usage.Value())
    }

    ghost function RowAt(i: nat): M.StoredKey
      reads this, Repr
      requires Shape() && i < n
    {
      var r := slots[i];
      M.StoredKey(r.name, r.key, r.limit,
                  if r.usage == null then M.Absent
                  else if r.usage == keys[r.key].usage then M.Shared
                  else M.Detached(r.usage.Value()))
    }

    /** The objects hold the value. */
    ghost predicate Holds()
      reads this, Repr
      requires Shape()
    {
      && Value.adminKey == adminKey && Value.pending == pending
      && Value.live.Keys == keys.Keys && |Value.sto| == n
      && (forall k :: k in keys ==> Value.live[k] == LiveOf(k))
      && (forall i :: 0 <= i < n ==> Value.sto[i] == RowAt(i))
    }

    ghost predicate Valid()
      reads this, Repr
      ensures Valid() ==> this in Repr
    {
      Shape() && Holds() && M.Agree(Value)
    }

    /** The pointers are as they were. */
    twostate predicate SamePointers()
      reads this, Repr
      requires old(Shape())
    {
      && Repr == old(Repr) && keys == old(keys) && slots == old(slots) && n == old(n)
      && (forall k :: k in keys ==> keys[k].usage == old(keys[k].usage))
      && (forall i :: 0 <= i < n ==> slots[i] == old(slots[i]) && slots[i].usage == old(slots[i].usage))
    }

    twostate lemma ShapeKept()
      requires old(Shape()) && SamePointers()
      ensures Shape()
    {
    }

    /** No counter changed that a record alone points to. */
    twostate predicate SameDetached()
      reads this, Repr
      requires old(Shape()) && Shape() && SamePointers()
    {
      forall i :: 0 <= i < n ==>
                    slots[i].usage == null || slots[i].usage == keys[slots[i].key].usage ||
                    slots[i].usage.Value() == old(slots[i].usage.Value())
    }

    twostate lemma RowsKept()
      requires old(Shape()) && Shape() && SamePointers() && SameDetached()
      ensures forall i :: 0 <= i < n ==> RowAt(i) == old(RowAt(i)).(limit := slots[i].limit)
    {
    }

    /** No key changed, except perhaps one. */
    twostate predicate OthersKept(key: string)
      reads this, Repr
      requires old(Shape()) && Shape()
    {
      keys == old(keys) && forall k :: k in keys && k != key ==> LiveOf(k) == old(LiveOf(k))
    }

    predicate IsAdminAccess(key: string) {
      adminKey != "" && adminKey == key
    }

    method CheckKey(key: string) returns (v: M.Verdict)
      requires Valid()
      ensures v == M.CheckKey(Value, key)
    {
      if IsAdminAccess(key) {
        return M.Granted;
      }
      if key in keys {
        var k := keys[key];
        var limited := k.InBytesLimited();
        if limited {
          return M.InDataLimited;
        }
        limited := k.OutBytesLimited();
        if limited {
          return M.OutDataLimited;
        }
        return M.Granted;
      }
      return M.InvalidKey;
    }

    method Check(key: string, network: string, addr: string) returns (v: M.Verdict)
      requires Valid()
      ensures v == M.Check(Value, key, network, addr)
    {
      if IsAdminAccess(key) {
        return M.Granted;
      }
      v := CheckKey(key);
      if v != M.Granted {
        return v;
      }
      var k := keys[key];
      if k.whitelist.Some? {
        var found := Rules.FindMatch(k.whitelist.value, network, addr);
        return if found then M.Granted else M.AccessDenied;
      }
      if k.blacklist.Some? {
        var found := Rules.FindMatch(k.blacklist.value, network, addr);
        return if found then M.AccessDenied else M.Granted;
      }
      return M.Granted;
    }

    method GetUsage(key: string) returns (u: Usage)
      requires Valid()
      ensures u == M.GetUsage(Value, key)
    {
      if key in keys {
        var c := keys[key].usage;
        return Usage(c.inb, c.out);
      }
      return NO_USAGE;
    }

    method GetLimit(key: string) returns (l: Limit)
      requires Valid()
      ensures l == M.LimitIn(Value.sto, key)
    {
      var i := 0;
      while i < n
        invariant i <= n
        invariant M.LimitIn(Value.sto[i..], key) == M.LimitIn(Value.sto, key)
      {
        var r := slots[i];
        assert Value.sto[i..][0] == RowAt(i) && Value.sto[i..][1..] == Value.sto[i + 1..];
        if r.key == key {
          return if r.limit.Some? then r.limit.value else EMPTY_LIMIT;
        }
        i := i + 1;
      }
      assert Value.sto[i..] == [];
      return EMPTY_LIMIT;
    }

    method UpdateBytesUsage(key: string, inb: Word64, out: Word64)
      requires Valid()
      modifies Repr
      ensures Valid() && Repr == old(Repr)
      ensures Value == M.AddUsage(old(Value), key, inb, out)
    {
      hide Shape, LiveOf, RowAt, M.Agree;
      if key in keys {
        Count(key, inb, out, M.AddUsage(Value, key, inb, out));
        M.OpKeepsAgreement(parse, old(Value), M.OpUse(key, inb, out));
      }
    }

    /** The assignments of UpdateBytesUsage. */
    method Count(key: string, inb: Word64, out: Word64, ghost value: M.Acl)
      requires Shape() && key in keys
      modifies Repr
      ensures Shape() && Repr == old(Repr) && n == old(n) && OthersKept(key)
      ensures forall i :: 0 <= i < n ==> RowAt(i) == old(RowAt(i))
      ensures LiveOf(key) == old(LiveOf(key)).(usage := Added(old(LiveOf(key)).usage, inb, out))
      ensures pending == old(pending) + 1 && Value == value
    {
      hide Shape, LiveOf, RowAt;
      AddBytes(key, inb, out);
      Note(value);
    }

    method AddBytes(key: string, inb: Word64, out: Word64)
      requires Shape() && key in keys
      modifies Repr
      ensures Shape() && unchanged(this) && OthersKept(key)
      ensures LiveOf(key) == old(LiveOf(key)).(usage := Added(old(LiveOf(key)).usage, inb, out))
      ensures forall i :: 0 <= i < n ==> RowAt(i) == old(RowAt(i))
    {
      var c := keys[key].usage;
      c.inb := WrapAdd(c.inb, inb);
      c.out := WrapAdd(c.out, out);
      ShapeKept();
      RowsKept();
    }

    method DelUsage(key: string)
      requires Valid()
      modifies Repr
      ensures Valid() && fresh(Repr - old(Repr))
      ensures Value == M.ResetUsage(old(Value), key)
    {
      hide Shape, LiveOf, RowAt, M.Agree;
      ReplaceUsage(key, M.ResetUsage(Value, key));
      M.OpKeepsAgreement(parse, old(Value), M.OpReset(key));
    }

    /** The assignments of DelUsage; the old counter stays with the record that points to it. */
    method ReplaceUsage(key: string, ghost value: M.Acl)
      requires Shape()
      modifies Repr
      ensures Shape() && fresh(Repr - old(Repr))
      ensures keys == old(keys) && n == old(n) && pending == old(pending) + 1 && Value == value
      ensures forall k :: k in keys ==>
                LiveOf(k) == if k == key then old(LiveOf(k)).(usage := NO_USAGE) else old(LiveOf(k))
      ensures forall i :: 0 <= i < n ==>
                RowAt(i) == var r := old(RowAt(i));
                            if key in keys && r.key == key && r.usage == M.Shared
                            then r.(usage := M.Detached(old(LiveOf(key)).usage)) else r
    {
      hide Shape, LiveOf, RowAt;
      Note(value);
      if key in keys {
        SwapCounter(key);
      }
    }

    /** Count a change. */
    method Note(ghost value: M.Acl)
      requires Shape()
      modifies Repr
      ensures Shape() && Repr == old(Repr)
      ensures keys == old(keys) && n == old(n) && pending == old(pending) + 1 && Value == value
      ensures forall k :: k in keys ==> LiveOf(k) == old(LiveOf(k))
      ensures forall i :: 0 <= i < n ==> RowAt(i) == old(RowAt(i))
    {
      pending := pending + 1;
      Value := value;
    }

    method SwapCounter(key: string)
      requires Shape() && key in keys
      modifies Repr
      ensures Shape() && fresh(Repr - old(Repr))
      ensures keys == old(keys) && n == old(n) && pending == old(pending) && Value == old(Value)
      ensures forall k :: k in keys ==>
                LiveOf(k) == if k == key then old(LiveOf(k)).(usage := NO_USAGE) else old(LiveOf(k))
      ensures forall i :: 0 <= i < n ==>
                RowAt(i) == var r := old(RowAt(i));
                            if r.key == key && r.usage == M.Shared
                            then r.(usage := M.Detached(old(LiveOf(key)).usage)) else r
    {
      var c := new UsageCell(key, 0, 0);
      keys[key].usage := c;
      Repr := Repr + {c};
    }

    method Limit(key: string, l: Option<Limit>) returns (ok: bool)
      requires Valid()
      modifies Repr
      ensures Valid() && Repr == old(Repr)
      ensures Value == M.SetLimit(parse, old(Value), key, l)
      ensures ok <==> key !in keys || Succeeds(parse, l)
    {
      hide Limits.Apply, Succeeds, M.Agree, Shape, LiveOf, RowAt;
      if key in keys {
        ApplySucceeds(parse, LiveOf(key).enforced, l);
      }
      ok := TakeLimit(key, l, M.SetLimit(parse, Value, key, l));
      M.OpKeepsAgreement(parse, old(Value), M.OpLimit(key, l));
    }

    method NewKey(name: string, key: string)
      requires Valid() && key !in keys
      modifies Repr
      ensures Valid() && fresh(Repr - old(Repr))
      ensures Value == M.CreateKey(old(Value), name, key)
    {
      hide Shape, LiveOf, RowAt, M.Agree;
      AddCells(name, key, NO_USAGE, None, false, Value);
      Note(M.CreateKey(Value, name, key));
      M.OpKeepsAgreement(parse, old(Value), M.OpCreate(name, key));
    }

    /** A key object with its own counter and the given limit applied; errors are dropped. */
    method InsertKey(key: string, usage: Usage, limit: Option<Limit>)
      requires Shape() && key !in keys
      modifies Repr
      ensures Shape() && fresh(Repr - old(Repr))
      ensures keys.Keys == old(keys.Keys) + {key} && n == old(n) && pending == old(pending) && Value == old(Value)
      ensures LiveOf(key) == M.LiveKey(Limits.Apply(parse, UNLIMITED, limit).0, usage)
      ensures forall k :: k in keys && k != key ==> LiveOf(k) == old(LiveOf(k))
      ensures forall i :: 0 <= i < n ==> RowAt(i) == old(RowAt(i))
    {
      hide Limits.Apply;
      var c := new UsageCell(key, usage.inb, usage.out);
      var k := new KeyCell(c);
      var ok := k.Apply(parse, limit);
      PutKey(key, k);
    }

    method PutKey(key: string, k: KeyCell)
      requires Shape() && key !in keys
      requires k !in Repr && k.usage !in Repr && k.owner == key && k.usage.owner == key
      modifies this
      ensures Shape() && Repr == old(Repr) + {k, k.usage}
      ensures keys == old(keys)[key := k] && n == old(n) && pending == old(pending) && Value == old(Value)
      ensures forall l :: l in keys && l != key ==> LiveOf(l) == old(LiveOf(l))
      ensures forall i :: 0 <= i < n ==> RowAt(i) == old(RowAt(i))
    {
      keys := keys[key := k];
      Repr := Repr + {k, k.usage};
    }

    /** append(list, record): in place, or into a larger copy when the array is full. */
    method AppendRecord(name: string, key: string, limit: Option<Limit>, share: bool)
      requires Shape() && key in keys
      modifies Repr
      ensures Shape() && fresh(Repr - old(Repr))
      ensures keys == old(keys) && n == old(n) + 1 && pending == old(pending) && Value == old(Value)
      ensures forall k :: k in keys ==> LiveOf(k) == old(LiveOf(k))
      ensures forall i :: 0 <= i < n - 1 ==> RowAt(i) == old(RowAt(i))
      ensures RowAt(n - 1) == M.StoredKey(name, key, limit, if share then M.Shared else M.Absent)
    {
      hide LiveOf, RowAt;
      if n == slots.Length {
        Grow();
      }
      hide Shape;
      NewRecord(name, key, limit, share);
    }

    method NewRecord(name: string, key: string, limit: Option<Limit>, share: bool)
      requires Shape() && key in keys && n < slots.Length
      modifies Repr
      ensures Shape() && fresh(Repr - old(Repr))
      ensures keys == old(keys) && n == old(n) + 1 && pending == old(pending) && Value == old(Value)
      ensures forall k :: k in keys ==> LiveOf(k) == old(LiveOf(k))
      ensures forall i :: 0 <= i < n - 1 ==> RowAt(i) == old(RowAt(i))
      ensures RowAt(n - 1) == M.StoredKey(name, key, limit, if share then M.Shared else M.Absent)
    {
      var r := new RecordCell(name, key, limit, if share then keys[key].usage else null);
      PutRecord(r);
    }

    method Grow()
      requires Shape()
      modifies this
      ensures Shape() && fresh(Repr - old(Repr)) && n < slots.Length
      ensures keys == old(keys) && n == old(n) && pending == old(pending) && Value == old(Value)
      ensures forall k :: k in keys ==> LiveOf(k) == old(LiveOf(k))
      ensures forall i :: 0 <= i < n ==> RowAt(i) == old(RowAt(i))
    {
      var larger := Enlarged(slots, n);
      slots := larger;
      Repr := Repr + {larger};
    }

    method PutRecord(r: RecordCell)
      requires Shape() && r.key in keys && n < slots.Length && r !in Repr
      requires r.usage != null ==> r.usage == keys[r.key].usage
      modifies this, slots
      ensures Shape() && Repr == old(Repr) + {r}
      ensures keys == old(keys) && n == old(n) + 1 && pending == old(pending) && Value == old(Value)
      ensures forall i :: 0 <= i < n - 1 ==> RowAt(i) == old(RowAt(i))
      ensures RowAt(n - 1) == M.StoredKey(r.name, r.key, r.limit, if r.usage != null then M.Shared else M.Absent)
    {
      slots[n] := r;
      n := n + 1;
      Repr := Repr + {r};
    }

    method DelKey(key: string)
      requires Valid()
      modifies Repr
      ensures Valid() && Repr == old(Repr)
      ensures Value == M.RemoveKey(old(Value), key)
    {
      hide Shape, LiveOf, RowAt, M.Agree;
      M.AgreeUnique(Value);
      M.OpKeepsAgreement(parse, Value, M.OpRemove(key));
      DropKey(key, Value.sto);
      Note(M.RemoveKey(Value, key));
    }

    /** First the live key, then the records, as DelKey does it. */
    method DropKey(key: string, ghost rows: seq<M.StoredKey>)
      requires Shape()
      requires |rows| == n && M.UniqueKeys(rows)
      requires forall i :: 0 <= i < n ==> rows[i] == RowAt(i)
      modifies Repr
      ensures Shape() && Repr == old(Repr)
      ensures keys == old(keys) - {key} && pending == old(pending) && Value == old(Value)
      ensures forall k :: k in keys ==> LiveOf(k) == old(LiveOf(k))
      ensures n == |M.Without(rows, key)| && forall i :: 0 <= i < n ==> RowAt(i) == M.Without(rows, key)[i]
    {
      hide M.UniqueKeys, M.Without;
      assert forall i :: 0 <= i < n ==> RowAt(i).key == slots[i].key;
      ghost var at := CutKey(key, rows);
      assert forall j :: 0 <= j < n ==> slots[j] == slots[..n][j];
    }

    method CutKey(key: string, ghost rows: seq<M.StoredKey>) returns (ghost at: seq<nat>)
      requires Shape() && |rows| == n && M.UniqueKeys(rows)
      requires forall i :: 0 <= i < n ==> rows[i].key == slots[i].key
      modifies this, slots
      ensures Shape() && Repr == old(Repr) && slots == old(slots) && n <= old(n)
      ensures keys == old(keys) - {key} && pending == old(pending) && Value == old(Value)
      ensures Picks(old(slots[..n]), slots[..n], rows, M.Without(rows, key), key, at)
    {
      hide M.UniqueKeys, M.Without, D.Distinct, Picks;
      keys := keys - {key};
      at := CutList(key, rows);
      PicksIndex(old(slots[..n]), slots[..n], rows, M.Without(rows, key), key, at);
      DistinctIndex(slots[..n]);
      forall j | 0 <= j < n
        ensures slots[j] == old(slots[at[j]]) && slots[j].key != key
      {
        assert slots[j] == slots[..n][j];
      }
      assert forall i, j :: 0 <= i < j < n ==> slots[i] != slots[j] by {
        assert forall j :: 0 <= j < n ==> slots[j] == slots[..n][j];
      }
    }

    method CutList(key: string, ghost rows: seq<M.StoredKey>) returns (ghost at: seq<nat>)
      requires n <= slots.Length && |rows| == n && M.UniqueKeys(rows)
      requires forall i :: 0 <= i < n ==> slots[i] != null && slots[i].key == rows[i].key
      modifies this`n, slots
      ensures n <= old(n) && D.Distinct(slots[..n])
      ensures Picks(old(slots[..n]), slots[..n], rows, M.Without(rows, key), key, at)
    {
      ghost var was := slots[..n];
      assert forall i :: 0 <= i < n ==> was[i].key == rows[i].key;
      assert D.Distinct(was);
      OnceIsFilter(was, key);
      var m, panics := RemoveRecords(slots, n, key);
      n := m;
      at := FilterRows(was, rows, key);
      D.FilterExact(was, (r: RecordCell?) => HasKey(r, key));
    }

    /** The in-memory part of a save, and the records as they are encoded. */
    method Persist() returns (file: seq<M.FileKey>)
      requires Valid()
      modifies Repr
      ensures Valid() && Repr == old(Repr)
      ensures Value == old(Value).(sto := M.Attach(old(Value).sto, old(Value).live))
      ensures file == M.Saved(old(Value))
    {
      hide Shape, LiveOf, RowAt, M.Agree;
      AttachAll(M.Attach(Value.sto, Value.live));
      M.OpKeepsAgreement(parse, old(Value), M.OpSave);
      file := EncodeAll();
    }

    method AttachAll(ghost sto: seq<M.StoredKey>)
      requires Shape()
      modifies Repr
      ensures Shape() && Repr == old(Repr)
      ensures keys == old(keys) && n == old(n) && pending == old(pending) && Value == old(Value).(sto := sto)
      ensures forall k :: k in keys ==> LiveOf(k) == old(LiveOf(k))
      ensures forall i :: 0 <= i < n ==> RowAt(i).key in keys && RowAt(i) == old(RowAt(i)).(usage := M.Shared)
    {
      Value := Value.(sto := sto);
      CopyPointers();
      assert forall i :: 0 <= i < n ==> slots[i] == old(slots[i]);
    }

    method CopyPointers()
      requires Shape()
      modifies set i | 0 <= i < n :: slots[i]
      ensures forall i :: 0 <= i < n ==>
                slots[i].usage == keys[slots[i].key].usage && slots[i].limit == old(slots[i].limit)
    {
      var i := 0;
      while i < n
        invariant i <= n
        invariant forall j :: 0 <= j < n ==> slots[j].limit == old(slots[j].limit)
        invariant forall j :: 0 <= j < i ==> slots[j].usage == keys[slots[j].key].usage
      {
        if slots[i].key in keys {
          slots[i].usage := keys[slots[i].key].usage;
        }
        i := i + 1;
      }
    }

    /** What the encoder writes for the records as they stand. */
    method EncodeAll() returns (file: seq<M.FileKey>)
      requires Shape() && Holds()
      ensures file == M.Encode(Value.sto, Value.live)
    {
      file := [];
      var i := 0;
      while i < n
        invariant i <= n
        invariant file == M.Encode(Value.sto, Value.live)[..i]
      {
        var r := slots[i];
        assert Value.sto[i] == RowAt(i);
        assert Value.live[r.key] == LiveOf(r.key);
        var u := if r.usage == null then None else Some(Usage(r.usage.inb, r.usage.out));
        file := file + [M.FileKey(r.name, r.key, M.JsonOption(r.limit), u)];
        i := i + 1;
      }
    }

    /**
      One turn of the background loop without interference. The counter is cleared
      before anything can fail; the file is left alone, emptied, or written. A failing
      write goes unnoticed.
     */
    method PersistTick(disk: Disk) returns (file: FileState)
      requires Valid()
      modifies Repr
      ensures Valid() && Repr == old(Repr)
      ensures file == if old(pending) == 0 || disk.OpenFails? || disk.TruncateFails? then Untouched
                      else if disk.WriteFails? then Emptied else Written(M.Saved(old(Value)))
      ensures Value == if old(pending) == 0 then old(Value)
                       else if disk.OpenFails? || disk.TruncateFails? then old(Value).(pending := 0)
                       else old(Value).(pending := 0, sto := M.Attach(old(Value).sto, old(Value).live))
    {
      file := Untouched;
      if pending > 0 {
        Zero();
        if disk.OpenFails? || disk.TruncateFails? {
          return;
        }
        var f := Persist();
        file := if disk.WriteFails? then Emptied else Written(f);
      }
    }

    method Zero()
      requires Valid()
      modifies this
      ensures Valid() && Repr == old(Repr) && Value == old(Value).(pending := 0)
    {
      hide M.Agree;
      ZeroFields();
      hide Shape, LiveOf, RowAt;
      M.ZeroAgrees(old(Value));
    }

    method ZeroFields()
      requires Shape()
      modifies this
      ensures Shape() && Repr == old(Repr) && keys == old(keys) && n == old(n)
      ensures pending == 0 && Value == old(Value).(pending := 0)
      ensures forall k :: k in keys ==> LiveOf(k) == old(LiveOf(k))
      ensures forall i :: 0 <= i < n ==> RowAt(i) == old(RowAt(i))
    {
      pending := 0;
      Value := Value.(pending := 0);
    }

    constructor Empty(parse: Parse, adminKey: string)
      ensures Valid() && fresh(Repr)
      ensures this.parse == parse && Value == M.Load(parse, adminKey, [])
    {
      this.parse, this.adminKey := parse, adminKey;
      var a := new RecordCell?[0];
      keys, slots, n, pending := map[], a, 0, 0;
      Value := M.Load(parse, adminKey, []);
      Repr := {this, a};
    }

    method LoadKey(k: M.FileKey, ghost before: seq<M.FileKey>)
      requires Valid() && k.key !in Value.live && Value == M.Load(parse, adminKey, before)
      modifies Repr
      ensures Valid() && fresh(Repr - old(Repr))
      ensures Value == M.Load(parse, adminKey, before + [k])
    {
      hide Shape, Holds, M.Agree, M.Load, M.LoadLive;
      M.LoadSnoc(parse, adminKey, before, k);
      M.LoadStepAgrees(parse, adminKey, before, k);
      AddLoaded(k, M.Load(parse, adminKey, before + [k]));
    }

    method AddLoaded(k: M.FileKey, ghost value: M.Acl)
      requires Valid() && k.key !in Value.live && M.Agree(value)
      requires value == Value.(live := Value.live[k.key := M.ReadLive(parse, k)], sto := Value.sto + [M.ReadKey(k)])
      modifies Repr
      ensures Valid() && fresh(Repr - old(Repr)) && Value == value
    {
      hide Shape, LiveOf, RowAt, M.Agree, Limits.Apply;
      AddCells(k.name, k.key, if k.usage.Some? then k.usage.value else NO_USAGE, k.limit, k.usage.Some?, value);
    }

    /** A key object and a record for a key that has neither. */
    method AddCells(name: string, key: string, usage: Usage, limit: Option<Limit>, share: bool, ghost value: M.Acl)
      requires Shape() && key !in keys
      modifies Repr
      ensures Shape() && fresh(Repr - old(Repr))
      ensures keys.Keys == old(keys.Keys) + {key} && n == old(n) + 1 && pending == old(pending) && Value == value
      ensures LiveOf(key) == M.LiveKey(Limits.Apply(parse, UNLIMITED, limit).0, usage)
      ensures forall k :: k in keys && k != key ==> LiveOf(k) == old(LiveOf(k))
      ensures forall i :: 0 <= i < n - 1 ==> RowAt(i) == old(RowAt(i))
      ensures RowAt(n - 1) == M.StoredKey(name, key, limit, if share then M.Shared else M.Absent)
    {
      hide Shape, LiveOf, RowAt, Limits.Apply;
      InsertKey(key, usage, limit);
      AppendRecord(name, key, limit, share);
      SetValue(value);
    }

    method SetValue(ghost value: M.Acl)
      requires Shape()
      modifies this`Value
      ensures Shape()
      ensures Value == value
      ensures forall k :: k in keys ==> LiveOf(k) == old(LiveOf(k))
      ensures forall i :: 0 <= i < n ==> RowAt(i) == old(RowAt(i))
    {
      Value := value;
    }

    /** The assignments of Limit. */
    method TakeLimit(key: string, l: Option<Limit>, ghost value: M.Acl) returns (ok: bool)
      requires Shape()
      modifies Repr
      ensures Shape() && Repr == old(Repr)
      ensures keys == old(keys) && n == old(n) && pending == old(pending) + 1 && Value == value
      ensures key !in keys ==> ok
      ensures key in keys ==> (LiveOf(key).enforced, ok) == Limits.Apply(parse, old(LiveOf(key)).enforced, l)
                              && LiveOf(key).usage == old(LiveOf(key)).usage
      ensures OthersKept(key)
      ensures forall i :: 0 <= i < n ==>
                RowAt(i) == var r := old(RowAt(i));
                            if key in keys && ok && r.key == key then r.(limit := l) else r
    {
      hide Limits.Apply, Shape, LiveOf, RowAt;
      ok := Enforce(key, l, value);
      if key in keys && ok {
        StoreLimit(key, l);
      }
    }

    method Enforce(key: string, l: Option<Limit>, ghost value: M.Acl) returns (ok: bool)
      requires Shape()
      modifies Repr
      ensures Shape() && Repr == old(Repr)
      ensures keys == old(keys) && n == old(n) && pending == old(pending) + 1 && Value == value
      ensures key !in keys ==> ok
      ensures key in keys ==> (LiveOf(key).enforced, ok) == Limits.Apply(parse, old(LiveOf(key)).enforced, l)
                              && LiveOf(key).usage == old(LiveOf(key)).usage
      ensures OthersKept(key)
      ensures forall i :: 0 <= i < n ==> RowAt(i) == old(RowAt(i))
    {
      hide Limits.Apply, Shape, LiveOf, RowAt;
      ok := true;
      Note(value);
      if key in keys {
        ok := ApplyTo(key, l);
      }
    }

    method ApplyTo(key: string, l: Option<Limit>) returns (ok: bool)
      requires Shape() && key in keys
      modifies Repr
      ensures Shape() && unchanged(this)
      ensures (LiveOf(key).enforced, ok) == Limits.Apply(parse, old(LiveOf(key)).enforced, l)
      ensures LiveOf(key).usage == old(LiveOf(key)).usage
      ensures OthersKept(key)
      ensures forall i :: 0 <= i < n ==> RowAt(i) == old(RowAt(i))
    {
      hide Limits.Apply;
      ok := keys[key].Apply(parse, l);
      ShapeKept();
      RowsKept();
    }

    /** The loop over the stored records. */
    method StoreLimit(key: string, l: Option<Limit>)
      requires Shape()
      modifies Repr
      ensures Shape() && unchanged(this)
      ensures forall k :: k in keys ==> LiveOf(k) == old(LiveOf(k))
      ensures forall i :: 0 <= i < n ==>
                RowAt(i) == var r := old(RowAt(i)); if r.key == key then r.(limit := l) else r
    {
      SetRecords(key, l);
      ShapeKept();
      RowsKept();
    }

    method SetRecords(key: string, l: Option<Limit>)
      requires Shape()
      modifies set i | 0 <= i < n :: slots[i]
      ensures forall i :: 0 <= i < n ==> slots[i].usage == old(slots[i].usage)
      ensures forall i :: 0 <= i < n ==> slots[i].limit == if slots[i].key == key then l else old(slots[i].limit)
    {
      var i := 0;
      while i < n
        invariant i <= n
        invariant forall j :: 0 <= j < n ==> slots[j].usage == old(slots[j].usage)
        invariant forall j :: 0 <= j < n ==> slots[j].limit == if j < i && slots[j].key == key then l
                  else old(slots[j].limit)
      {
        if slots[i].key == key {
          slots[i].limit := l;
        }
        i := i + 1;
      }
    }
  }

  /** NewACL after the file has been read; short admin keys are refused. */
  method NewACL(parse: Parse, adminKey: string, file: seq<M.FileKey>) returns (acl: Server?)
    requires M.UniqueFile(file)
    ensures acl == null <==> 0 < |adminKey| < 16
    ensures acl != null ==>
              && acl.Valid() && fresh(acl.Repr) && acl.parse == parse
              && acl.Value == M.Load(parse, adminKey, file)
  {
    if 0 < |adminKey| < 16 {
      return null;
    }
    hide Server.Valid, M.LoadLive, M.UniqueFile;
    var a := new Server.Empty(parse, adminKey);
    var i := 0;
    while i < |file|
      invariant i <= |file|
      invariant a.Valid() && fresh(a.Repr) && a.parse == parse && a.Value == M.Load(parse, adminKey, file[..i])
    {
      LoadedKeys(parse, file, i);
      a.LoadKey(file[i], file[..i]);
      assert file[..i + 1] == file[..i] + [file[i]];
      i := i + 1;
    }
    assert file[..i] == file;
    return a;
  }

  lemma LoadedKeys(parse: Parse, file: seq<M.FileKey>, i: nat)
    requires M.UniqueFile(file) && i < |file|
    ensures file[i].key !in M.Load(parse, "", file[..i]).live
  {
    M.LoadLiveLookup(parse, file[..i]);
  }
}
