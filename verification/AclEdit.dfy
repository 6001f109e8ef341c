/**
  Editing the lists of a key from the command line: fetch the stored limit, change
  one list, send the whole limit back. Both transfers leave out empty lists.
 */
module AclEdit {
  import opened Common
  import opened Quota
  import opened Rules
  import opened Limits
  import opened AclModel
  import S = AclServer
  import Tools

  datatype Edit = Add | Del | Reset

  /** Existing rules stay in front, new ones follow, none twice. */
  function Merge(was: seq<string>, args: seq<string>): seq<string>
    decreases |args|
  {
    if args == [] then was
    else Merge(if args[0] in was then was else was + [args[0]], args[1..])
  }

  /** Appending nothing to a nil list leaves it nil. */
  function MergeList(was: Option<seq<string>>, args: seq<string>): Option<seq<string>> {
    var merged := Merge(if was.Some? then was.value else [], args);
    if was.None? && merged == [] then None else Some(merged)
  }

  function Keep(was: seq<string>, args: seq<string>): seq<string> {
    if was == [] then []
    else if was[0] in args then Keep(was[1..], args)
    else [was[0]] + Keep(was[1..], args)
  }

  /** The list that is built from nothing stays nil when no rule is kept. */
  function KeepList(was: Option<seq<string>>, args: seq<string>): Option<seq<string>> {
    var kept := Keep(if was.Some? then was.value else [], args);
    if kept == [] then None else Some(kept)
  }

  function Edited(edit: Edit, was: Option<seq<string>>, args: seq<string>): Option<seq<string>> {
    match edit
    case Add => MergeList(was, args)
    case Del => KeepList(was, args)
    case Reset => Some(args)
  }

  function EditedLists(edit: Edit, white: bool, l: Rules.Lists, args: seq<string>): Rules.Lists {
    if white then l.(white := Edited(edit, l.white, args)) else l.(black := Edited(edit, l.black, args))
  }

  /** The limit that is sent back. */
  function Patch(a: Acl, key: string, edit: Edit, white: bool, args: seq<string>): Limit {
    var l := Json(LimitIn(a.sto, key));
    Json(l.(lists := EditedLists(edit, white, l.lists, args)))
  }

  // -- the loops ------------------------------------------------------------

  method AddRules(was: Option<seq<string>>, args: seq<string>) returns (r: Option<seq<string>>)
    ensures r == MergeList(was, args)
  {
    r := was;
    ghost var start := if was.Some? then was.value else [];
    for i := 0 to |args|
      invariant r.None? ==> was.None? && start == []
      invariant Merge(if r.Some? then r.value else [], args[i..]) == Merge(start, args)
      invariant r.Some? && was.None? ==> r.value != []
    {
      var list := if r.Some? then r.value else [];
      assert args[i..][0] == args[i] && args[i..][1..] == args[i + 1..];
      var k := Tools.SliceIndex(list, args[i]);
      if k >= 0 {
        continue;
      }
      r := Some(list + [args[i]]);
    }
    assert args[|args|..] == [];
  }

  method DelRules(was: Option<seq<string>>, args: seq<string>) returns (r: Option<seq<string>>)
    ensures r == KeepList(was, args)
  {
    r := None;
    var list := if was.Some? then was.value else [];
    for i := 0 to |list|
      invariant r.Some? ==> r.value != []
      invariant (if r.Some? then r.value else []) + Keep(list[i..], args) == Keep(list, args)
    {
      assert list[i..][0] == list[i] && list[i..][1..] == list[i + 1..];
      var k := Tools.SliceIndex(args, list[i]);
      if k < 0 {
        r := Some((if r.Some? then r.value else []) + [list[i]]);
      }
    }
    assert list[|list|..] == [];
    assert (if r.Some? then r.value else []) == Keep(list, args);
  }

  function ListOf(l: Rules.Lists, white: bool): Option<seq<string>> {
    if white then l.white else l.black
  }

  /**
    updateWhitelist and updateBlacklist against a server. The command shows the edited
    list whether or not the server accepts it, because the client does not look at the
    refusal; what is shown is in force exactly if it was accepted or was so before.
   */
  method Update(acl: S.Server, key: string, edit: Edit, white: bool, args: seq<string>)
      returns (shown: Option<seq<string>>)
    requires acl.Valid()
    modifies acl.Repr
    ensures acl.Valid() && acl.Repr == old(acl.Repr)
    ensures acl.Value == SetLimit(acl.parse, old(acl.Value), key, Some(Patch(old(acl.Value), key, edit, white, args)))
    ensures shown == Edited(edit, ListOf(Json(LimitIn(old(acl.Value).sto, key)).lists, white), args)
    ensures key in acl.Value.live ==>
              (ListOf(acl.Value.live[key].enforced.lists, white) == Omit(shown) <==>
               || Succeeds(acl.parse, Some(Patch(old(acl.Value), key, edit, white, args)))
               || ListOf(old(acl.Value).live[key].enforced.lists, white) == Omit(shown))
  {
    hide S.Server.Valid, SetLimit, Succeeds;
    ghost var before := acl.Value;
    var fetched := acl.GetLimit(key);
    var l := Json(fetched);
    var list := if white then l.lists.white else l.lists.black;
    match edit {
      case Add => shown := AddRules(list, args);
      case Del => shown := DelRules(list, args);
      case Reset => shown := Some(args);
    }
    l := l.(lists := if white then l.lists.(white := shown) else l.lists.(black := shown));
    var accepted := acl.Limit(key, Some(Json(l)));
    SentLists(acl.parse, before, key, Some(Json(l)));
  }

  lemma SentLists(parse: Parse, a: Acl, key: string, call: Option<Limit>)
    ensures var b := SetLimit(parse, a, key, call);
            && b.live.Keys == a.live.Keys
            && (key in a.live ==> b.live[key].enforced.lists ==
                                  if call.Some? && Succeeds(parse, call) then call.value.lists
                                      else a.live[key].enforced.lists)
  {
    if key in a.live {
      ApplyLists(parse, a.live[key].enforced, call);
    }
  }

  // -- what an edit does to the lists --------------------------------------------

  ghost predicate NoRepeat(rules: seq<string>) {
    forall i, j :: 0 <= i < j < |rules| ==> rules[i] != rules[j]
  }

  lemma {:induction false} MergeExact(was: seq<string>, args: seq<string>)
    ensures was <= Merge(was, args)
    ensures forall r :: r in Merge(was, args) <==> r in was || r in args
    ensures NoRepeat(was) ==> NoRepeat(Merge(was, args))
    decreases |args|
  {
    if args != [] {
      var was' := if args[0] in was then was else was + [args[0]];
      assert forall r :: r in was' <==> r in was || r == args[0];
      assert forall r :: r in args <==> r == args[0] || r in args[1..];
      MergeExact(was', args[1..]);
    }
  }

  lemma {:induction false} KeepExact(was: seq<string>, args: seq<string>)
    ensures forall r :: r in Keep(was, args) <==> r in was && r !in args
  {
    if was != [] {
      KeepExact(was[1..], args);
      assert forall r :: r in was <==> r == was[0] || r in was[1..];
    }
  }

  /** The rules that stay keep their order and their number. */
  lemma {:induction false} KeepConcat(x: seq<string>, y: seq<string>, args: seq<string>)
    ensures Keep(x + y, args) == Keep(x, args) + Keep(y, args)
    ensures forall r :: Keep([r], args) == if r in args then [] else [r]
  {
    if x == [] {
      assert x + y == y;
    } else {
      KeepConcat(x[1..], y, args);
      assert (x + y)[1..] == x[1..] + y;
    }
  }

  lemma {:induction false} KeepNone(was: seq<string>, args: seq<string>)
    requires forall r :: r in was ==> r in args
    ensures Keep(was, args) == []
  {
    if was != [] {
      KeepNone(was[1..], args);
    }
  }

  /** A rule as an operator writes it: an address alone, or with a network after one slash. */
  predicate PlainRule(rule: string, network: string, addr: string) {
    NoSlash(addr) && NoSlash(network) && (rule == addr || rule == addr + "/" + network)
    && (rule == [] || (!IsSpace(rule[0]) && !IsSpace(rule[|rule| - 1])))
  }

  lemma PlainRuleMatches(rule: string, network: string, addr: string)
    requires PlainRule(rule, network, addr)
    ensures Matches(rule, network, addr)
  {
    TrimIdentity(rule, IsSpace);
    MatchesExact(rule, network, addr);
  }

  lemma InSomeMatch(rules: seq<string>, rule: string, network: string, addr: string)
    requires rule in rules && Matches(rule, network, addr)
    ensures SomeMatch(rules, network, addr)
  {
    var i :| 0 <= i < |rules| && rules[i] == rule;
  }

  /** The lists in force after an edit that the server accepted. */
  lemma EditEnforced(parse: Parse, a: Acl, key: string, edit: Edit, white: bool, args: seq<string>)
    requires key in a.live && Succeeds(parse, Some(Patch(a, key, edit, white, args)))
    ensures var b := SetLimit(parse, a, key, Some(Patch(a, key, edit, white, args)));
            key in b.live && b.live[key].enforced.lists == Patch(a, key, edit, white, args).lists &&
            b.live[key].usage == a.live[key].usage && b.adminKey == a.adminKey
  {
    ApplyLists(parse, a.live[key].enforced, Some(Patch(a, key, edit, white, args)));
  }

  /**
    Adding a plain rule: on the allow list it grants the pair, and on the deny
    list, when there is no allow list, it refuses it; the quota is checked first.
   */
  lemma AddReachesDecision(parse: Parse, a: Acl, key: string, white: bool, args: seq<string>,
                           rule: string, network: string, addr: string)
    requires key in a.live && rule in args && PlainRule(rule, network, addr)
    requires Succeeds(parse, Some(Patch(a, key, Add, white, args)))
    ensures var b := SetLimit(parse, a, key, Some(Patch(a, key, Add, white, args)));
            white ==> Check(b, key, network, addr) == CheckKey(b, key)
    ensures var b := SetLimit(parse, a, key, Some(Patch(a, key, Add, white, args)));
            !white && Omit(LimitIn(a.sto, key).lists.white).None? && !IsAdmin(a, key) ==>
              Check(b, key, network, addr) == if CheckKey(b, key) == Granted then AccessDenied else CheckKey(b, key)
  {
    hide SetLimit, Succeeds, Matches, IsSpace;
    EditEnforced(parse, a, key, Add, white, args);
    PlainRuleMatches(rule, network, addr);
    var l := Json(LimitIn(a.sto, key)).lists;
    var list := if white then l.white else l.black;
    var was := if list.Some? then list.value else [];
    MergeExact(was, args);
    assert rule in Merge(was, args);
    InSomeMatch(Merge(was, args), rule, network, addr);
  }

  /**
    An accepted edit puts the edited list in force and leaves the other one and all the
    texts as they were stored; a list that comes out empty is none.
   */
  lemma EditExact(parse: Parse, a: Acl, key: string, edit: Edit, white: bool, args: seq<string>)
    requires key in a.live && Succeeds(parse, Some(Patch(a, key, edit, white, args)))
    ensures var was, p := LimitIn(a.sto, key), Patch(a, key, edit, white, args);
            var now := SetLimit(parse, a, key, Some(p)).live[key].enforced.lists;
            && p.bytes == was.bytes && p.inBytes == was.inBytes && p.outBytes == was.outBytes
            && now.white == (if white then Omit(Edited(edit, Omit(was.lists.white), args)) else Omit(was.lists.white))
            && now.black == (if white then Omit(was.lists.black) else Omit(Edited(edit, Omit(was.lists.black), args)))
  {
    hide SetLimit, Succeeds, Edited;
    EditEnforced(parse, a, key, edit, white, args);
  }

  /** After an accepted reset the list in force is exactly the given rules, and none if none are given. */
  lemma ResetExact(parse: Parse, a: Acl, key: string, white: bool, args: seq<string>)
    requires key in a.live && Succeeds(parse, Some(Patch(a, key, Reset, white, args)))
    ensures var now := SetLimit(parse, a, key, Some(Patch(a, key, Reset, white, args))).live[key].enforced.lists;
            var list := if white then now.white else now.black;
            list == if args == [] then None else Some(args)
  {
    EditExact(parse, a, key, Reset, white, args);
  }

  /** After an accepted deletion exactly the other rules are in force, in their order. */
  lemma DelExact(parse: Parse, a: Acl, key: string, white: bool, args: seq<string>, was: seq<string>)
    requires key in a.live && Succeeds(parse, Some(Patch(a, key, Del, white, args)))
    requires ListOf(LimitIn(a.sto, key).lists, white) == Some(was)
    ensures var now := SetLimit(parse, a, key, Some(Patch(a, key, Del, white, args))).live[key].enforced.lists;
            var list := if white then now.white else now.black;
            && (list.None? <==> forall r :: r in was ==> r in args)
            && (list.Some? ==> list.value == Keep(was, args) && forall r :: r in list.value <==> r in was && r !in args)
  {
    hide SetLimit, Succeeds;
    EditExact(parse, a, key, Del, white, args);
    KeepExact(was, args);
    if forall r :: r in was ==> r in args {
      KeepNone(was, args);
    }
    if Keep(was, args) != [] {
      assert Keep(was, args)[0] in Keep(was, args);
    }
  }

  /** Deleting the last rule of an allow list removes the list: everything not denied is allowed. */
  lemma DelLastAllowRule(parse: Parse, a: Acl, key: string, args: seq<string>, network: string, addr: string)
    requires key in a.live && Succeeds(parse, Some(Patch(a, key, Del, true, args)))
    requires var w := Json(LimitIn(a.sto, key)).lists.white; w.Some? ==> forall r :: r in w.value ==> r in args
    requires Omit(LimitIn(a.sto, key).lists.black).None?
    ensures var b := SetLimit(parse, a, key, Some(Patch(a, key, Del, true, args)));
            Check(b, key, network, addr) == CheckKey(b, key)
  {
    hide SetLimit, Succeeds;
    EditEnforced(parse, a, key, Del, true, args);
    var w := Json(LimitIn(a.sto, key)).lists.white;
    var was := if w.Some? then w.value else [];
    KeepNone(was, args);
  }

  // -- an edit and the byte limits -------------------------------------------------

  /** The stored limit of every key parses, and its texts are the numbers in force. */
  ghost predicate StoredAgrees(parse: Parse, a: Acl) {
    forall i :: 0 <= i < |a.sto| && a.sto[i].limit.Some? ==>
                  Succeeds(parse, a.sto[i].limit) && a.sto[i].key in a.live &&
                  Agrees(parse, a.live[a.sto[i].key].enforced.limits, a.sto[i].limit.value)
  }

  /**
    An edit leaves the byte limits of the key alone exactly when its stored texts
    are the numbers in force.
   */
  lemma EditByteLimitsExact(parse: Parse, a: Acl, key: string, edit: Edit, white: bool, args: seq<string>)
    requires key in a.live && Succeeds(parse, Some(Patch(a, key, edit, white, args)))
    ensures SetLimit(parse, a, key, Some(Patch(a, key, edit, white, args))).live[key].enforced.limits
              == a.live[key].enforced.limits
            <==> Agrees(parse, a.live[key].enforced.limits, LimitIn(a.sto, key))
  {
    var p, l := Patch(a, key, edit, white, args), LimitIn(a.sto, key);
    ReapplyExact(parse, a.live[key].enforced, p);
    assert forall f: Field :: Text(p, f) == Text(l, f);
    hide Apply, Text, Enforcing;
    assert Agrees(parse, a.live[key].enforced.limits, p) <==> Agrees(parse, a.live[key].enforced.limits, l);
  }

  lemma WithoutPicks(sto: seq<StoredKey>, key: string, i: nat)
    requires i < |Without(sto, key)|
    ensures exists j :: 0 <= j < |sto| && sto[j] == Without(sto, key)[i] && sto[j].key != key
  {
    if sto[0].key == key {
      WithoutPicks(sto[1..], key, i);
      var j :| 0 <= j < |sto[1..]| && sto[1..][j] == Without(sto[1..], key)[i] && sto[1..][j].key != key;
      assert sto[j + 1] == Without(sto, key)[i];
    } else if i == 0 {
      assert sto[0] == Without(sto, key)[0];
    } else {
      WithoutPicks(sto[1..], key, i - 1);
      var j :| 0 <= j < |sto[1..]| && sto[1..][j] == Without(sto[1..], key)[i - 1] && sto[1..][j].key != key;
      assert sto[j + 1] == Without(sto, key)[i];
    }
  }

  lemma StoredAgreesKept(parse: Parse, a: Acl, op: Op)
    requires StoredAgrees(parse, a) && Agree(a) && Fresh(a, op)
    requires op.OpLimit? ==> Succeeds(parse, op.limit)
    ensures StoredAgrees(parse, Do(parse, a, op))
  {
    if op.OpLimit? {
      LimitKeepsAgreement(parse, a, op.key, op.limit);
    } else if op.OpRemove? {
      RemoveKeepsAgreement(parse, a, op.key);
    } else if op.OpCreate? {
      CreateKeepsAgreement(parse, a, op.name, op.key);
    } else {
      hide Agrees, Succeeds, Agree;
      var b := Do(parse, a, op);
      assert forall i :: 0 <= i < |b.sto| ==> b.sto[i].limit == a.sto[i].limit && b.sto[i].key == a.sto[i].key;
      assert forall k :: k in a.live ==> k in b.live && b.live[k].enforced == a.live[k].enforced;
    }
  }

  lemma RemoveKeepsAgreement(parse: Parse, a: Acl, key: string)
    requires StoredAgrees(parse, a)
    ensures StoredAgrees(parse, RemoveKey(a, key))
  {
    hide Agrees, Succeeds;
    var b := RemoveKey(a, key);
    forall i | 0 <= i < |b.sto| && b.sto[i].limit.Some?
      ensures Succeeds(parse, b.sto[i].limit) && b.sto[i].key in b.live
      ensures Agrees(parse, b.live[b.sto[i].key].enforced.limits, b.sto[i].limit.value)
    {
      WithoutPicks(a.sto, key, i);
    }
  }

  lemma CreateKeepsAgreement(parse: Parse, a: Acl, name: string, key: string)
    requires StoredAgrees(parse, a) && key !in a.live
    ensures StoredAgrees(parse, CreateKey(a, name, key))
  {
    hide Agrees, Succeeds;
    var b := CreateKey(a, name, key);
    forall i | 0 <= i < |b.sto| && b.sto[i].limit.Some?
      ensures b.sto[i] == a.sto[i] && b.sto[i].key != key
    {
    }
  }

  lemma LimitKeepsAgreement(parse: Parse, a: Acl, key: string, l: Option<Limit>)
    requires StoredAgrees(parse, a) && Succeeds(parse, l)
    ensures StoredAgrees(parse, SetLimit(parse, a, key, l))
  {
    if key in a.live {
      var b := SetLimit(parse, a, key, l);
      ApplySucceeds(parse, a.live[key].enforced, l);
      if l.Some? {
        ReapplyExact(parse, a.live[key].enforced, l.value);
      }
      hide Apply, Agrees, Succeeds;
      forall i | 0 <= i < |b.sto| && b.sto[i].limit.Some?
        ensures Succeeds(parse, b.sto[i].limit) && b.sto[i].key in b.live
        ensures Agrees(parse, b.live[b.sto[i].key].enforced.limits, b.sto[i].limit.value)
      {
        if a.sto[i].key != key {
          assert b.sto[i] == a.sto[i];
        }
      }
    }
  }

  ghost predicate LimitsSucceed(parse: Parse, ops: seq<Op>) {
    forall i :: 0 <= i < |ops| && ops[i].OpLimit? ==> Succeeds(parse, ops[i].limit)
  }

  lemma {:induction false} RunKeepsStoredAgrees(parse: Parse, a: Acl, ops: seq<Op>)
    requires StoredAgrees(parse, a) && Agree(a) && FreshRun(parse, a, ops) && LimitsSucceed(parse, ops)
    ensures StoredAgrees(parse, Run(parse, a, ops)) && Agree(Run(parse, a, ops))
    decreases |ops|
  {
    if ops != [] {
      assert LimitsSucceed(parse, ops[1..]);
      StoredAgreesKept(parse, a, ops[0]);
      OpKeepsAgreement(parse, a, ops[0]);
      RunKeepsStoredAgrees(parse, Do(parse, a, ops[0]), ops[1..]);
    }
  }

  /**
    Over every history in which no limit was refused, list edits are accepted
    and never move a byte limit.
   */
  lemma EditsKeepByteLimits(parse: Parse, a: Acl, ops: seq<Op>, key: string, edit: Edit, white: bool, args: seq<string>)
    requires StoredAgrees(parse, a) && Agree(a) && FreshRun(parse, a, ops) && LimitsSucceed(parse, ops)
    requires key in Run(parse, a, ops).live
    ensures var b := Run(parse, a, ops);
            var p := Patch(b, key, edit, white, args);
            Succeeds(parse, Some(p)) &&
            SetLimit(parse, b, key, Some(p)).live[key].enforced.limits == b.live[key].enforced.limits
  {
    var b := Run(parse, a, ops);
    RunKeepsStoredAgrees(parse, a, ops);
    var i :| 0 <= i < |b.sto| && b.sto[i].key == key;
    LimitInAt(b.sto, i);
    EditByteLimitsExact(parse, b, key, edit, white, args);
  }

  /** A file in which every stored limit parses starts such a history. */
  lemma LoadStoredAgrees(parse: Parse, adminKey: string, file: seq<FileKey>)
    requires UniqueFile(file) && forall i :: 0 <= i < |file| ==> Succeeds(parse, file[i].limit)
    ensures StoredAgrees(parse, Load(parse, adminKey, file))
  {
    hide Apply, Agrees;
    LoadLiveLookup(parse, file);
    var a := Load(parse, adminKey, file);
    forall i | 0 <= i < |a.sto| && a.sto[i].limit.Some?
      ensures Succeeds(parse, a.sto[i].limit) && a.sto[i].key in a.live
      ensures Agrees(parse, a.live[a.sto[i].key].enforced.limits, a.sto[i].limit.value)
    {
      ReapplyExact(parse, UNLIMITED, file[i].limit.value);
    }
  }

  const DIGITS: Parse := t => if t == "1" then Some(1) else if t == "2" then Some(2) else None
  const ONE_KEY := Acl("", map["k" := LiveKey(UNLIMITED, NO_USAGE)], [StoredKey("", "k", None, Absent)], 0)

  /**
    After a refused limit an edit may move a byte limit: the part of the refused
    limit that did apply is undone when the stored texts are sent again.
   */
  lemma EditAfterRefusedLimit()
    ensures var a := SetLimit(DIGITS, ONE_KEY, "k", Some(Limit("2", "", "", NO_LISTS)));
            var b := SetLimit(DIGITS, a, "k", Some(Limit("1", "x", "", NO_LISTS)));
            var c := SetLimit(DIGITS, b, "k", Some(Patch(b, "k", Add, true, ["h:1"])));
            a.live["k"].enforced.limits.total == 2 && b.live["k"].enforced.limits.total == 1 &&
            c.live["k"].enforced.limits.total == 2
  {
    var l := Limit("2", "", "", NO_LISTS);
    var a := SetLimit(DIGITS, ONE_KEY, "k", Some(l));
    var b := SetLimit(DIGITS, a, "k", Some(Limit("1", "x", "", NO_LISTS)));
    assert a.sto[0].key == "k" && a.sto[0].limit == Some(l);
    LimitInAt(a.sto, 0);
    assert b.sto == a.sto;
    assert Patch(b, "k", Add, true, ["h:1"]).bytes == "2";
  }
}
