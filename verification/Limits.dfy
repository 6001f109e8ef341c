/**
  Stored limits (human readable text) and enforced limits (numbers), and how one
  is applied to the other. `Parse` stands for humanize.ParseBytes.
 */
module Limits {
  import opened Common
  import opened Quota
  import opened Rules

  type Parse = string -> Option<Word64>

  /** api.Limit; a blank text means "not given". */
  datatype Limit = Limit(bytes: string, inBytes: string, outBytes: string, lists: Lists)

  const NO_LISTS := Lists(None, None)
  const EMPTY_LIMIT := Limit("", "", "", NO_LISTS)

  /** What the server actually compares against. */
  datatype Enforced = Enforced(limits: ByteLimits, lists: Lists)

  const UNLIMITED := Enforced(NO_LIMITS, NO_LISTS)

  /**
    applyACLKeyLimit: fields are applied one after the other, so a text that does
    not parse leaves the earlier fields applied and the later ones, and the
    lists, as they were. The second component says whether all of it applied.
   */
  function Apply(parse: Parse, e: Enforced, call: Option<Limit>): (Enforced, bool) {
    if call.None? then (e, true)
    else
      var l := call.value;
      if l.bytes != "" && parse(l.bytes).None? then (e, false)
      else
        var e1 := if l.bytes == "" then e else e.(limits := e.limits.(total := parse(l.bytes).value));
        if l.inBytes != "" && parse(l.inBytes).None? then (e1, false)
        else
          var e2 := if l.inBytes == "" then e1 else e1.(limits := e1.limits.(inb := parse(l.inBytes).value));
          if l.outBytes != "" && parse(l.outBytes).None? then (e2, false)
          else
            var e3 := if l.outBytes == "" then e2 else e2.(limits := e2.limits.(out := parse(l.outBytes).value));
            (e3.(lists := l.lists), true)
  }

  /** The enforced limits after a history of calls, failing ones included. */
  function AfterCalls(parse: Parse, e: Enforced, calls: seq<Option<Limit>>): Enforced {
    if calls == [] then e
    else Apply(parse, AfterCalls(parse, e, calls[..|calls| - 1]), calls[|calls| - 1]).0
  }

  datatype Field = Total | In | Out

  function Text(l: Limit, f: Field): string {
    match f
    case Total => l.bytes
    case In => l.inBytes
    case Out => l.outBytes
  }

  function Enforcing(b: ByteLimits, f: Field): Word64 {
    match f
    case Total => b.total
    case In => b.inb
    case Out => b.out
  }

  predicate Parses(parse: Parse, t: string) {
    t == "" || parse(t).Some?
  }

  /** The call gets as far as the field: every text before it parses. */
  predicate Reaches(parse: Parse, call: Option<Limit>, f: Field) {
    call.Some?
    && (f != Total ==> Parses(parse, call.value.bytes))
    && (f == Out ==> Parses(parse, call.value.inBytes))
  }

  /** The call gives the field a value, even if it fails later on. */
  predicate Sets(parse: Parse, call: Option<Limit>, f: Field) {
    Reaches(parse, call, f) && Text(call.value, f) != "" && parse(Text(call.value, f)).Some?
  }

  predicate Succeeds(parse: Parse, call: Option<Limit>) {
    call.Some? ==> Reaches(parse, call, Out) && Parses(parse, call.value.outBytes)
  }

  /** Call `i` is the last one in the history that satisfies `p`. */
  ghost predicate Last(calls: seq<Option<Limit>>, i: nat, p: Option<Limit> -> bool) {
    i < |calls| && p(calls[i]) && forall j :: i < j < |calls| ==> !p(calls[j])
  }

  ghost predicate Never(calls: seq<Option<Limit>>, p: Option<Limit> -> bool) {
    forall j :: 0 <= j < |calls| ==> !p(calls[j])
  }

  lemma ApplyField(parse: Parse, e: Enforced, call: Option<Limit>, f: Field)
    ensures Enforcing(Apply(parse, e, call).0.limits, f) ==
              if Sets(parse, call, f) then parse(Text(call.value, f)).value else Enforcing(e.limits, f)
  {
  }

  lemma ApplyLists(parse: Parse, e: Enforced, call: Option<Limit>)
    ensures Apply(parse, e, call).0.lists == if call.Some? && Succeeds(parse, call) then call.value.lists else e.lists
  {
  }

  /**
    Over every history, an enforced byte limit is the parsed text of the last
    call that reached the field with a text: blank fields keep the old value,
    and a call that fails later on still counts for the fields before the failure.
   */
  lemma {:induction false} LastTextWins(parse: Parse, e: Enforced, calls: seq<Option<Limit>>, f: Field)
    ensures var sets := (c: Option<Limit>) => Sets(parse, c, f);
            var now := Enforcing(AfterCalls(parse, e, calls).limits, f);
            (forall i: nat :: Last(calls, i, sets) ==> now == parse(Text(calls[i].value, f)).value) &&
            (Never(calls, sets) ==> now == Enforcing(e.limits, f))
  {
    if calls != [] {
      var sets := (c: Option<Limit>) => Sets(parse, c, f);
      var front := calls[..|calls| - 1];
      var last := calls[|calls| - 1];
      LastTextWins(parse, e, front, f);
      ApplyField(parse, AfterCalls(parse, e, front), last, f);
      hide Apply, Enforcing, Sets, Text;
      forall i: nat | Last(calls, i, sets)
        ensures Enforcing(AfterCalls(parse, e, calls).limits, f) == parse(Text(calls[i].value, f)).value
      {
        if i < |front| {
          assert !sets(last);
          assert Last(front, i, sets);
        }
      }
      if Never(calls, sets) {
        assert !sets(last);
        assert Never(front, sets);
      }
    }
  }

  /** The lists are those of the last call that succeeded with a limit at all. */
  lemma {:induction false} LastListsWin(parse: Parse, e: Enforced, calls: seq<Option<Limit>>)
    ensures var sets := (c: Option<Limit>) => c.Some? && Succeeds(parse, c);
            var now := AfterCalls(parse, e, calls).lists;
            (forall i: nat :: Last(calls, i, sets) ==> now == calls[i].value.lists) &&
            (Never(calls, sets) ==> now == e.lists)
  {
    if calls != [] {
      var sets := (c: Option<Limit>) => c.Some? && Succeeds(parse, c);
      var front := calls[..|calls| - 1];
      LastListsWin(parse, e, front);
      ApplyLists(parse, AfterCalls(parse, e, front), calls[|calls| - 1]);
      hide Apply, Succeeds;
      forall i: nat | Last(calls, i, sets)
        ensures AfterCalls(parse, e, calls).lists == calls[i].value.lists
      {
        if i < |front| {
          assert !sets(calls[|calls| - 1]);
          assert Last(front, i, sets);
        }
      }
      if Never(calls, sets) {
        assert !sets(calls[|calls| - 1]);
        assert Never(front, sets);
      }
    }
  }

  /** The call reports success exactly when every text it gives parses. */
  lemma ApplySucceeds(parse: Parse, e: Enforced, call: Option<Limit>)
    ensures Apply(parse, e, call).1 <==> Succeeds(parse, call)
  {
  }

  /**
    Applying the same limit again changes no byte limit exactly when the numbers
    in force already are those of its texts.
   */
  ghost predicate Agrees(parse: Parse, b: ByteLimits, l: Limit) {
    forall f: Field :: Text(l, f) != "" ==> parse(Text(l, f)) == Some(Enforcing(b, f))
  }

  lemma ReapplyExact(parse: Parse, e: Enforced, l: Limit)
    requires Succeeds(parse, Some(l))
    ensures Apply(parse, e, Some(l)).0.limits == e.limits <==> Agrees(parse, e.limits, l)
    ensures Agrees(parse, Apply(parse, e, Some(l)).0.limits, l)
  {
    var e' := Apply(parse, e, Some(l)).0;
    if e'.limits == e.limits {
      forall f: Field | Text(l, f) != ""
        ensures parse(Text(l, f)) == Some(Enforcing(e.limits, f))
      {
      }
    }
    if Agrees(parse, e.limits, l) {
      assert l.bytes == Text(l, Total) && l.inBytes == Text(l, In) && l.outBytes == Text(l, Out);
    }
  }

  /** What enforcement the texts of a limit ask for by themselves. */
  ghost predicate Faithful(parse: Parse, e: Enforced, stored: Option<Limit>) {
    e == Apply(parse, UNLIMITED, stored).0
  }

  /**
    After a successful call the numbers in force are those of the stored texts
    exactly when every field that the call leaves blank was not limited before;
    a call without a limit must find nothing in force at all.
   */
  lemma FaithfulExact(parse: Parse, e: Enforced, call: Option<Limit>)
    requires Succeeds(parse, call)
    ensures Faithful(parse, Apply(parse, e, call).0, call) <==>
              if call.None? then e == UNLIMITED
              else forall f: Field :: Text(call.value, f) == "" ==> Enforcing(e.limits, f) == 0
  {
    if call.Some? {
      var l := call.value;
      var e' := Apply(parse, e, call).0;
      var z := Apply(parse, UNLIMITED, call).0;
      forall f: Field
        ensures Enforcing(e'.limits, f) == Enforcing(z.limits, f) <==>
                  (Text(l, f) == "" ==> Enforcing(e.limits, f) == 0)
      {
      }
      assert e'.limits == z.limits <==> forall f: Field :: Enforcing(e'.limits, f) == Enforcing(z.limits, f) by {
        if forall f: Field :: Enforcing(e'.limits, f) == Enforcing(z.limits, f) {
          assert Enforcing(e'.limits, Total) == Enforcing(z.limits, Total);
          assert Enforcing(e'.limits, In) == Enforcing(z.limits, In);
          assert Enforcing(e'.limits, Out) == Enforcing(z.limits, Out);
        }
      }
    }
  }
}
