/**
  Access rules: a rule is `addr` or `addr/network`, surrounded by optional white
  space. The server trims the rule, splits it at every slash and compares parts.
 */
module Rules {
  import opened Common

  /** unicode.IsSpace, the class of characters strings.TrimSpace removes. */
  predicate IsSpace(c: char) {
    '\t' <= c <= '\r' || c == ' ' || c == '\U{85}' || c == '\U{A0}' || c == '\U{1680}'
    || '\U{2000}' <= c <= '\U{200A}' || c == '\U{2028}' || c == '\U{2029}' || c == '\U{202F}'
    || c == '\U{205F}' || c == '\U{3000}'
  }

  /** Drop the longest prefix and suffix of characters in `cut`. */
  function TrimLeft(s: string, cut: char -> bool): string {
    if s != [] && cut(s[0]) then TrimLeft(s[1..], cut) else s
  }

  function TrimRight(s: string, cut: char -> bool): string {
    if s != [] && cut(s[|s| - 1]) then TrimRight(s[..|s| - 1], cut) else s
  }

  function Trim(s: string, cut: char -> bool): string {
    TrimRight(TrimLeft(s, cut), cut)
  }

  function TrimSpace(s: string): string {
    Trim(s, IsSpace)
  }

  /** strings.Split(s, "/"). */
  function Split(s: string): (parts: seq<string>)
    ensures |parts| >= 1
  {
    if s == [] then [""]
    else
      var rest := Split(s[1..]);
      if s[0] == '/' then [""] + rest else [[s[0]] + rest[0]] + rest[1..]
  }

  function Join(parts: seq<string>): string
    requires |parts| >= 1
  {
    if |parts| == 1 then parts[0] else parts[0] + "/" + Join(parts[1..])
  }

  predicate NoSlash(s: string) {
    '/' !in s
  }

  lemma {:induction false} SplitJoin(s: string)
    ensures Join(Split(s)) == s
    ensures forall i :: 0 <= i < |Split(s)| ==> NoSlash(Split(s)[i])
  {
    if s != [] {
      SplitJoin(s[1..]);
      var rest := Split(s[1..]);
      if s[0] == '/' {
        assert ([""] + rest)[1..] == rest;
      } else {
        var parts := [[s[0]] + rest[0]] + rest[1..];
        assert NoSlash(parts[0]);
        assert parts[1..] == rest[1..];
        assert s == [s[0]] + s[1..];
      }
    }
  }

  lemma {:induction false} SplitNoSlash(s: string)
    requires NoSlash(s)
    ensures Split(s) == [s]
  {
    if s != [] {
      SplitNoSlash(s[1..]);
      assert [s[0]] + s[1..] == s;
    }
  }

  lemma {:induction false} SplitPair(a: string, b: string)
    requires NoSlash(a) && NoSlash(b)
    ensures Split(a + "/" + b) == [a, b]
  {
    var s := a + "/" + b;
    if a == [] {
      assert s[1..] == b;
      SplitNoSlash(b);
    } else {
      assert s[1..] == a[1..] + "/" + b;
      SplitPair(a[1..], b);
      assert [a[0]] + a[1..] == a;
    }
  }

  /** One rule against one request, as the body of the search loop decides it. */
  predicate Matches(rule: string, network: string, addr: string) {
    var parts := Split(TrimSpace(rule));
    (|parts| == 1 && parts[0] == addr) || (|parts| == 2 && parts[0] == addr && parts[1] == network)
  }

  /**
    What a rule means: after trimming it is the address itself, or address, one
    slash and network; requests with a slash in the compared parts never match.
   */
  lemma MatchesExact(rule: string, network: string, addr: string)
    ensures Matches(rule, network, addr) <==>
              NoSlash(addr) &&
              (TrimSpace(rule) == addr || (NoSlash(network) && TrimSpace(rule) == addr + "/" + network))
  {
    var t := TrimSpace(rule);
    SplitJoin(t);
    if |Split(t)| == 2 {
      assert Split(t)[1..] == [Split(t)[1]];
    }
    if NoSlash(addr) {
      SplitNoSlash(addr);
      if NoSlash(network) {
        SplitPair(addr, network);
      }
    }
  }

  /** Some rule of the list matches. */
  ghost predicate SomeMatch(rules: seq<string>, network: string, addr: string) {
    exists i :: 0 <= i < |rules| && Matches(rules[i], network, addr)
  }

  /** The lists of a key: nil and empty are different values. */
  datatype Lists = Lists(white: Option<seq<string>>, black: Option<seq<string>>)

  /** An allow list decides alone; a deny list counts only when there is none. */
  ghost predicate Allows(l: Lists, network: string, addr: string) {
    if l.white.Some? then SomeMatch(l.white.value, network, addr)
    else l.black.Some? ==> !SomeMatch(l.black.value, network, addr)
  }

  /** The search loop over a list of rules. */
  method FindMatch(rules: seq<string>, network: string, addr: string) returns (found: bool)
    ensures found <==> SomeMatch(rules, network, addr)
  {
    for i := 0 to |rules|
      invariant forall j :: 0 <= j < i ==> !Matches(rules[j], network, addr)
    {
      if Matches(rules[i], network, addr) {
        return true;
      }
    }
    return false;
  }

  /** Trimming leaves a string alone exactly when its ends are not cut characters. */
  lemma TrimIdentity(s: string, cut: char -> bool)
    ensures Trim(s, cut) == s <==> s == [] || (!cut(s[0]) && !cut(s[|s| - 1]))
  {
    TrimShorter(s, cut);
  }

  lemma {:induction false} TrimShorter(s: string, cut: char -> bool)
    ensures |TrimLeft(s, cut)| <= |s| && |TrimRight(s, cut)| <= |s|
    ensures s != [] && cut(s[0]) ==> |TrimLeft(s, cut)| < |s|
    ensures s != [] && cut(s[|s| - 1]) ==> |TrimRight(s, cut)| < |s|
    ensures |Trim(s, cut)| <= |TrimLeft(s, cut)|
  {
    if s != [] {
      if cut(s[0]) {
        TrimShorter(s[1..], cut);
      }
      if cut(s[|s| - 1]) {
        TrimShorter(s[..|s| - 1], cut);
      }
    }
    TrimRightShorter(TrimLeft(s, cut), cut);
  }

  lemma {:induction false} TrimRightShorter(s: string, cut: char -> bool)
    ensures |TrimRight(s, cut)| <= |s|
  {
    if s != [] && cut(s[|s| - 1]) {
      TrimRightShorter(s[..|s| - 1], cut);
    }
  }

  predicate AllCut(s: string, cut: char -> bool) {
    forall i :: 0 <= i < |s| ==> cut(s[i])
  }

  predicate CleanEnds(s: string, cut: char -> bool) {
    s == [] || (!cut(s[0]) && !cut(s[|s| - 1]))
  }

  lemma {:induction false} TrimLeftExact(s: string, cut: char -> bool) returns (p: string)
    ensures s == p + TrimLeft(s, cut) && AllCut(p, cut)
    ensures TrimLeft(s, cut) != [] ==> !cut(TrimLeft(s, cut)[0])
  {
    p := [];
    if s != [] && cut(s[0]) {
      p := TrimLeftExact(s[1..], cut);
      p := [s[0]] + p;
    }
  }

  lemma {:induction false} TrimRightExact(s: string, cut: char -> bool) returns (q: string)
    ensures s == TrimRight(s, cut) + q && AllCut(q, cut)
    ensures TrimRight(s, cut) != [] ==> !cut(TrimRight(s, cut)[|TrimRight(s, cut)| - 1])
  {
    q := [];
    if s != [] && cut(s[|s| - 1]) {
      q := TrimRightExact(s[..|s| - 1], cut);
      q := q + [s[|s| - 1]];
    }
  }

  /** Trimming takes cut characters off both ends and leaves none there, and nothing else goes. */
  lemma TrimParts(s: string, cut: char -> bool) returns (p: string, q: string)
    ensures s == p + Trim(s, cut) + q && AllCut(p, cut) && AllCut(q, cut) && CleanEnds(Trim(s, cut), cut)
  {
    p := TrimLeftExact(s, cut);
    q := TrimRightExact(TrimLeft(s, cut), cut);
    assert s == p + (Trim(s, cut) + q);
  }

  lemma {:induction false} TrimLeftAway(p: string, t: string, cut: char -> bool)
    requires AllCut(p, cut) && (t == [] || !cut(t[0]))
    ensures TrimLeft(p + t, cut) == t
  {
    if p == [] {
      assert p + t == t;
    } else {
      TrimLeftAway(p[1..], t, cut);
      assert (p + t)[1..] == p[1..] + t;
    }
  }

  lemma {:induction false} TrimRightAway(t: string, q: string, cut: char -> bool)
    requires AllCut(q, cut) && (t == [] || !cut(t[|t| - 1]))
    ensures TrimRight(t + q, cut) == t
  {
    if q == [] {
      assert t + q == t;
    } else {
      TrimRightAway(t, q[..|q| - 1], cut);
      assert (t + q)[..|t + q| - 1] == t + q[..|q| - 1];
    }
  }

  /** What is left does not depend on how much there was to trim. */
  lemma TrimAround(p: string, t: string, q: string, cut: char -> bool)
    requires AllCut(p, cut) && AllCut(q, cut) && CleanEnds(t, cut)
    ensures Trim(p + t + q, cut) == t
  {
    if t == [] {
      assert p + t + q == (p + q) + [];
      TrimLeftAway(p + q, [], cut);
    } else {
      assert p + t + q == p + (t + q);
      TrimLeftAway(p, t + q, cut);
      TrimRightAway(t, q, cut);
    }
  }

  /** Trimming by its meaning: the text is that many cut characters around one with clean ends. */
  lemma TrimExact(s: string, t: string, cut: char -> bool)
    ensures Trim(s, cut) == t <==>
              exists p, q :: s == p + t + q && AllCut(p, cut) && AllCut(q, cut) && CleanEnds(t, cut)
  {
    if p, q :| s == p + t + q && AllCut(p, cut) && AllCut(q, cut) && CleanEnds(t, cut) {
      TrimAround(p, t, q, cut);
    }
    if Trim(s, cut) == t {
      var p, q := TrimParts(s, cut);
    }
  }

  /** The characters with the Unicode property White_Space. */
  const SPACES := ['\t', '\n', '\U{0B}', '\U{0C}', '\r', ' ', '\U{85}', '\U{A0}', '\U{1680}',
                   '\U{2000}', '\U{2001}', '\U{2002}', '\U{2003}', '\U{2004}', '\U{2005}', '\U{2006}', '\U{2007}',
                   '\U{2008}', '\U{2009}', '\U{200A}', '\U{2028}', '\U{2029}', '\U{202F}', '\U{205F}', '\U{3000}']

  lemma IsSpaceExact(c: char)
    ensures IsSpace(c) <==> c in SPACES
  {
  }

  /** The rule is the address, or address, slash and network, but for white space around it. */
  predicate Says(rule: string, network: string, addr: string) {
    && '/' !in addr
    && (TrimSpace(rule) == addr || ('/' !in network && TrimSpace(rule) == addr + "/" + network))
  }

  ghost predicate SomeSays(rules: seq<string>, network: string, addr: string) {
    exists i :: 0 <= i < |rules| && Says(rules[i], network, addr)
  }

  lemma SomeMatchExact(rules: seq<string>, network: string, addr: string)
    ensures SomeMatch(rules, network, addr) <==> SomeSays(rules, network, addr)
  {
    forall i | 0 <= i < |rules|
      ensures Matches(rules[i], network, addr) <==> Says(rules[i], network, addr)
    {
      MatchesExact(rules[i], network, addr);
    }
  }
}
