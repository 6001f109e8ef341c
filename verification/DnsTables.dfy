/**
  The two tables of the DNS cache as values: responses by question, and host names
  by address, which are filled as a side effect of caching a response. Times are in
  nanoseconds.
 */
module DnsTables {
  import opened Rules

  type Word32 = x: int | 0 <= x < 0x1_0000_0000

  /** An answer record; addresses are their texts. */
  datatype Answer = A(ip: string, ttl: Word32) | AAAA(ip: string, ttl: Word32) | Other(ttl: Word32)

  datatype Question = Question(name: string, qtype: int)
  datatype Message = Message(id: int, questions: seq<Question>, answers: seq<Answer>)

  datatype Entry = Entry(response: Message, expire: int)
  datatype Bucket = Bucket(hosts: seq<string>, expire: int)

  datatype Tables = Tables(cache: map<Question, Entry>, hosts: map<string, Bucket>)

  const NO_TABLES := Tables(map[], map[])

  /** The address a record is filed under; all other record types share the empty one. */
  function Ip(a: Answer): string {
    if a.Other? then "" else a.ip
  }

  function Host(m: Message): string
    requires m.questions != []
  {
    Trim(m.questions[0].name, c => c == '.')
  }

  /** The first response for an address creates its bucket and fixes its expiry. */
  function FileOne(hosts: map<string, Bucket>, ip: string, host: string, expire: int): map<string, Bucket> {
    if ip in hosts then hosts[ip := hosts[ip].(hosts := hosts[ip].hosts + [host])]
    else hosts[ip := Bucket([host], expire)]
  }

  function FileAll(hosts: map<string, Bucket>, answers: seq<Answer>, host: string, expire: int): map<string, Bucket> {
    if answers == [] then hosts
    else FileOne(FileAll(hosts, answers[..|answers| - 1], host, expire), Ip(answers[|answers| - 1]), host, expire)
  }

  function Set(t: Tables, key: Question, e: Entry): Tables
    requires e.response.questions != []
  {
    Tables(t.cache[key := e], FileAll(t.hosts, e.response.answers, Host(e.response), e.expire))
  }

  predicate Expired(now: int, expire: int, evict: int) {
    now > expire + evict
  }

  /** One eviction; the clock is read again for every entry. */
  function Tick(t: Tables, evict: int, cacheNow: Question -> int, hostNow: string -> int): Tables {
    Tables(map k | k in t.cache && !Expired(cacheNow(k), t.cache[k].expire, evict) :: t.cache[k],
           map ip | ip in t.hosts && !Expired(hostNow(ip), t.hosts[ip].expire, evict) :: t.hosts[ip])
  }

  // -- histories -------------------------------------------------------------

  datatype Event =
    | Stored(key: Question, entry: Entry)
    | Evicted(cacheNow: Question -> int, hostNow: string -> int)

  ghost predicate WellFormed(h: seq<Event>) {
    forall i :: 0 <= i < |h| && h[i].Stored? ==> h[i].entry.response.questions != []
  }

  ghost function Replay(h: seq<Event>, evict: int): Tables
    requires WellFormed(h)
  {
    if h == [] then NO_TABLES
    else
      var t := Replay(h[..|h| - 1], evict);
      match h[|h| - 1]
      case Stored(key, e) => Set(t, key, e)
      case Evicted(cacheNow, hostNow) => Tick(t, evict, cacheNow, hostNow)
  }

  /** Event `i` is the last one to store the question, and no eviction since has found it too old. */
  ghost predicate Current(h: seq<Event>, evict: int, key: Question, i: nat) {
    && i < |h| && h[i].Stored? && h[i].key == key
    && (forall j :: i < j < |h| && h[j].Stored? ==> h[j].key != key)
    && (forall j :: i < j < |h| && h[j].Evicted? ==> !Expired(h[j].cacheNow(key), h[i].entry.expire, evict))
  }

  ghost predicate HasCurrent(h: seq<Event>, evict: int, key: Question) {
    exists i: nat :: Current(h, evict, key, i)
  }

  /** `Current` after one more event, from `Current` before it. */
  lemma CurrentSnoc(h: seq<Event>, evict: int, key: Question, i: nat)
    requires h != []
    ensures var front, last := h[..|h| - 1], h[|h| - 1];
            Current(h, evict, key, i) <==>
              if last.Stored? && last.key == key then i == |h| - 1
              else Current(front, evict, key, i)
                   && (last.Evicted? ==> !Expired(last.cacheNow(key), h[i].entry.expire, evict))
  {
    var front, last := h[..|h| - 1], h[|h| - 1];
    if last.Stored? && last.key == key {
      assert h[|h| - 1].Stored? && h[|h| - 1].key == key;
    } else if Current(front, evict, key, i) {
      forall j | i < j < |h|
        ensures h[j] == if j < |front| then front[j] else last
      {
      }
    } else if Current(h, evict, key, i) {
      assert i < |front|;
      assert forall j :: 0 <= j < |front| ==> front[j] == h[j];
    }
  }

  ghost predicate ForwardAt(h: seq<Event>, evict: int, key: Question)
    requires WellFormed(h)
  {
    && (key in Replay(h, evict).cache <==> HasCurrent(h, evict, key))
    && forall i: nat :: Current(h, evict, key, i) ==> Answers(h, evict, key, i)
  }

  ghost predicate Answers(h: seq<Event>, evict: int, key: Question, i: nat)
    requires WellFormed(h)
  {
    i < |h| && h[i].Stored? && key in Replay(h, evict).cache && Replay(h, evict).cache[key] == h[i].entry
  }

  /**
    The forward table over every history: a question is answered exactly when its
    latest response has not been evicted, and then with that response; it is never
    dropped while the clock shows at most expiry plus the eviction delay.
   */
  lemma {:induction false} ForwardExact(h: seq<Event>, evict: int, key: Question)
    requires WellFormed(h)
    ensures ForwardAt(h, evict, key)
  {
    if h == [] {
    } else {
      ForwardExact(h[..|h| - 1], evict, key);
      ForwardStep(h, evict, key);
    }
  }

  lemma ForwardStep(h: seq<Event>, evict: int, key: Question)
    requires WellFormed(h) && h != [] && ForwardAt(h[..|h| - 1], evict, key)
    ensures ForwardAt(h, evict, key)
  {
    hide Current;
    var front, last := h[..|h| - 1], h[|h| - 1];
    forall i: nat | Current(h, evict, key, i)
      ensures Answers(h, evict, key, i)
    {
      CurrentSnoc(h, evict, key, i);
    }
    if last.Stored? && last.key == key {
      CurrentSnoc(h, evict, key, |h| - 1);
    } else if key in Replay(front, evict).cache {
      var i: nat :| Current(front, evict, key, i);
      CurrentSnoc(h, evict, key, i);
      assert Answers(front, evict, key, i);
    }
  }

  // -- the reverse table ---------------------------------------------------------

  /** The names one response adds to a bucket: one per answer filed under the address. */
  function Names(answers: seq<Answer>, ip: string, host: string): seq<string> {
    if answers == [] then []
    else Names(answers[..|answers| - 1], ip, host) + (if Ip(answers[|answers| - 1]) == ip then [host] else [])
  }

  ghost predicate Mentions(m: Message, ip: string) {
    exists i :: 0 <= i < |m.answers| && Ip(m.answers[i]) == ip
  }

  lemma {:induction false} NamesExact(answers: seq<Answer>, ip: string, host: string)
    ensures forall n :: n in Names(answers, ip, host) ==> n == host
    ensures Names(answers, ip, host) != [] <==> exists i :: 0 <= i < |answers| && Ip(answers[i]) == ip
  {
    if answers != [] {
      var front := answers[..|answers| - 1];
      NamesExact(front, ip, host);
      if Ip(answers[|answers| - 1]) != ip && exists i :: 0 <= i < |answers| && Ip(answers[i]) == ip {
        var i :| 0 <= i < |answers| && Ip(answers[i]) == ip;
        assert Ip(front[i]) == ip;
      }
    }
  }

  /** Filing one response, seen from one address. */
  lemma {:induction false} FileAllAt(hosts: map<string, Bucket>, answers: seq<Answer>, host: string, expire: int,
      ip: string)
    ensures var names := Names(answers, ip, host);
            var after := FileAll(hosts, answers, host, expire);
            if ip in hosts then ip in after && after[ip] == Bucket(hosts[ip].hosts + names, hosts[ip].expire)
            else if names == [] then ip !in after
            else ip in after && after[ip] == Bucket(names, expire)
  {
    if answers != [] {
      FileAllAt(hosts, answers[..|answers| - 1], host, expire, ip);
    } else if ip in hosts {
      assert hosts[ip].hosts + [] == hosts[ip].hosts;
    }
  }

  /** The names an event adds to a bucket. */
  ghost function Added(e: Event, ip: string): seq<string>
    requires e.Stored? ==> e.entry.response.questions != []
  {
    if e.Stored? then Names(e.entry.response.answers, ip, Host(e.entry.response)) else []
  }

  ghost function AddedSince(h: seq<Event>, c: nat, ip: string): seq<string>
    requires WellFormed(h) && c <= |h|
    decreases |h|
  {
    if c == |h| then [] else AddedSince(h[..|h| - 1], c, ip) + Added(h[|h| - 1], ip)
  }

  /** Event `c` found no bucket, created one, and no eviction since has found it too old. */
  ghost predicate Opened(h: seq<Event>, evict: int, ip: string, c: nat)
    requires WellFormed(h)
  {
    && c < |h| && h[c].Stored? && Mentions(h[c].entry.response, ip)
    && ip !in Replay(h[..c], evict).hosts
    && (forall j :: c < j < |h| && h[j].Evicted? ==> !Expired(h[j].hostNow(ip), h[c].entry.expire, evict))
  }

  ghost predicate HasOpened(h: seq<Event>, evict: int, ip: string)
    requires WellFormed(h)
  {
    exists c: nat :: Opened(h, evict, ip, c)
  }

  lemma OpenedSnoc(h: seq<Event>, evict: int, ip: string, c: nat)
    requires WellFormed(h) && h != [] && c < |h| - 1
    ensures var front, last := h[..|h| - 1], h[|h| - 1];
            Opened(h, evict, ip, c) <==>
              Opened(front, evict, ip, c) && (last.Evicted? ==> !Expired(last.hostNow(ip), h[c].entry.expire, evict))
  {
    var front, last := h[..|h| - 1], h[|h| - 1];
    assert front[..c] == h[..c];
    assert forall j :: 0 <= j < |front| ==> front[j] == h[j];
    if Opened(front, evict, ip, c) && (last.Evicted? ==> !Expired(last.hostNow(ip), h[c].entry.expire, evict)) {
      forall j | c < j < |h| && h[j].Evicted?
        ensures !Expired(h[j].hostNow(ip), h[c].entry.expire, evict)
      {
        if j < |front| {
          assert front[j] == h[j];
        }
      }
    }
  }

  ghost predicate ReverseAt(h: seq<Event>, evict: int, ip: string)
    requires WellFormed(h)
  {
    && (ip in Replay(h, evict).hosts <==> HasOpened(h, evict, ip))
    && forall c: nat :: Opened(h, evict, ip, c) ==> Fills(h, evict, ip, c)
  }

  ghost predicate Fills(h: seq<Event>, evict: int, ip: string, c: nat)
    requires WellFormed(h)
  {
    && c < |h| && h[c].Stored? && ip in Replay(h, evict).hosts
    && Replay(h, evict).hosts[ip] == Bucket(AddedSince(h, c, ip), h[c].entry.expire)
  }

  /**
    The reverse table over every history: an address has a bucket exactly when the
    response that created it has not been evicted, its expiry is that of this first
    response, whatever came later, and its names are those added since.
   */
  lemma {:induction false} ReverseExact(h: seq<Event>, evict: int, ip: string)
    requires WellFormed(h)
    ensures ReverseAt(h, evict, ip)
  {
    if h == [] {
    } else {
      ReverseExact(h[..|h| - 1], evict, ip);
      if h[|h| - 1].Stored? {
        ReverseStored(h, evict, ip);
      } else {
        ReverseEvicted(h, evict, ip);
      }
    }
  }

  /** An event that creates the bucket adds exactly the names it holds. */
  lemma OpenedLast(h: seq<Event>, evict: int, ip: string)
    requires WellFormed(h) && h != [] && Opened(h, evict, ip, |h| - 1)
    ensures Fills(h, evict, ip, |h| - 1)
  {
    var front, last := h[..|h| - 1], h[|h| - 1];
    var m := last.entry.response;
    FileAllAt(Replay(front, evict).hosts, m.answers, Host(m), last.entry.expire, ip);
    NamesExact(m.answers, ip, Host(m));
    assert AddedSince(h, |h| - 1, ip) == AddedSince(front, |h| - 1, ip) + Added(last, ip) == Added(last, ip);
  }

  lemma FillsMore(h: seq<Event>, evict: int, ip: string, c: nat)
    requires WellFormed(h) && h != [] && h[|h| - 1].Stored? && c < |h| - 1 && Fills(h[..|h| - 1], evict, ip, c)
    ensures Fills(h, evict, ip, c)
  {
    var last := h[|h| - 1];
    FileAllAt(Replay(h[..|h| - 1], evict).hosts, last.entry.response.answers, Host(last.entry.response),
        last.entry.expire, ip);
  }

  lemma BucketMeansMention(h: seq<Event>, evict: int, ip: string)
    requires WellFormed(h) && h != [] && h[|h| - 1].Stored?
    requires ip in Replay(h, evict).hosts && ip !in Replay(h[..|h| - 1], evict).hosts
    ensures Opened(h, evict, ip, |h| - 1)
  {
    var last := h[|h| - 1];
    var m := last.entry.response;
    FileAllAt(Replay(h[..|h| - 1], evict).hosts, m.answers, Host(m), last.entry.expire, ip);
    NamesExact(m.answers, ip, Host(m));
  }

  lemma ReverseStored(h: seq<Event>, evict: int, ip: string)
    requires WellFormed(h) && h != [] && h[|h| - 1].Stored? && ReverseAt(h[..|h| - 1], evict, ip)
    ensures ReverseAt(h, evict, ip)
  {
    hide Opened, Replay;
    var front := h[..|h| - 1];
    forall c: nat | Opened(h, evict, ip, c)
      ensures Fills(h, evict, ip, c)
    {
      OpenedStored(h, evict, ip, c);
      if c < |front| {
        OpenedSnoc(h, evict, ip, c);
        FillsMore(h, evict, ip, c);
      } else {
        OpenedLast(h, evict, ip);
      }
    }
    if ip in Replay(front, evict).hosts {
      var c: nat :| Opened(front, evict, ip, c);
      OpenedStored(front, evict, ip, c);
      OpenedSnoc(h, evict, ip, c);
    } else if ip in Replay(h, evict).hosts {
      BucketMeansMention(h, evict, ip);
    }
  }

  lemma ReverseEvicted(h: seq<Event>, evict: int, ip: string)
    requires WellFormed(h) && h != [] && h[|h| - 1].Evicted? && ReverseAt(h[..|h| - 1], evict, ip)
    ensures ReverseAt(h, evict, ip)
  {
    hide Opened;
    var front := h[..|h| - 1];
    forall c: nat | Opened(h, evict, ip, c)
      ensures Fills(h, evict, ip, c)
    {
      OpenedStored(h, evict, ip, c);
      OpenedSnoc(h, evict, ip, c);
    }
    if ip in Replay(front, evict).hosts {
      var c: nat :| Opened(front, evict, ip, c);
      OpenedStored(front, evict, ip, c);
      OpenedSnoc(h, evict, ip, c);
    }
  }

  lemma OpenedStored(h: seq<Event>, evict: int, ip: string, c: nat)
    requires WellFormed(h) && Opened(h, evict, ip, c)
    ensures c < |h| && h[c].Stored?
  {
  }

  /** Every name in a bucket is the trimmed question of an earlier response with that address. */
  lemma {:induction false} NamesAreSound(h: seq<Event>, c: nat, ip: string, name: string)
    requires WellFormed(h) && c <= |h| && name in AddedSince(h, c, ip)
    ensures exists j ::
              c <= j < |h| && h[j].Stored? && Mentions(h[j].entry.response, ip) && name == Host(h[j].entry.response)
    decreases |h|
  {
    var last := h[|h| - 1];
    if name in Added(last, ip) {
      NamesExact(last.entry.response.answers, ip, Host(last.entry.response));
    } else {
      NamesAreSound(h[..|h| - 1], c, ip, name);
      var j :| c <= j < |h| - 1 && h[..|h| - 1][j].Stored? && Mentions(h[..|h| - 1][j].entry.response, ip)
               && name == Host(h[..|h| - 1][j].entry.response);
      assert h[j].Stored?;
    }
  }

  /** Every response with that address since the bucket was created has its name in it. */
  lemma {:induction false} NamesAreComplete(h: seq<Event>, c: nat, ip: string, j: nat)
    requires WellFormed(h) && c <= j < |h| && h[j].Stored? && Mentions(h[j].entry.response, ip)
    ensures Host(h[j].entry.response) in AddedSince(h, c, ip)
    decreases |h|
  {
    if j == |h| - 1 {
      var m := h[j].entry.response;
      NamesExact(m.answers, ip, Host(m));
      assert Added(h[j], ip)[0] in Added(h[j], ip);
    } else {
      assert h[..|h| - 1][j] == h[j];
      NamesAreComplete(h[..|h| - 1], c, ip, j);
    }
  }

  /** A reverse lookup that succeeds returns exactly the names of the responses since its bucket was created. */
  lemma ReverseLookupMeaning(h: seq<Event>, evict: int, ip: string, name: string)
    requires WellFormed(h) && ip in Replay(h, evict).hosts
    ensures exists c: nat :: Opened(h, evict, ip, c) &&
                        (name in Replay(h, evict).hosts[ip].hosts <==>
                         exists j :: c <= j < |h| && h[j].Stored? && Mentions(h[j].entry.response, ip)
                                     && name == Host(h[j].entry.response))
  {
    ReverseExact(h, evict, ip);
    var c: nat :| Opened(h, evict, ip, c);
    if name in AddedSince(h, c, ip) {
      NamesAreSound(h, c, ip, name);
    }
    if exists j ::
        c <= j < |h| && h[j].Stored? && Mentions(h[j].entry.response, ip) && name == Host(h[j].entry.response)
    {
      var j :| c <= j < |h| && h[j].Stored? && Mentions(h[j].entry.response, ip) && name == Host(h[j].entry.response);
      NamesAreComplete(h, c, ip, j);
    }
  }

  /**
    The two tables do not evict together: the bucket of an address goes by its
    first response, so a name can be lost while the response that carries it is
    cached and not even stale.
   */
  lemma BucketDiesFirst()
    ensures var q, r := Question("a.", 1), Question("b.", 1);
            var first := Entry(Message(1, [q], [A("192.0.2.1", 1)]), 10);
            var second := Entry(Message(2, [r], [A("192.0.2.1", 100)]), 1000);
            var now := 20;
            var t := Replay([Stored(q, first), Stored(r, second), Evicted(_ => now, _ => now)], 5);
            r in t.cache && t.cache[r] == second && now <= second.expire && "192.0.2.1" !in t.hosts
  {
    var q, r := Question("a.", 1), Question("b.", 1);
    var ip := "192.0.2.1";
    var first := Entry(Message(1, [q], [A(ip, 1)]), 10);
    var second := Entry(Message(2, [r], [A(ip, 100)]), 1000);
    var h := [Stored(q, first), Stored(r, second), Evicted(_ => 20, _ => 20)];
    assert h[..2] == [Stored(q, first), Stored(r, second)];
    assert h[..2][..1] == [Stored(q, first)];
    assert h[..2][..1][..0] == [];
    var t1 := Replay([Stored(q, first)], 5);
    assert [Stored(q, first)][..0] == [];
    assert t1 == Set(Replay([], 5), q, first);
    FileAllAt(map[], first.response.answers, Host(first.response), first.expire, ip);
    assert Names(first.response.answers, ip, Host(first.response)) ==
        Names([], ip, Host(first.response)) + [Host(first.response)];
    assert ip in t1.hosts && t1.hosts[ip].expire == 10;
    var t2 := Replay(h[..2], 5);
    assert t2 == Set(t1, r, second);
    FileAllAt(t1.hosts, second.response.answers, Host(second.response), second.expire, ip);
    assert t2.hosts[ip].expire == 10;
    assert Replay(h, 5) == Tick(t2, 5, _ => 20, _ => 20);
  }

  // -- how long a name stays ------------------------------------------------------

  /** An eviction reads the clock for every entry; its readings lie within `drift` of each other. */
  ghost predicate Within(e: Event, now: int, drift: nat) {
    e.Evicted? ==>
      && (forall k: Question :: now <= e.cacheNow(k) <= now + drift)
      && (forall i: string :: now <= e.hostNow(i) <= now + drift)
  }

  ghost predicate OneReading(e: Event, drift: nat) {
    exists now :: Within(e, now, drift)
  }

  ghost predicate Steady(h: seq<Event>, drift: nat) {
    forall i :: 0 <= i < |h| ==> OneReading(h[i], drift)
  }

  /** The name of the response is found under the address. */
  ghost predicate Named(h: seq<Event>, evict: int, ip: string, name: string)
    requires WellFormed(h)
  {
    ip in Replay(h, evict).hosts && name in Replay(h, evict).hosts[ip].hosts
  }

  /** The history in which a response has just been filed. */
  function Filed(h: seq<Event>, key: Question, e: Entry): seq<Event> {
    h + [Stored(key, e)]
  }

  /** However it goes on, as long as the response is cached its name is found under the address. */
  ghost predicate NameStays(h: seq<Event>, evict: int, key: Question, e: Entry, ip: string, drift: nat)
    requires WellFormed(h) && e.response.questions != []
  {
    forall tail :: WellFormed(Filed(h, key, e) + tail) && Steady(tail, drift)
                   && Current(Filed(h, key, e) + tail, evict, key, |h|)
                   ==> Named(Filed(h, key, e) + tail, evict, ip, Host(e.response))
  }

  ghost predicate NamedUntil(h: seq<Event>, evict: int, ip: string, name: string, expire: int)
    requires WellFormed(h)
  {
    Named(h, evict, ip, name) && Replay(h, evict).hosts[ip].expire == expire
  }

  lemma FiledIsNamed(h: seq<Event>, evict: int, key: Question, e: Entry, ip: string)
    requires WellFormed(h) && e.response.questions != [] && Mentions(e.response, ip)
    ensures WellFormed(Filed(h, key, e)) && Named(Filed(h, key, e), evict, ip, Host(e.response))
  {
    var m := e.response;
    assert Filed(h, key, e)[..|h|] == h;
    FileAllAt(Replay(h, evict).hosts, m.answers, Host(m), e.expire, ip);
    NamesExact(m.answers, ip, Host(m));
    assert Names(m.answers, ip, Host(m))[0] in Names(m.answers, ip, Host(m));
  }

  lemma StoreKeepsName(h: seq<Event>, evict: int, ip: string, name: string, expire: int)
    requires WellFormed(h) && h != [] && h[|h| - 1].Stored? && NamedUntil(h[..|h| - 1], evict, ip, name, expire)
    ensures NamedUntil(h, evict, ip, name, expire)
  {
    var last := h[|h| - 1].entry;
    FileAllAt(Replay(h[..|h| - 1], evict).hosts, last.response.answers, Host(last.response), last.expire, ip);
  }

  lemma EvictionKeepsName(h: seq<Event>, evict: int, ip: string, name: string, expire: int)
    requires WellFormed(h) && h != [] && h[|h| - 1].Evicted? && NamedUntil(h[..|h| - 1], evict, ip, name, expire)
    requires h[|h| - 1].hostNow(ip) <= expire + evict
    ensures NamedUntil(h, evict, ip, name, expire)
  {
  }

  lemma SteadyFront(h: seq<Event>, drift: nat)
    requires h != [] && Steady(h, drift)
    ensures Steady(h[..|h| - 1], drift)
  {
    assert forall i :: 0 <= i < |h| - 1 ==> h[..|h| - 1][i] == h[i];
  }

  /** A cached response that expires early enough has kept its name so far. */
  lemma {:induction false} NameKept(h: seq<Event>, evict: int, key: Question, i: nat, ip: string, name: string,
      expire: int, drift: nat)
    requires WellFormed(h) && i < |h| && Steady(h[i + 1..], drift) && Current(h, evict, key, i)
    requires NamedUntil(h[..i + 1], evict, ip, name, expire) && h[i].entry.expire + drift <= expire
    ensures NamedUntil(h, evict, ip, name, expire)
    decreases |h|
  {
    hide NamedUntil, Replay;
    if |h| == i + 1 {
      assert h[..i + 1] == h;
    } else {
      var front, last := h[..|h| - 1], h[|h| - 1];
      assert front[..i + 1] == h[..i + 1] && front[i] == h[i];
      assert front[i + 1..] == h[i + 1..][..|h| - i - 2];
      SteadyFront(h[i + 1..], drift);
      CurrentSnoc(h, evict, key, i);
      NameKept(front, evict, key, i, ip, name, expire, drift);
      if last.Stored? {
        StoreKeepsName(h, evict, ip, name, expire);
      } else {
        assert h[i + 1..][|h| - i - 2] == last;
        assert OneReading(last, drift);
        var now :| Within(last, now, drift);
        EvictionKeepsName(h, evict, ip, name, expire);
      }
    }
  }

  /** The eviction that takes the bucket of a response but leaves the response. */
  lemma NameLost(h: seq<Event>, evict: int, key: Question, e: Entry, ip: string, drift: nat) returns (tail: seq<Event>)
    requires WellFormed(h) && e.response.questions != [] && Mentions(e.response, ip)
    requires WellFormed(Filed(h, key, e)) && Named(Filed(h, key, e), evict, ip, Host(e.response))
    requires e.expire + drift > Replay(Filed(h, key, e), evict).hosts[ip].expire
    ensures WellFormed(Filed(h, key, e) + tail) && Steady(tail, drift)
    ensures Current(Filed(h, key, e) + tail, evict, key, |h|)
            && !Named(Filed(h, key, e) + tail, evict, ip, Host(e.response))
  {
    var now := e.expire + evict;
    tail := [Evicted(_ => now, _ => now + drift)];
    assert Within(tail[0], now, drift);
    var all := Filed(h, key, e) + tail;
    assert all[..|all| - 1] == Filed(h, key, e);
    assert ip !in Replay(all, evict).hosts;
  }

  /**
    A response just filed keeps its name under the address for as long as it is cached,
    whatever is stored and evicted later, exactly when the bucket that it was filed in
    expires no earlier than the response, by at least as much as the clock can move
    while one eviction reads it. The bucket's expiry is that of the response that
    opened it, so a response that opened its own bucket keeps its name exactly if the
    clock stands still.
   */
  lemma NameStaysExact(h: seq<Event>, evict: int, key: Question, e: Entry, ip: string, drift: nat)
    requires WellFormed(h) && e.response.questions != [] && Mentions(e.response, ip)
    ensures WellFormed(Filed(h, key, e)) && ip in Replay(Filed(h, key, e), evict).hosts
    ensures NameStays(h, evict, key, e, ip, drift)
            <==> e.expire + drift <= Replay(Filed(h, key, e), evict).hosts[ip].expire
    ensures ip !in Replay(h, evict).hosts ==> (NameStays(h, evict, key, e, ip, drift) <==> drift == 0)
  {
    var h0 := Filed(h, key, e);
    FiledIsNamed(h, evict, key, e, ip);
    OwnBucket(h, evict, key, e, ip);
    var expire := Replay(h0, evict).hosts[ip].expire;
    hide Replay, Current, Steady, Mentions;
    if e.expire + drift <= expire {
      forall tail | WellFormed(h0 + tail) && Steady(tail, drift) && Current(h0 + tail, evict, key, |h|)
        ensures Named(h0 + tail, evict, ip, Host(e.response))
      {
        assert (h0 + tail)[..|h| + 1] == h0 && (h0 + tail)[|h| + 1..] == tail && (h0 + tail)[|h|] == Stored(key, e);
        NameKept(h0 + tail, evict, key, |h|, ip, Host(e.response), expire, drift);
      }
    } else {
      var tail := NameLost(h, evict, key, e, ip, drift);
      assert !NameStays(h, evict, key, e, ip, drift);
    }
  }

  lemma OwnBucket(h: seq<Event>, evict: int, key: Question, e: Entry, ip: string)
    requires WellFormed(h) && e.response.questions != [] && Mentions(e.response, ip) && WellFormed(Filed(h, key, e))
    requires Named(Filed(h, key, e), evict, ip, Host(e.response))
    ensures Replay(Filed(h, key, e), evict).hosts[ip].expire ==
              if ip in Replay(h, evict).hosts then Replay(h, evict).hosts[ip].expire else e.expire
  {
    var m := e.response;
    assert Filed(h, key, e)[..|h|] == h;
    FileAllAt(Replay(h, evict).hosts, m.answers, Host(m), e.expire, ip);
  }

  // -- names and addresses as they are on the wire -----------------------------------

  /** Address records are filed under their address, all others under the empty text. */
  predicate FiledUnder(a: Answer, ip: string) {
    match a
    case A(i, _) => i == ip
    case AAAA(i, _) => i == ip
    case Other(_) => ip == ""
  }

  /** A question name as it comes in a message: without a dot at either end, but for the one that ends it. */
  predicate FullyQualified(name: string, n: string) {
    name == n + "." && (n == "" || (n[0] != '.' && n[|n| - 1] != '.'))
  }

  lemma PlainName(m: Message, n: string)
    requires m.questions != [] && FullyQualified(m.questions[0].name, n)
    ensures Host(m) == n
  {
    assert n + "." == "" + n + ".";
    TrimAround("", n, ".", c => c == '.');
  }

  function Times(answers: seq<Answer>, ip: string): nat {
    if answers == [] then 0
    else Times(answers[..|answers| - 1], ip) + (if FiledUnder(answers[|answers| - 1], ip) then 1 else 0)
  }

  lemma {:induction false} NamesCounted(answers: seq<Answer>, ip: string, n: string)
    ensures Names(answers, ip, n) == seq(Times(answers, ip), i => n)
  {
    if answers != [] {
      NamesCounted(answers[..|answers| - 1], ip, n);
    }
  }

  lemma {:induction false} TimesExact(answers: seq<Answer>, ip: string)
    ensures Times(answers, ip) > 0 <==> exists i :: 0 <= i < |answers| && FiledUnder(answers[i], ip)
  {
    if answers != [] {
      var front := answers[..|answers| - 1];
      TimesExact(front, ip);
      if i :| 0 <= i < |answers| && FiledUnder(answers[i], ip) {
        if i < |front| {
          assert FiledUnder(front[i], ip);
        }
      }
      if i :| 0 <= i < |front| && FiledUnder(front[i], ip) {
        assert FiledUnder(answers[i], ip);
      }
    }
  }

  /**
    Filing the response to a question `n.`: every address gets the name n once for each
    of its records, after what it had; a bucket that was there keeps its expiry, a new
    one gets that of the response; and no other address is touched.
   */
  lemma FilesPlainName(h: seq<Event>, evict: int, key: Question, e: Entry, n: string, ip: string)
    requires WellFormed(h) && e.response.questions != [] && FullyQualified(e.response.questions[0].name, n)
    ensures WellFormed(Filed(h, key, e))
    ensures var before, after := Replay(h, evict).hosts, Replay(Filed(h, key, e), evict).hosts;
            var names := seq(Times(e.response.answers, ip), i => n);
            && (ip in before ==> ip in after && after[ip] == Bucket(before[ip].hosts + names, before[ip].expire))
            && (ip !in before && names != [] ==> ip in after && after[ip] == Bucket(names, e.expire))
            && (ip !in before && names == [] ==> ip !in after)
    ensures Times(e.response.answers, ip) > 0 <==>
              exists i :: 0 <= i < |e.response.answers| && FiledUnder(e.response.answers[i], ip)
  {
    var m := e.response;
    PlainName(m, n);
    assert Filed(h, key, e)[..|h|] == h;
    FileAllAt(Replay(h, evict).hosts, m.answers, Host(m), e.expire, ip);
    NamesCounted(m.answers, ip, n);
    TimesExact(m.answers, ip);
  }
}
