/**
  The local DNS server: its cache as an object with two tables, kept in step with
  the history of what was stored and evicted. Queries are handled one at a time.
 */
module DnsCache {
  import opened Common
  import opened DnsTables

  /** What asking upstream can come to. */
  datatype Exchange = Failed | NoAnswer | Answered(response: Message)

  datatype LookupError = Disabled | Unresolved | NoRecord
  datatype LookupResult = Hosts(hosts: seq<string>) | NotFound(error: LookupError)

  const SECOND: int := 1_000_000_000
  const MAX_DURATION: int := 0x7fff_ffff_ffff_ffff

  /** The transaction id is overwritten for every client; the rest of a cached response never is. */
  predicate SameResponse(m: Message, n: Message) {
    m.questions == n.questions && m.answers == n.answers
  }

  predicate SameEntry(e: Entry, f: Entry) {
    SameResponse(e.response, f.response) && e.expire == f.expire
  }

  ghost predicate SameCache(c: map<Question, Entry>, d: map<Question, Entry>) {
    c.Keys == d.Keys && forall k :: k in c ==> SameEntry(c[k], d[k])
  }

  /** The longest time to live among the answers, and zero without answers. */
  function MaxTtl(answers: seq<Answer>): Word32 {
    if answers == [] then 0
    else
      var before, last := MaxTtl(answers[..|answers| - 1]), answers[|answers| - 1].ttl;
      if last > before then last else before
  }

  lemma {:induction false} MaxTtlExact(answers: seq<Answer>)
    ensures forall i :: 0 <= i < |answers| ==> answers[i].ttl <= MaxTtl(answers)
    ensures answers != [] ==> exists i :: 0 <= i < |answers| && answers[i].ttl == MaxTtl(answers)
    ensures MaxTtl(answers) * SECOND <= MAX_DURATION
  {
    if answers != [] {
      var front, n := answers[..|answers| - 1], |answers| - 1;
      MaxTtlExact(front);
      if answers[n].ttl <= MaxTtl(front) {
        if front == [] {
          assert answers[n].ttl == MaxTtl(answers);
        } else {
          var i :| 0 <= i < |front| && front[i].ttl == MaxTtl(front);
          assert answers[i].ttl == MaxTtl(answers);
        }
      }
    }
  }

  /** The entry made of a response that arrives at `now`. */
  function Made(m: Message, now: int): Entry {
    Entry(m, now + MaxTtl(m.answers) * SECOND)
  }

  /** An entry expires when its longest-lived answer does, a second being 1000 million nanoseconds. */
  lemma ExpiryExact(m: Message, now: int)
    ensures var e := Made(m, now);
            && e.response == m && e.expire >= now
            && (forall i :: 0 <= i < |m.answers| ==> e.expire >= now + m.answers[i].ttl * 1_000_000_000)
            && (m.answers == [] ==> e.expire == now)
            && (m.answers != [] ==>
                  exists i :: 0 <= i < |m.answers| && e.expire == now + m.answers[i].ttl * 1_000_000_000)
  {
    MaxTtlExact(m.answers);
    if m.answers != [] {
      var i :| 0 <= i < |m.answers| && m.answers[i].ttl == MaxTtl(m.answers);
      assert Made(m, now).expire == now + m.answers[i].ttl * 1_000_000_000;
    }
  }

  /** What a query that misses is answered with: the server's own exchange first, then upstream directly. */
  function Upstream(exchange: Exchange, direct: Exchange): Option<Message> {
    match exchange
    case Failed => None
    case Answered(m) => Some(m)
    case NoAnswer => if direct.Answered? then Some(direct.response) else None
  }

  /** The answer a client gets for a question, over the whole history. */
  ghost predicate LatestAnswer(h: seq<Event>, evict: int, key: Question, id: int, reply: Message) {
    exists i: nat :: Current(h, evict, key, i) && reply.id == id && SameResponse(reply, h[i].entry.response)
  }

  /** The answers of the latest response to a question, over the whole history. */
  ghost function LatestAnswers(h: seq<Event>, evict: int, key: Question): seq<Answer>
    requires WellFormed(h)
  {
    if key in Replay(h, evict).cache then Replay(h, evict).cache[key].response.answers else []
  }

  /** The history after one half of a lookup. */
  ghost function Looked(h: seq<Event>, evict: int, q: Question, exchange: Exchange, now: int): seq<Event> {
    if HasCurrent(h, evict, q) || !exchange.Answered? then h else h + [Stored(q, Made(exchange.response, now))]
  }

  /** What that half finds: the unevicted answers if there are any, else those of the exchange. */
  ghost function Found(h: seq<Event>, evict: int, q: Question, exchange: Exchange): seq<Answer>
    requires WellFormed(h)
  {
    if HasCurrent(h, evict, q) then LatestAnswers(h, evict, q)
    else if exchange.Answered? then exchange.response.answers else []
  }

  /** What half a lookup finds, by the history and the exchange alone. */
  lemma FoundExact(h: seq<Event>, evict: int, q: Question, exchange: Exchange)
    requires WellFormed(h)
    ensures forall i: nat :: Current(h, evict, q, i) ==> Found(h, evict, q, exchange) == h[i].entry.response.answers
    ensures !HasCurrent(h, evict, q) && exchange.Answered? ==> Found(h, evict, q, exchange) == exchange.response.answers
    ensures !HasCurrent(h, evict, q) && !exchange.Answered? ==> Found(h, evict, q, exchange) == []
  {
    hide Current;
    ForwardExact(h, evict, q);
    forall i: nat | Current(h, evict, q, i)
      ensures Found(h, evict, q, exchange) == h[i].entry.response.answers
    {
      assert Answers(h, evict, q, i);
    }
  }

  /**
    After half a lookup the question is answered from the cache, unless the exchange
    failed; nothing is stored if it was before, and otherwise what the exchange brought.
   */
  lemma LookedExact(h: seq<Event>, evict: int, q: Question, exchange: Exchange, now: int)
    ensures var h' := Looked(h, evict, q, exchange, now);
            && (HasCurrent(h, evict, q) || exchange.Failed? || exchange.NoAnswer? ==> h' == h)
            && (HasCurrent(h, evict, q) || exchange.Answered? <==> HasCurrent(h', evict, q))
            && (!HasCurrent(h, evict, q) && exchange.Answered? ==>
                  && |h'| == |h| + 1 && h <= h' && Current(h', evict, q, |h|)
                  && h'[|h|].entry.response == exchange.response)
  {
    var h' := Looked(h, evict, q, exchange, now);
    if h' != h {
      assert Current(h', evict, q, |h|);
    }
  }

  /** The two halves of a lookup do not disturb each other. */
  lemma LookedApart(h: seq<Event>, evict: int, q: Question, exchange: Exchange, now: int, k: Question, other: Exchange)
    requires WellFormed(h) && k != q && (exchange.Answered? ==> exchange.response.questions != [])
    ensures var h' := Looked(h, evict, q, exchange, now);
            WellFormed(h') && Found(h', evict, k, other) == Found(h, evict, k, other)
            && (HasCurrent(h', evict, k) <==> HasCurrent(h, evict, k))
  {
    var h' := Looked(h, evict, q, exchange, now);
    ForwardExact(h, evict, k);
    ForwardExact(h', evict, k);
    if h' != h {
      assert h'[..|h'| - 1] == h;
    }
  }

  /** The addresses of one family, in order. */
  function Addresses(answers: seq<Answer>, six: bool): seq<string> {
    if answers == [] then []
    else
      var a := answers[|answers| - 1];
      Addresses(answers[..|answers| - 1], six) + (if (if six then a.AAAA? else a.A?) then [a.ip] else [])
  }

  predicate OfFamily(a: Answer, six: bool) {
    if six then a.AAAA? else a.A?
  }

  /** The addresses are those of the records of the family, all of them, in their order. */
  lemma {:induction false} AddressesExact(answers: seq<Answer>, six: bool) returns (at: seq<nat>)
    ensures |at| == |Addresses(answers, six)|
    ensures forall j :: 0 <= j < |at| ==>
              at[j] < |answers| && OfFamily(answers[at[j]], six) && Addresses(answers, six)[j] == answers[at[j]].ip
    ensures forall j, k :: 0 <= j < k < |at| ==> at[j] < at[k]
    ensures forall i: nat :: i < |answers| && OfFamily(answers[i], six) ==> i in at
  {
    at := [];
    if answers != [] {
      var n := |answers| - 1;
      at := AddressesExact(answers[..n], six);
      if OfFamily(answers[n], six) {
        at := at + [n];
      }
      forall i: nat | i < |answers| && OfFamily(answers[i], six)
        ensures i in at
      {
        if i < n {
          assert OfFamily(answers[..n][i], six);
        } else {
          assert at[|at| - 1] == n;
        }
      }
    }
  }

  method CollectAddresses(answers: seq<Answer>, six: bool) returns (ips: seq<string>)
    ensures ips == Addresses(answers, six)
  {
    ips := [];
    var i := 0;
    while i < |answers|
      invariant 0 <= i <= |answers| && ips == Addresses(answers[..i], six)
    {
      assert answers[..i + 1][..i] == answers[..i];
      if six && answers[i].AAAA? {
        ips := ips + [answers[i].ip];
      } else if !six && answers[i].A? {
        ips := ips + [answers[i].ip];
      }
      i := i + 1;
    }
    assert answers[..i] == answers;
  }

  class Cache {
    const evict: int
    var enabled: bool
    var cache: map<Question, Entry>
    var hostCache: map<string, Bucket>
    ghost var history: seq<Event>

    ghost predicate Valid()
      reads this
    {
      && WellFormed(history)
      && SameCache(cache, Replay(history, evict).cache)
      && hostCache == Replay(history, evict).hosts
    }

    constructor (evict: int)
      ensures Valid() && history == [] && this.evict == evict && !enabled
    {
      this.evict := evict;
      enabled, cache, hostCache, history := false, map[], map[], [];
    }

    method Set(key: Question, entry: Entry)
      requires Valid() && entry.response.questions != []
      modifies this
      ensures Valid() && history == old(history) + [Stored(key, entry)]
      ensures cache == old(cache)[key := entry] && enabled == old(enabled)
    {
      cache := cache[key := entry];
      Index(entry.response.answers, Host(entry.response), entry.expire);
      history := history + [Stored(key, entry)];
      StoredKeeps(old(history), evict, key, entry, old(cache));
    }

    /** Files the question's name under the address of every answer. */
    method Index(answers: seq<Answer>, host: string, expire: int)
      modifies this`hostCache
      ensures hostCache == FileAll(old(hostCache), answers, host, expire)
    {
      var i := 0;
      while i < |answers|
        invariant 0 <= i <= |answers|
        invariant hostCache == FileAll(old(hostCache), answers[..i], host, expire)
      {
        assert answers[..i + 1][..i] == answers[..i];
        FileOneInPlace(hostCache, Ip(answers[i]), host, expire);
        if Ip(answers[i]) !in hostCache {
          hostCache := hostCache[Ip(answers[i]) := Bucket([], expire)];
        }
        hostCache := hostCache[Ip(answers[i]) :=
            hostCache[Ip(answers[i])].(hosts := hostCache[Ip(answers[i])].hosts + [host])];
        i := i + 1;
      }
      assert answers[..i] == answers;
    }

    /**
      One eviction: the keys found too old are collected in whatever order the table
      is visited, then deleted one by one. What remains is what was not too old.
     */
    method Evict(cacheNow: Question -> int, hostNow: string -> int)
      requires Valid()
      modifies this
      ensures Valid() && history == old(history) + [Evicted(cacheNow, hostNow)]
      ensures cache == (map k | k in old(cache) && cacheNow(k) <= old(cache)[k].expire + evict :: old(cache)[k])
      ensures hostCache ==
              (map k | k in old(hostCache) && hostNow(k) <= old(hostCache)[k].expire + evict :: old(hostCache)[k])
      ensures enabled == old(enabled)
    {
      hide Replay, SameCache, WellFormed;
      var entries := DeleteExpired(cache, cacheNow, (e: Entry) => e.expire, evict);
      var buckets := DeleteExpired(hostCache, hostNow, (b: Bucket) => b.expire, evict);
      EvictedKeeps(history, evict, cacheNow, hostNow, cache, entries, buckets);
      cache, hostCache, history := entries, buckets, history + [Evicted(cacheNow, hostNow)];
    }

    method CacheResponse(req: Message, resp: Message, now: int) returns (entry: Entry)
      requires Valid() && req.questions != [] && resp.questions != []
      modifies this
      ensures Valid() && history == old(history) + [Stored(req.questions[0], entry)] && enabled == old(enabled)
      ensures cache == old(cache)[req.questions[0] := entry]
      ensures entry == Made(resp, now)
      ensures forall i :: 0 <= i < |resp.answers| ==>
                Ip(resp.answers[i]) in hostCache && Host(resp) in hostCache[Ip(resp.answers[i])].hosts
    {
      var maxTtl := 0;
      var i := 0;
      while i < |resp.answers|
        invariant 0 <= i <= |resp.answers| && maxTtl == MaxTtl(resp.answers[..i])
        modifies {}
      {
        assert resp.answers[..i + 1][..i] == resp.answers[..i];
        if resp.answers[i].ttl > maxTtl {
          maxTtl := resp.answers[i].ttl;
        }
        i := i + 1;
      }
      assert resp.answers[..i] == resp.answers;
      entry := Entry(resp, now + maxTtl * SECOND);
      Set(req.questions[0], entry);
      StoredIsReversible(history, evict);
    }

    /** Asks the server's own exchange first, then upstream directly if that has no answer. */
    method UpdateCache(r: Message, exchange: Exchange, direct: Exchange, now: int) returns (entry: Option<Entry>)
      requires Valid() && r.questions != []
      requires exchange.Answered? ==> exchange.response.questions != []
      requires !direct.NoAnswer? && (direct.Answered? ==> direct.response.questions != [])
      modifies this
      ensures Valid() && enabled == old(enabled)
      ensures entry == match Upstream(exchange, direct) case None => None case Some(m) => Some(Made(m, now))
      ensures exchange.Failed? ==> entry.None?
      ensures exchange.Answered? ==> entry.Some? && entry.value.response == exchange.response
      ensures exchange.NoAnswer? ==> (entry.Some? <==> direct.Answered?)
      ensures exchange.NoAnswer? && direct.Answered? ==> entry.value.response == direct.response
      ensures entry.None? ==> history == old(history) && cache == old(cache) && hostCache == old(hostCache)
      ensures entry.Some? ==>
                && history == old(history) + [Stored(r.questions[0], entry.value)]
                && cache == old(cache)[r.questions[0] := entry.value]
    {
      var resp;
      if exchange.Failed? {
        return None;
      }
      if exchange.NoAnswer? {
        if direct.Failed? {
          return None;
        }
        resp := direct.response;
      } else {
        resp := exchange.response;
      }
      var e := CacheResponse(r, resp, now);
      entry := Some(e);
    }

    /** Rewrites the id of the cached response itself, which the reply shares. */
    method Stamp(key: Question, id: int) returns (reply: Message)
      requires Valid() && key in cache
      modifies this`cache
      ensures Valid()
      ensures reply == old(cache)[key].response.(id := id)
      ensures cache == old(cache)[key := old(cache)[key].(response := reply)]
      ensures LatestAnswer(history, evict, key, id, reply)
    {
      reply := cache[key].response.(id := id);
      ForwardExact(history, evict, key);
      ghost var i: nat :| Current(history, evict, key, i);
      assert Answers(history, evict, key, i);
      assert SameEntry(cache[key], history[i].entry);
      cache := cache[key := cache[key].(response := reply)];
      assert SameResponse(reply, history[i].entry.response);
    }

    /** A hit: the stamped response, and whether it is stale. */
    method Serve(key: Question, id: int, now: int) returns (reply: Message, stale: bool)
      requires Valid() && key in cache
      modifies this`cache
      ensures Valid()
      ensures reply == old(cache)[key].response.(id := id)
      ensures cache == old(cache)[key := old(cache)[key].(response := reply)]
      ensures LatestAnswer(history, evict, key, id, reply)
      ensures forall i: nat :: Current(history, evict, key, i) ==> (stale <==> now > history[i].entry.expire)
    {
      hide Current;
      var expire := cache[key].expire;
      ForwardExact(history, evict, key);
      forall i: nat | Current(history, evict, key, i)
        ensures expire == history[i].entry.expire
      {
        assert Answers(history, evict, key, i);
      }
      reply := Stamp(key, id);
      stale := now > expire;
    }

    /** The table answers exactly the questions whose latest response has not been evicted. */
    lemma CachedExact(key: Question)
      requires Valid()
      ensures key in cache <==> HasCurrent(history, evict, key)
    {
      ForwardExact(history, evict, key);
    }

    /**
      A query is answered from the cache exactly when its latest response has not
      been evicted, with that response and the client's own id; a stale answer is
      still served but asks for a refresh. Otherwise upstream is asked, and what it
      says becomes the latest response.
     */
    method Query(r: Message, now: int, exchange: Exchange, direct: Exchange)
      returns (reply: Option<Message>, hit: bool, refresh: bool)
      requires Valid()
      requires exchange.Answered? ==> exchange.response.questions != []
      requires !direct.NoAnswer? && (direct.Answered? ==> direct.response.questions != [])
      modifies this
      ensures Valid() && enabled == old(enabled)
      ensures r.questions == [] ==>
                reply.None? && !hit && !refresh && history == old(history) && cache == old(cache)
                    && hostCache == old(hostCache)
      ensures r.questions != [] ==> (hit <==> HasCurrent(old(history), evict, r.questions[0]))
      ensures hit ==> && history == old(history) && hostCache == old(hostCache) && reply.Some?
                      && r.questions[0] in old(cache)
                      && cache == old(cache)[r.questions[0] := old(cache)[r.questions[0]].(response := reply.value)]
      ensures forall i: nat :: hit && Current(old(history), evict, r.questions[0], i) ==>
                (refresh <==> now > old(history)[i].entry.expire)
      ensures !hit ==> !refresh
      ensures r.questions != [] && !hit ==>
                match Upstream(exchange, direct)
                case None => reply.None? && history == old(history) && cache == old(cache)
                    && hostCache == old(hostCache)
                case Some(m) =>
                  && reply == Some(m.(id := r.id))
                  && history == old(history) + [Stored(r.questions[0], Made(m, now))]
                  && cache == old(cache)[r.questions[0] := Made(m, now).(response := m.(id := r.id))]
      ensures r.questions != [] && reply.Some? ==> LatestAnswer(history, evict, r.questions[0], r.id, reply.value)
    {
      hide Valid, HasCurrent, Current, LatestAnswer;
      if r.questions == [] {
        return None, false, false;
      }
      var key := r.questions[0];
      CachedExact(key);
      if key in cache {
        var m, stale := Serve(key, r.id, now);
        return Some(m), true, stale;
      }
      var entry := UpdateCache(r, exchange, direct, now);
      if entry.Some? {
        var m := Stamp(key, r.id);
        return Some(m), false, false;
      }
      return None, false, false;
    }

    /** One half of a lookup: the cached answer if there is one, else what the exchange brings. */
    method Fetch(q: Question, exchange: Exchange, now: int) returns (answers: seq<Answer>)
      requires Valid() && !exchange.NoAnswer? && (exchange.Answered? ==> exchange.response.questions != [])
      modifies this
      ensures Valid() && enabled == old(enabled)
      ensures history == Looked(old(history), evict, q, exchange, now)
      ensures answers == Found(old(history), evict, q, exchange) == LatestAnswers(history, evict, q)
    {
      ForwardExact(history, evict, q);
      if q in cache {
        assert SameEntry(cache[q], Replay(history, evict).cache[q]);
        return cache[q].response.answers;
      }
      if exchange.Failed? {
        return [];
      }
      var entry := CacheResponse(Message(0, [q], []), exchange.response, now);
      assert history[..|history| - 1] == old(history);
      return entry.response.answers;
    }

    /**
      A lookup asks for both address families at once, in an order nobody fixes; it
      returns the addresses of the latest answers to the two questions.
     */
    method LookupIP(q4: Question, q6: Question, exchange4: Exchange, exchange6: Exchange, now4: int, now6: int,
        sixFirst: bool)
      returns (result: LookupResult)
      requires Valid() && q4 != q6
      requires !exchange4.NoAnswer? && (exchange4.Answered? ==> exchange4.response.questions != [])
      requires !exchange6.NoAnswer? && (exchange6.Answered? ==> exchange6.response.questions != [])
      modifies this
      ensures Valid() && enabled == old(enabled)
      ensures !enabled ==>
                && result == NotFound(Disabled)
                && history == old(history) && cache == old(cache) && hostCache == old(hostCache)
      ensures enabled ==>
                var ips := Addresses(Found(old(history), evict, q4, exchange4), false)
                           + Addresses(Found(old(history), evict, q6, exchange6), true);
                result == if ips == [] then NotFound(NoRecord) else Hosts(ips)
      ensures enabled ==>
                history == if sixFirst
                           then Looked(Looked(old(history), evict, q6, exchange6, now6), evict, q4, exchange4, now4)
                           else Looked(Looked(old(history), evict, q4, exchange4, now4), evict, q6, exchange6, now6)
    {
      if !enabled {
        return NotFound(Disabled);
      }
      var a4, a6;
      if sixFirst {
        LookedApart(history, evict, q6, exchange6, now6, q4, exchange4);
        a6 := Fetch(q6, exchange6, now6);
        a4 := Fetch(q4, exchange4, now4);
      } else {
        LookedApart(history, evict, q4, exchange4, now4, q6, exchange6);
        a4 := Fetch(q4, exchange4, now4);
        a6 := Fetch(q6, exchange6, now6);
      }
      var ips4 := CollectAddresses(a4, false);
      var ips6 := CollectAddresses(a6, true);
      return if ips4 + ips6 == [] then NotFound(NoRecord) else Hosts(ips4 + ips6);
    }

    /** Names are given exactly for an address whose bucket was created and is not yet evicted. */
    method ReverseLookup(ip: string) returns (result: LookupResult)
      requires Valid()
      ensures !enabled ==> result == NotFound(Disabled)
      ensures enabled ==> (result.Hosts? <==> HasOpened(history, evict, ip))
      ensures enabled && result.NotFound? ==> result.error == Unresolved
      ensures result.Hosts? ==>
                exists c: nat :: Opened(history, evict, ip, c) && result.hosts == AddedSince(history, c, ip)
    {
      if !enabled {
        return NotFound(Disabled);
      }
      ReverseExact(history, evict, ip);
      if ip in hostCache {
        ghost var c: nat :| Opened(history, evict, ip, c);
        assert Fills(history, evict, ip, c);
        return Hosts(hostCache[ip].hosts);
      }
      return NotFound(Unresolved);
    }
  }

  /** Collecting the expired keys first and deleting them afterwards filters the table, in any order. */
  method DeleteExpired<K(!new, ==), V>(table: map<K, V>, now: K -> int, expire: V -> int, evict: int)
      returns (rest: map<K, V>)
    ensures rest == (map k | k in table && now(k) <= expire(table[k]) + evict :: table[k])
  {
    var expired: seq<K> := [];
    var unseen := table.Keys;
    while unseen != {}
      invariant unseen <= table.Keys
      invariant forall k :: k in expired <==> k in table && k !in unseen && now(k) > expire(table[k]) + evict
      decreases |unseen|
    {
      var k :| k in unseen;
      if now(k) > expire(table[k]) + evict {
        expired := expired + [k];
      }
      unseen := unseen - {k};
    }
    rest := table;
    var i := 0;
    while i < |expired|
      invariant 0 <= i <= |expired|
      invariant rest == (map k | k in table && k !in expired[..i] :: table[k])
    {
      rest := rest - {expired[i]};
      i := i + 1;
    }
  }

  /** Creating an empty bucket and then appending is filing. */
  lemma FileOneInPlace(hosts: map<string, Bucket>, ip: string, host: string, expire: int)
    ensures var made := if ip in hosts then hosts else hosts[ip := Bucket([], expire)];
            made[ip := made[ip].(hosts := made[ip].hosts + [host])] == FileOne(hosts, ip, host, expire)
  {
    assert [] + [host] == [host];
  }

  /** Every address of a response just stored leads back to its name. */
  lemma StoredIsReversible(h: seq<Event>, evict: int)
    requires WellFormed(h) && h != [] && h[|h| - 1].Stored?
    ensures var m, hosts := h[|h| - 1].entry.response, Replay(h, evict).hosts;
            forall i :: 0 <= i < |m.answers| ==> Ip(m.answers[i]) in hosts && Host(m) in hosts[Ip(m.answers[i])].hosts
  {
    var e := h[|h| - 1].entry;
    var m := e.response;
    forall i | 0 <= i < |m.answers|
      ensures Ip(m.answers[i]) in Replay(h, evict).hosts && Host(m) in Replay(h, evict).hosts[Ip(m.answers[i])].hosts
    {
      var ip := Ip(m.answers[i]);
      FileAllAt(Replay(h[..|h| - 1], evict).hosts, m.answers, Host(m), e.expire, ip);
      NamesExact(m.answers, ip, Host(m));
      assert Names(m.answers, ip, Host(m))[0] in Names(m.answers, ip, Host(m));
    }
  }

  lemma StoredKeeps(h: seq<Event>, evict: int, key: Question, e: Entry, c: map<Question, Entry>)
    requires WellFormed(h) && e.response.questions != [] && SameCache(c, Replay(h, evict).cache)
    ensures var h' := h + [Stored(key, e)];
            && WellFormed(h')
            && SameCache(c[key := e], Replay(h', evict).cache)
            && Replay(h', evict).hosts ==
               FileAll(Replay(h, evict).hosts, e.response.answers, Host(e.response), e.expire)
  {
    var h' := h + [Stored(key, e)];
    assert h'[..|h'| - 1] == h;
  }

  lemma EvictedKeeps(h: seq<Event>, evict: int, cacheNow: Question -> int, hostNow: string -> int,
                     c: map<Question, Entry>, d: map<Question, Entry>, buckets: map<string, Bucket>)
    requires WellFormed(h) && SameCache(c, Replay(h, evict).cache)
    requires d == (map k | k in c && cacheNow(k) <= c[k].expire + evict :: c[k])
    requires var b := Replay(h, evict).hosts; buckets == (map k | k in b && hostNow(k) <= b[k].expire + evict :: b[k])
    ensures var h' := h + [Evicted(cacheNow, hostNow)];
            && WellFormed(h')
            && SameCache(d, Replay(h', evict).cache)
            && buckets == Replay(h', evict).hosts
  {
    var h' := h + [Evicted(cacheNow, hostNow)];
    assert h'[..|h'| - 1] == h;
  }
}
