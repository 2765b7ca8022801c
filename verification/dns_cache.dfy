/** The answer cache: fresh, stale and dead entries, and the resolution that uses them. */
module DnsCache {
  import opened Wrappers
  import opened Collections
  import opened SlidingWindow

  datatype Record = Record(data: string, ttl: nat, isCname: bool)

  /** A question: a fully qualified name and the text of a query type. */
  datatype Question = Question(name: string, qtype: string)

  datatype Status = NoError | ServerFailure | OtherStatus(code: string)

  /** What a lookup brings: records, the TTL to cache them for, a status, a DNSSEC status. */
  datatype Reply = Reply(records: seq<Record>, ttl: nat, status: Status, dnssec: string)

  /** One exchange with the upstreams: an error or time-out, a refused bogus answer, or a message. */
  datatype Exchange =
    | Failed(dnssec: string)
    | Bogus(dnssec: string)
    | Message(answers: seq<Record>, authority: seq<Record>, status: Status, dnssec: string)

  datatype Config = Config(enabled: bool, cacheTTL: nat, defaultDnssec: string)

  datatype CachedRecord = CachedRecord(
    records: seq<Record>,
    expiresAt: int,
    staleUntil: int,
    cachedAt: int,
    originalTTL: nat,
    key: string,
    domain: string,
    source: string,
    dnssec: string)

  type Cache = map<string, CachedRecord>

  function KeyOf(q: Question): string {
    q.name + ":" + q.qtype
  }

  // ---------- storing ----------

  /** How many seconds an answer stays fresh; a TTL of 0 counts as not given. */
  function Lifetime(cfg: Config, ttl: nat): nat {
    if 0 < ttl < cfg.cacheTTL then ttl else cfg.cacheTTL
  }

  /** How many seconds after that it may still be served stale. */
  function StaleWindow(lifetime: nat): nat {
    if lifetime < 30 then 30 else lifetime
  }

  /** One store into the cache. */
  datatype Entry = Entry(question: Question, domain: string, records: seq<Record>, ttl: nat, dnssec: string,
                         source: string, now: int)

  function RecordOf(cfg: Config, e: Entry): CachedRecord {
    var expires := e.now + Seconds(Lifetime(cfg, e.ttl));
    CachedRecord(e.records, expires, expires + Seconds(StaleWindow(Lifetime(cfg, e.ttl))), e.now, e.ttl,
                 KeyOf(e.question), e.domain, e.source, e.dnssec)
  }

  predicate Storable(cfg: Config, e: Entry) {
    e.records != [] && cfg.enabled
  }

  function Stored(cfg: Config, cache: Cache, e: Entry): Cache {
    if Storable(cfg, e) then cache[KeyOf(e.question) := RecordOf(cfg, e)] else cache
  }

  // ---------- reading ----------

  function WithTTL(records: seq<Record>, ttl: nat): (r: seq<Record>)
    ensures |r| == |records|
  {
    seq(|records|, i requires 0 <= i < |records| => records[i].(ttl := ttl))
  }

  predicate IsFresh(c: CachedRecord, now: int) {
    now < c.expiresAt
  }

  predicate IsStale(c: CachedRecord, now: int) {
    c.expiresAt < now < c.staleUntil
  }

  function FreshRecords(c: CachedRecord, now: int): seq<Record>
    requires IsFresh(c, now)
  {
    WithTTL(c.records, WholeSeconds(c.expiresAt - now))
  }

  const STALE_TTL := 30

  /** Looking for a stale answer drops an entry whose stale window is over. */
  function AfterStaleLookup(cache: Cache, c: CachedRecord, now: int): Cache {
    if !IsStale(c, now) && c.key != "" && now > c.staleUntil then cache - {c.key} else cache
  }

  // ---------- upstream replies ----------

  function MinTTL(records: seq<Record>): (m: nat)
    requires records != []
  {
    if |records| == 1 then records[0].ttl
    else
      var rest := MinTTL(records[..|records| - 1]);
      var last := records[|records| - 1].ttl;
      if last < rest then last else rest
  }

  lemma {:induction false} MinTTLIsLeast(records: seq<Record>)
    requires records != []
    ensures forall r :: r in records ==> MinTTL(records) <= r.ttl
    ensures exists r :: r in records && r.ttl == MinTTL(records)
  {
    var n := |records| - 1;
    assert records == records[..n] + [records[n]];
    if n > 0 {
      MinTTLIsLeast(records[..n]);
      var r :| r in records[..n] && r.ttl == MinTTL(records[..n]);
      assert r in records && records[n] in records;
    } else {
      assert records[0] in records;
    }
  }

  function QueryUpstream(x: Exchange): Reply {
    match x
    case Failed(dnssec) => Reply([], 0, ServerFailure, dnssec)
    case Bogus(dnssec) => Reply([], 0, ServerFailure, dnssec)
    case Message(answers, authority, status, dnssec) =>
      Reply(answers,
            if answers != [] then MinTTL(answers) else if authority != [] then authority[0].ttl else 3600,
            status, dnssec)
  }

  /** The minimum is found by a loop over the answers. */
  method UpstreamTTL(answers: seq<Record>, authority: seq<Record>) returns (ttl: nat)
    ensures ttl == QueryUpstream(Message(answers, authority, NoError, "")).ttl
    ensures forall r :: r in answers ==> ttl <= r.ttl
    ensures answers != [] ==> exists r :: r in answers && r.ttl == ttl
    ensures answers == [] ==> ttl == if authority != [] then authority[0].ttl else 3600
  {
    ttl := 3600;
    if |answers| > 0 {
      ttl := answers[0].ttl;
      for i := 0 to |answers|
        invariant ttl == if i == 0 then answers[0].ttl else MinTTL(answers[..i])
      {
        if answers[i].ttl < ttl {
          ttl := answers[i].ttl;
        }
        assert answers[..i + 1][..i] == answers[..i];
      }
      assert answers[..|answers|] == answers;
      MinTTLIsLeast(answers);
    } else if |authority| > 0 {
      ttl := authority[0].ttl;
    }
  }

  predicate HasCname(records: seq<Record>) {
    exists i | 0 <= i < |records| :: records[i].isCname
  }

  /**
   Following CNAMEs. The request is passed on unchanged, so the name asked for next is the
   same one again. The exchanges are taken from the list in turn; a missing one is an error.
   */
  function ResolveCNAMEChain(cfg: Config, name: string, visited: set<string>, exchanges: seq<Exchange>): Reply
    decreases if name in visited then 0 else 1
  {
    if name in visited then Reply([], 0, ServerFailure, cfg.defaultDnssec)
    else
      var reply := QueryUpstream(if exchanges == [] then Failed(cfg.defaultDnssec) else exchanges[0]);
      if HasCname(reply.records) then
        var target := ResolveCNAMEChain(cfg, name, visited + {name}, if exchanges == [] then [] else exchanges[1..]);
        if target.records != [] then
          Reply(reply.records + target.records,
                Least(target.ttl, reply.ttl),
                target.status,
                if target.dnssec == "bogus" then "bogus" else reply.dnssec)
        else reply
      else reply
  }

  /** So a chain is never followed: the answer is that of the first exchange alone. */
  lemma {:induction false} ChainIsOneExchange(cfg: Config, name: string, first: Exchange, rest: seq<Exchange>)
    ensures ResolveCNAMEChain(cfg, name, {}, [first] + rest) == QueryUpstream(first)
  {
    assert ResolveCNAMEChain(cfg, name, {} + {name}, ([first] + rest)[1..]).records == [];
  }

  // ---------- resolving ----------

  /** The clock readings of one resolution: at the two cache lookups and at the store. */
  datatype Times = Times(load: int, stale: int, store: int)

  datatype Answer = Answer(records: seq<Record>, cached: bool, stale: bool, prefetchHit: bool, status: Status,
                           dnssec: string)

  function OrDefault(cfg: Config, dnssec: string): string {
    if dnssec == "" then cfg.defaultDnssec else dnssec
  }

  function FromCache(cfg: Config, c: CachedRecord, records: seq<Record>, stale: bool): Answer {
    Answer(records, true, stale, c.source == "prefetch", NoError, OrDefault(cfg, c.dnssec))
  }

  /** What a resolution would store: the local answer if there is one, else the upstream one. */
  function EntryFor(q: Question, now: int, reply: Reply): Entry {
    Entry(q, q.name, reply.records, reply.ttl, reply.dnssec, "upstream", now)
  }

  predicate FreshHit(cfg: Config, cache: Cache, q: Question, load: int) {
    cfg.enabled && KeyOf(q) in cache && IsFresh(cache[KeyOf(q)], load)
  }

  predicate StaleHit(cfg: Config, cache: Cache, q: Question, stale: int) {
    cfg.enabled && KeyOf(q) in cache && IsStale(cache[KeyOf(q)], stale)
  }

  /** What the cache has for a question: an answer, or perhaps a stale one for the case of a failure. */
  datatype LookedUp = Hit(answer: Answer) | Miss(candidate: Option<Answer>)

  /** First part of a resolution: the cache is asked. */
  function LookUp(cfg: Config, cache: Cache, q: Question, load: int, stale: int): (Cache, LookedUp) {
    var key := KeyOf(q);
    if FreshHit(cfg, cache, q, load) then
      (cache, Hit(FromCache(cfg, cache[key], FreshRecords(cache[key], load), false)))
    else
      (if cfg.enabled && key in cache then AfterStaleLookup(cache, cache[key], stale) else cache,
       Miss(if StaleHit(cfg, cache, q, stale)
            then Some(FromCache(cfg, cache[key], WithTTL(cache[key].records, STALE_TTL), true))
            else None))
  }

  function Fresh(reply: Reply): Answer {
    Answer(reply.records, false, false, false, reply.status, reply.dnssec)
  }

  /** Second part, after a miss: the local answer, else the upstream one, is stored; else the candidate may serve. */
  function Complete(cfg: Config, cache: Cache, q: Question, store: int, local: Reply, upstream: Exchange,
                    candidate: Option<Answer>): (Cache, Answer) {
    var reply := if local.records != [] then local else QueryUpstream(upstream);
    if reply.records != [] then (Stored(cfg, cache, EntryFor(q, store, reply)), Fresh(reply))
    else if candidate.Some? && reply.status == ServerFailure then (cache, candidate.value)
    else (cache, Fresh(reply))
  }

  /** A whole resolution, with no other one's store in between. */
  function Resolution(cfg: Config, cache: Cache, q: Question, t: Times, local: Reply, upstream: Exchange)
    : (Cache, Answer) {
    var (left, looked) := LookUp(cfg, cache, q, t.load, t.stale);
    match looked
    case Hit(a) => (left, a)
    case Miss(candidate) => Complete(cfg, left, q, t.store, local, upstream, candidate)
  }

  // ---------- the server's cache ----------

  class DnsServer {
    const cfg: Config
    var cache: Cache

    constructor (cfg: Config)
      ensures this.cfg == cfg && cache == map[]
    {
      this.cfg, cache := cfg, map[];
    }

    method CacheRecordWithSource(e: Entry)
      modifies this`cache
      ensures cache == Stored(cfg, old(cache), e)
    {
      if |e.records| == 0 || !cfg.enabled {
        return;
      }
      var cacheTTL := cfg.cacheTTL;
      if e.ttl > 0 {
        if e.ttl < cacheTTL {
          cacheTTL := e.ttl;
        }
      }
      var staleWindow := cacheTTL;
      if staleWindow < 30 {
        staleWindow := 30;
      }
      var expires := e.now + Seconds(cacheTTL);
      cache := cache[KeyOf(e.question) := CachedRecord(e.records, expires, expires + Seconds(staleWindow), e.now, e.ttl,
                                                       KeyOf(e.question), e.domain, e.source, e.dnssec)];
    }

    method GetCachedRecord(c: CachedRecord, now: int) returns (records: Option<seq<Record>>)
      ensures records == if IsFresh(c, now) then Some(FreshRecords(c, now)) else None
    {
      if now < c.expiresAt {
        var remaining := WholeSeconds(c.expiresAt - now);
        var updated := [];
        for i := 0 to |c.records|
          invariant updated == WithTTL(c.records, remaining)[..i]
        {
          var rr := c.records[i];
          if rr.ttl != remaining {
            rr := rr.(ttl := remaining);
          }
          updated := updated + [rr];
        }
        assert updated == WithTTL(c.records, remaining);
        return Some(updated);
      }
      records := None;
    }

    method GetStaleRecord(c: CachedRecord, now: int) returns (records: Option<seq<Record>>)
      modifies this`cache
      ensures records == if IsStale(c, now) then Some(WithTTL(c.records, STALE_TTL)) else None
      ensures cache == AfterStaleLookup(old(cache), c, now)
    {
      if now > c.expiresAt && now < c.staleUntil {
        var updated := [];
        for i := 0 to |c.records|
          invariant updated == WithTTL(c.records, STALE_TTL)[..i]
        {
          updated := updated + [c.records[i].(ttl := STALE_TTL)];
        }
        assert updated == WithTTL(c.records, STALE_TTL);
        return Some(updated);
      }
      if c.key != "" && now > c.staleUntil {
        cache := cache - {c.key};
      }
      records := None;
    }

    method RemoveCachedDomain(domain: string)
      modifies this`cache
      ensures cache == Without(old(cache), domain)
    {
      if domain == "" {
        return;
      }
      var todo := cache.Keys;
      while todo != {}
        invariant todo <= old(cache).Keys
        invariant cache == map k | k in old(cache) && (k in todo || old(cache)[k].domain != domain + ".")
                             :: old(cache)[k]
        decreases todo
      {
        var key :| key in todo;
        todo := todo - {key};
        if cache[key].domain == domain + "." {
          cache := cache - {key};
        }
      }
    }

    method AskCache(q: Question, load: int, stale: int) returns (r: LookedUp)
      modifies this`cache
      ensures (cache, r) == LookUp(cfg, old(cache), q, load, stale)
    {
      var key := KeyOf(q);
      if cfg.enabled {
        if key in cache {
          var c := cache[key];
          var hit := GetCachedRecord(c, load);
          if hit.Some? {
            return Hit(FromCache(cfg, c, hit.value, false));
          }
          var records := GetStaleRecord(c, stale);
          if records.Some? {
            return Miss(Some(FromCache(cfg, c, records.value, true)));
          }
        }
      }
      r := Miss(None);
    }

    method AskUpstream(q: Question, store: int, local: Reply, upstream: Exchange, later: seq<Exchange>,
                       candidate: Option<Answer>) returns (a: Answer)
      modifies this`cache
      ensures (cache, a) == Complete(cfg, old(cache), q, store, local, upstream, candidate)
    {
      if |local.records| > 0 {
        CacheRecordWithSource(EntryFor(q, store, local));
        return Fresh(local);
      }
      var reply := ResolveCNAMEChain(cfg, q.name, {}, [upstream] + later);
      ChainIsOneExchange(cfg, q.name, upstream, later);
      if |reply.records| > 0 {
        CacheRecordWithSource(EntryFor(q, store, reply));
        return Fresh(reply);
      }
      if candidate.Some? && reply.status == ServerFailure {
        return candidate.value;
      }
      a := Fresh(reply);
    }

    method Resolve(q: Question, t: Times, local: Reply, upstream: Exchange, later: seq<Exchange>) returns (a: Answer)
      modifies this`cache
      ensures (cache, a) == Resolution(cfg, old(cache), q, t, local, upstream)
    {
      var looked := AskCache(q, t.load, t.stale);
      if looked.Hit? {
        return looked.answer;
      }
      a := AskUpstream(q, t.store, local, upstream, later, looked.candidate);
    }
  }

  /** The cache without the entries of a domain. */
  function Without(cache: Cache, domain: string): Cache {
    if domain == "" then cache else map k | k in cache && cache[k].domain != domain + "." :: cache[k]
  }
}
