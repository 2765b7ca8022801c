/** What each resolution answers, exactly, and how long a stored answer stays. */
module DnsCacheAnswers {
  import opened Wrappers
  import opened SlidingWindow
  import opened DnsCache
  import opened DnsCacheRuns

  // ---------- one resolution ----------

  /** No local answer, and the exchange failed, was bogus, or brought an empty server failure. */
  predicate Fails(local: Reply, x: Exchange) {
    && local.records == []
    && match x
       case Failed(_) => true
       case Bogus(_) => true
       case Message(answers, _, status, _) => answers == [] && status == ServerFailure
  }

  /** The answer is the local one if there is one, else what the exchange brought. */
  ghost predicate IsReply(a: Answer, local: Reply, x: Exchange) {
    && !a.cached && !a.stale && !a.prefetchHit
    && if local.records != [] then
         a.records == local.records && a.status == local.status && a.dnssec == local.dnssec
       else
         match x
         case Message(answers, _, status, dnssec) => a.records == answers && a.status == status && a.dnssec == dnssec
         case Failed(dnssec) => a.records == [] && a.status == ServerFailure && a.dnssec == dnssec
         case Bogus(dnssec) => a.records == [] && a.status == ServerFailure && a.dnssec == dnssec
  }

  /** The cache has what this store wrote. */
  ghost predicate Caches(cfg: Config, cache: Cache, e: Entry) {
    KeyOf(e.question) in cache && cache[KeyOf(e.question)] == RecordOf(cfg, e)
  }

  /** What a store writes besides the records. */
  lemma {:induction false} StoreWrites(cfg: Config, e: Entry)
    ensures var c := RecordOf(cfg, e);
            && c.records == e.records && c.domain == e.domain && c.source == e.source && c.dnssec == e.dnssec
            && c.cachedAt == e.now && c.originalTTL == e.ttl && c.key == e.question.name + ":" + e.question.qtype
            && c.expiresAt == FreshEnd(cfg, e) && c.staleUntil == StaleEnd(cfg, e)
  {
  }

  /**
   What a resolution answers when the cache has a store for the question: before the fresh
   end the records of the store; after it, if asked before the stale end and the upstreams
   fail, these with TTL 30; else the reply.
   */
  ghost predicate AnswersFrom(cfg: Config, e: Entry, t: Times, local: Reply, x: Exchange, a: Answer) {
    if t.load < FreshEnd(cfg, e) then ExplainedFresh(cfg, e, e.question, t.load, a)
    else if Fails(local, x) && FreshEnd(cfg, e) < t.stale < StaleEnd(cfg, e) then
      ExplainedStale(cfg, e, e.question, t.stale, a)
    else IsReply(a, local, x)
  }

  lemma {:induction false} ResolutionExactly(cfg: Config, cache: Cache, e: Entry, t: Times, local: Reply, x: Exchange)
    requires cfg.enabled && Caches(cfg, cache, e)
    ensures AnswersFrom(cfg, e, t, local, x, Resolution(cfg, cache, e.question, t, local, x).1)
  {
  }

  /** With nothing cached for the question the answer is the reply; without a cache nothing is stored either. */
  lemma {:induction false} UncachedIsReply(cfg: Config, cache: Cache, q: Question, t: Times, local: Reply, x: Exchange)
    requires !cfg.enabled || KeyOf(q) !in cache
    ensures var (left, a) := Resolution(cfg, cache, q, t, local, x);
            IsReply(a, local, x) && (!cfg.enabled ==> left == cache)
  {
  }

  /** A usable local row answers with its address and the configured TTL; otherwise the upstreams are asked. */
  lemma {:induction false} LocalRowDecides(cfg: Config, l: LocalLookup, x: Exchange)
    requires cfg.cacheTTL < 0x1_0000_0000
    ensures var reply := Fetched(cfg, l, x);
            if l.Row? && l.usable then
              reply.records == [Record(l.data, cfg.cacheTTL, l.isCname)] && reply.status == NoError
            else reply == QueryUpstream(x)
  {
  }

  // ---------- storing, and asking again ----------

  /** An answer that was not cached is stored for its question, with the least TTL of its records. */
  lemma {:induction false} ReplyIsStored(cfg: Config, cache: Cache, q: Question, t: Times, local: Reply, x: Exchange)
    returns (e: Entry)
    requires cfg.enabled
    requires var a := Resolution(cfg, cache, q, t, local, x).1; !a.cached && a.records != []
    ensures var (left, a) := Resolution(cfg, cache, q, t, local, x);
            && Caches(cfg, left, e) && e.question == q && e.domain == q.name && e.now == t.store
            && e.records == a.records && e.dnssec == a.dnssec && e.source == "upstream"
            && e.ttl == (if local.records != [] then local.ttl else MinTTL(a.records))
  {
    var reply := if local.records != [] then local else QueryUpstream(x);
    e := EntryFor(q, t.store, reply);
  }

  /** So asking again is answered from that store, for as long as it is fresh, or stale and the upstreams fail. */
  lemma {:induction false} AskedAgain(cfg: Config, cache: Cache, q: Question, t: Times, local: Reply, x: Exchange,
                                      u: Times, again: Reply, y: Exchange) returns (e: Entry)
    requires cfg.enabled
    requires var a := Resolution(cfg, cache, q, t, local, x).1; !a.cached && a.records != []
    ensures var (left, a) := Resolution(cfg, cache, q, t, local, x);
            && e.question == q && e.records == a.records && e.now == t.store
            && e.ttl == (if local.records != [] then local.ttl else MinTTL(a.records))
            && AnswersFrom(cfg, e, u, again, y, Resolution(cfg, left, q, u, again, y).1)
  {
    e := ReplyIsStored(cfg, cache, q, t, local, x);
    ResolutionExactly(cfg, Resolution(cfg, cache, q, t, local, x).0, e, u, again, y);
  }

  /** Removing a domain takes exactly the entries stored for its fully qualified name. */
  lemma {:induction false} RemovalIsExact(cache: Cache, domain: string, key: string)
    requires key in cache
    ensures var left := Without(cache, domain);
            && (key in left ==> left[key] == cache[key])
            && (key !in left <==> domain != "" && cache[key].domain == domain + ".")
            && left.Keys <= cache.Keys
  {
  }

  /** So an answer that was stored is not served again once its domain is removed. */
  lemma {:induction false} RemovedIsNotServed(cfg: Config, cache: Cache, q: Question, domain: string, t: Times,
                                              local: Reply, x: Exchange, u: Times, again: Reply, y: Exchange)
    requires cfg.enabled && domain != "" && q.name == domain + "."
    requires var a := Resolution(cfg, cache, q, t, local, x).1; !a.cached && a.records != []
    ensures var left := Without(Resolution(cfg, cache, q, t, local, x).0, domain);
            IsReply(Resolution(cfg, left, q, u, again, y).1, again, y)
  {
    var e := ReplyIsStored(cfg, cache, q, t, local, x);
    var left := Without(Resolution(cfg, cache, q, t, local, x).0, domain);
    RemovalIsExact(Resolution(cfg, cache, q, t, local, x).0, domain, KeyOf(q));
    UncachedIsReply(cfg, left, q, u, again, y);
  }

  // ---------- what becomes of an entry ----------

  /** The entry a step stores, if it stores one: what a resolution or a prefetch brought. */
  function StoredBy(cfg: Config, w: World, ev: Event): Option<Entry> {
    match ev
    case Finish(id, local, upstream, store) =>
      if !cfg.enabled || id !in w.pending || Fetched(cfg, local, upstream).records == [] then None
      else
        var q, reply := w.pending[id].question, Fetched(cfg, local, upstream);
        Some(Entry(q, q.name, reply.records, reply.ttl, reply.dnssec, "upstream", store))
    case Prefetch(q, domain, upstream, now) =>
      var reply := QueryUpstream(upstream);
      if !cfg.enabled || reply.records == [] then None
      else Some(Entry(q, domain, reply.records, reply.ttl, reply.dnssec, "prefetch", now))
    case Start(_, _, _, _) => None
    case Drop(_) => None
    case RemoveDomain(_) => None
  }

  /** The step takes the entry of a key away: drops it, removes its domain, or finds it over when asking for it. */
  predicate TakenBy(cfg: Config, w: World, ev: Event, key: string)
    requires key in w.cache
  {
    var c := w.cache[key];
    match ev
    case Start(id, q, load, staleAt) =>
      id !in w.pending && cfg.enabled && KeyOf(q) == key && c.expiresAt <= load && c.expiresAt < c.staleUntil < staleAt
    case Finish(_, _, _, _) => false
    case Prefetch(_, _, _, _) => false
    case Drop(k) => k == key
    case RemoveDomain(domain) => domain != "" && c.domain == domain + "."
  }

  /** Every entry is filed under its own key, and its stale phase is not empty. */
  ghost predicate Filed(cache: Cache) {
    forall key :: key in cache ==> cache[key].key == key != "" && cache[key].expiresAt < cache[key].staleUntil
  }

  lemma {:induction false} CachedIsFiled(cfg: Config, cache: Cache, stores: seq<Entry>)
    requires CacheIsLatest(cfg, cache, stores)
    ensures Filed(cache)
  {
    forall key | key in cache ensures cache[key].key == key != "" && cache[key].expiresAt < cache[key].staleUntil {
      LatestIsLogged(stores, key);
      assert |key| >= 1;
    }
  }

  /** What a step makes of the entry of a key: what it stores there is there; else an entry stays unless taken. */
  lemma {:induction false} StepOnKey(cfg: Config, w: World, ev: Event, key: string)
    requires Filed(w.cache)
    ensures var v := Step(cfg, w, ev);
            var stored := StoredBy(cfg, w, ev);
            if stored.Some? && KeyOf(stored.value.question) == key then Caches(cfg, v.cache, stored.value)
            else
              && (key in v.cache <==> key in w.cache && !TakenBy(cfg, w, ev, key))
              && (key in v.cache ==> v.cache[key] == w.cache[key])
  {
    match ev
    case Start(id, q, load, staleAt) =>
    case Finish(id, local, upstream, store) =>
    case Prefetch(q, domain, upstream, now) =>
    case Drop(k) =>
    case RemoveDomain(domain) =>
  }

  /** The step leaves the entry of the key alone. */
  ghost predicate LeavesAlone(cfg: Config, w: World, ev: Event, key: string) {
    && (StoredBy(cfg, w, ev).Some? ==> KeyOf(StoredBy(cfg, w, ev).value.question) != key)
    && (key in w.cache ==> !TakenBy(cfg, w, ev, key))
  }

  ghost predicate CleanRun(events: seq<Event>) {
    forall ev :: ev in events ==> CleanEvent(ev)
  }

  ghost predicate Has(cfg: Config, events: seq<Event>, key: string, c: CachedRecord) {
    key in Run(cfg, events).cache && Run(cfg, events).cache[key] == c
  }

  ghost predicate LeavesAloneAt(cfg: Config, events: seq<Event>, i: nat, key: string)
    requires i < |events|
  {
    LeavesAlone(cfg, Run(cfg, events[..i]), events[i], key)
  }

  lemma {:induction false} RunIsFiled(cfg: Config, events: seq<Event>)
    requires CleanRun(events)
    ensures Filed(Run(cfg, events).cache)
  {
    RunKeepsInv(cfg, events);
    CachedIsFiled(cfg, Run(cfg, events).cache, Run(cfg, events).stores);
  }

  lemma {:induction false} StaysThroughStep(cfg: Config, events: seq<Event>, ev: Event, key: string, c: CachedRecord)
    requires CleanRun(events) && Has(cfg, events, key, c) && LeavesAlone(cfg, Run(cfg, events), ev, key)
    ensures Has(cfg, events + [ev], key, c)
  {
    assert (events + [ev])[..|events|] == events;
    RunIsFiled(cfg, events);
    StepOnKey(cfg, Run(cfg, events), ev, key);
  }

  lemma {:induction false} EntryStays(cfg: Config, events: seq<Event>, n: nat, m: nat, key: string, c: CachedRecord)
    requires n <= m <= |events| && CleanRun(events) && Has(cfg, events[..n], key, c)
    requires forall i :: n <= i < m ==> LeavesAloneAt(cfg, events, i, key)
    ensures Has(cfg, events[..m], key, c)
  {
    if n < m {
      EntryStays(cfg, events, n, m - 1, key, c);
      assert LeavesAloneAt(cfg, events, m - 1, key);
      StaysThroughStep(cfg, events[..m - 1], events[m - 1], key, c);
      assert events[..m] == events[..m - 1] + [events[m - 1]];
    }
  }

  /**
   Over every run, however resolutions overlap: what a step stored answers its question from
   then on, until another store for it, a drop, the removal of its domain, or a look at it
   after its stale end.
   */
  lemma {:induction false} StoredIsServed(cfg: Config, events: seq<Event>, n: nat, e: Entry, t: Times, local: Reply,
                                          x: Exchange)
    requires n < |events| && CleanRun(events)
    requires StoredBy(cfg, Run(cfg, events[..n]), events[n]) == Some(e)
    requires forall i :: n < i < |events| ==> LeavesAloneAt(cfg, events, i, KeyOf(e.question))
    ensures AnswersFrom(cfg, e, t, local, x, Resolution(cfg, Run(cfg, events).cache, e.question, t, local, x).1)
  {
    assert events[..n + 1] == events[..n] + [events[n]] && events[..|events|] == events;
    EntryStays(cfg, events, n + 1, |events|, KeyOf(e.question), RecordOf(cfg, e));
    ResolutionExactly(cfg, Run(cfg, events).cache, e, t, local, x);
  }
}
