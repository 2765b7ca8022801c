/** Whole runs of the answer cache: every cached answer is explained by the latest store. */
module DnsCacheRuns {
  import opened Wrappers
  import opened SlidingWindow
  import opened DnsCache

  /** Looking a name up among the local resolutions; a row may hold no usable address. */
  datatype LocalLookup = DatabaseError | NoRow | Row(data: string, isCname: bool, usable: bool)

  function ResolveLocally(cfg: Config, l: LocalLookup): Reply {
    match l
    case DatabaseError => Reply([], 0, ServerFailure, cfg.defaultDnssec)
    case NoRow => Reply([], 0, OtherStatus("NXDOMAIN"), cfg.defaultDnssec)
    case Row(data, isCname, usable) =>
      var ttl := cfg.cacheTTL % 0x1_0000_0000;
      if usable then Reply([Record(data, ttl, isCname)], ttl, NoError, cfg.defaultDnssec)
      else Reply([], ttl, OtherStatus("NXDOMAIN"), cfg.defaultDnssec)
  }

  /**
   Resolutions overlap: one starts by asking the cache and ends with what it then found out,
   and anything may come between. Ids tell the resolutions under way apart. Dropping any entry
   stands for the sweeps of the prefetch loop.
   */
  datatype Event =
    | Start(id: nat, question: Question, load: int, staleAt: int)
    | Finish(id: nat, local: LocalLookup, upstream: Exchange, store: int)
    | Prefetch(question: Question, domain: string, upstream: Exchange, now: int)
    | Drop(key: string)
    | RemoveDomain(domain: string)

  /** A resolution under way: what the cache had for it, when it was asked, and how many stores there were then. */
  datatype Pending = Pending(question: Question, candidate: Option<Answer>, asked: int, stores: nat)

  /**
   An answer given: for what, when the cache was asked, the stores there were then, the stale
   answer the cache had in reserve, and the reply waited for.
   */
  datatype Served = Served(question: Question, answer: Answer, asked: int, stores: nat, candidate: Option<Answer>,
                           reply: Option<Reply>)

  /** The cache, the resolutions under way, and the logs of the stores and of the answers. */
  datatype World = World(cache: Cache, pending: map<nat, Pending>, stores: seq<Entry>, served: seq<Served>)

  function Logged(cfg: Config, stores: seq<Entry>, e: Entry): seq<Entry> {
    if Storable(cfg, e) then stores + [e] else stores
  }

  function PrefetchEntry(q: Question, domain: string, upstream: Exchange, now: int): Entry {
    var reply := QueryUpstream(upstream);
    Entry(q, domain, reply.records, reply.ttl, reply.dnssec, "prefetch", now)
  }

  /** The reply a resolution waits for. */
  function Fetched(cfg: Config, local: LocalLookup, upstream: Exchange): Reply {
    if ResolveLocally(cfg, local).records != [] then ResolveLocally(cfg, local) else QueryUpstream(upstream)
  }

  function StartStep(cfg: Config, w: World, id: nat, q: Question, load: int, staleAt: int): World {
    var (cache, looked) := LookUp(cfg, w.cache, q, load, staleAt);
    match looked
    case Hit(a) => w.(cache := cache, served := w.served + [Served(q, a, load, |w.stores|, None, None)])
    case Miss(candidate) => w.(cache := cache, pending := w.pending[id := Pending(q, candidate, staleAt, |w.stores|)])
  }

  function FinishStep(cfg: Config, w: World, id: nat, local: LocalLookup, upstream: Exchange, store: int): World
    requires id in w.pending
  {
    var p := w.pending[id];
    var reply := Fetched(cfg, local, upstream);
    var (cache, a) := Complete(cfg, w.cache, p.question, store, ResolveLocally(cfg, local), upstream, p.candidate);
    World(cache, w.pending - {id}, Logged(cfg, w.stores, EntryFor(p.question, store, reply)),
          w.served + [Served(p.question, a, p.asked, p.stores, p.candidate, Some(reply))])
  }

  function Step(cfg: Config, w: World, e: Event): World {
    match e
    case Start(id, q, load, staleAt) => if id in w.pending then w else StartStep(cfg, w, id, q, load, staleAt)
    case Finish(id, local, upstream, store) =>
      if id in w.pending then FinishStep(cfg, w, id, local, upstream, store) else w
    case Prefetch(q, domain, upstream, now) =>
      var entry := PrefetchEntry(q, domain, upstream, now);
      w.(cache := Stored(cfg, w.cache, entry), stores := Logged(cfg, w.stores, entry))
    case Drop(key) => w.(cache := w.cache - {key})
    case RemoveDomain(domain) => w.(cache := Without(w.cache, domain))
  }

  function Run(cfg: Config, events: seq<Event>): World {
    if events == [] then World(map[], map[], [], [])
    else Step(cfg, Run(cfg, events[..|events| - 1]), events[|events| - 1])
  }

  /** A resolution that starts and finishes with nothing in between is the whole one. */
  lemma {:induction false} UndisturbedIsResolution(cfg: Config, w: World, id: nat, q: Question, t: Times,
                                                   local: LocalLookup, upstream: Exchange)
    requires id !in w.pending
    ensures var (cache, a) := Resolution(cfg, w.cache, q, t, ResolveLocally(cfg, local), upstream);
            var v := Step(cfg, Step(cfg, w, Start(id, q, t.load, t.stale)), Finish(id, local, upstream, t.store));
            && v.cache == cache && v.pending == w.pending
            && |v.served| == |w.served| + 1 && v.served[|w.served|].answer == a
  {
    var started := Step(cfg, w, Start(id, q, t.load, t.stale));
    if id in started.pending {
      assert started.pending - {id} == w.pending;
    }
  }

  /** The latest store under a key. */
  function Latest(stores: seq<Entry>, key: string): Option<Entry> {
    if stores == [] then None
    else
      var n := |stores| - 1;
      if KeyOf(stores[n].question) == key then Some(stores[n]) else Latest(stores[..n], key)
  }

  /** No query type text has a colon in it. */
  predicate CleanType(q: Question) {
    ':' !in q.qtype
  }

  predicate CleanEvent(e: Event) {
    match e
    case Start(_, q, _, _) => CleanType(q)
    case Finish(_, _, _, _) => true
    case Prefetch(q, _, _, _) => CleanType(q)
    case Drop(_) => true
    case RemoveDomain(_) => true
  }

  /** Questions with the same key are the same question. */
  lemma {:induction false} KeysAreInjective(p: Question, q: Question)
    requires CleanType(p) && CleanType(q) && KeyOf(p) == KeyOf(q)
    ensures p == q
  {
    var key := KeyOf(p);
    assert key[|p.name|] == ':' && key[|q.name|] == ':';
    assert key[..|p.name|] == p.name && key[..|q.name|] == q.name;
    assert key[|p.name| + 1..] == p.qtype && key[|q.name| + 1..] == q.qtype;
  }

  ghost predicate LogIsSound(stores: seq<Entry>) {
    forall i :: 0 <= i < |stores| ==>
      && stores[i].records != [] && CleanType(stores[i].question)
      && (forall r :: r in stores[i].records ==> stores[i].ttl <= r.ttl)
  }

  /** Each cached record is what the latest store under its key wrote. */
  ghost predicate CacheIsLatest(cfg: Config, cache: Cache, stores: seq<Entry>) {
    && LogIsSound(stores)
    && (forall k :: k in cache ==> Latest(stores, k).Some? && cache[k] == RecordOf(cfg, Latest(stores, k).value))
  }

  lemma {:induction false} LatestIsLogged(stores: seq<Entry>, key: string)
    ensures Latest(stores, key).Some? ==>
              Latest(stores, key).value in stores && KeyOf(Latest(stores, key).value.question) == key
  {
    if stores != [] {
      LatestIsLogged(stores[..|stores| - 1], key);
    }
  }

  lemma {:induction false} ReplyTTLIsLeast(x: Exchange)
    ensures forall r :: r in QueryUpstream(x).records ==> QueryUpstream(x).ttl <= r.ttl
  {
    if x.Message? && x.answers != [] {
      MinTTLIsLeast(x.answers);
    }
  }

  /** The end of the fresh phase of a store, and of the stale phase after it. */
  function FreshEnd(cfg: Config, e: Entry): int {
    e.now + Seconds(Lifetime(cfg, e.ttl))
  }

  function StaleEnd(cfg: Config, e: Entry): int {
    FreshEnd(cfg, e) + Seconds(if Lifetime(cfg, e.ttl) < 30 then 30 else Lifetime(cfg, e.ttl))
  }

  /** The records of a store with this TTL. */
  ghost predicate SameRecords(records: seq<Record>, e: Entry, ttl: nat) {
    && |records| == |e.records|
    && forall i :: 0 <= i < |records| ==> records[i] == e.records[i].(ttl := ttl)
  }

  /** What is told with an answer from a store. */
  ghost predicate TellsOf(cfg: Config, e: Entry, a: Answer) {
    && a.cached && a.status == NoError
    && (a.prefetchHit <==> e.source == "prefetch")
    && a.dnssec == if e.dnssec != "" then e.dnssec else cfg.defaultDnssec
  }

  /** Served before the fresh end, with the time that was left, rounded down. */
  ghost predicate ExplainedFresh(cfg: Config, e: Entry, q: Question, now: int, a: Answer) {
    && e.question == q && now < FreshEnd(cfg, e)
    && TellsOf(cfg, e, a) && !a.stale
    && SameRecords(a.records, e, WholeSeconds(FreshEnd(cfg, e) - now))
  }

  /** From the stale phase, with TTL 30. */
  ghost predicate ExplainedStale(cfg: Config, e: Entry, q: Question, now: int, a: Answer) {
    && e.question == q && FreshEnd(cfg, e) < now < StaleEnd(cfg, e)
    && TellsOf(cfg, e, a) && a.stale
    && SameRecords(a.records, e, 30)
  }

  /** The store that was the latest for a question when there were n. */
  ghost predicate LatestWas(stores: seq<Entry>, n: nat, q: Question, e: Entry) {
    n <= |stores| && Latest(stores[..n], KeyOf(q)) == Some(e)
  }

  /** The candidate of a resolution under way comes from the store that was the latest when the cache was asked. */
  ghost predicate CandidateIsExplained(cfg: Config, stores: seq<Entry>, p: Pending) {
    && p.stores <= |stores| && CleanType(p.question)
    && (p.candidate.Some? ==>
          exists e :: LatestWas(stores, p.stores, p.question, e)
                      && ExplainedStale(cfg, e, p.question, p.asked, p.candidate.value))
  }

  /** A server failure without records: the case a stale answer is kept for. */
  predicate IsServerFailure(reply: Reply) {
    reply.records == [] && reply.status == ServerFailure
  }

  /**
   An answer from the cache comes from the store that was the latest for the question when
   the cache was asked, fresh then, or stale then and the reply was a server failure; any
   other answer is the reply, and a server failure is passed on only with nothing in reserve.
   */
  ghost predicate AnswerIsExplained(cfg: Config, stores: seq<Entry>, v: Served) {
    var a := v.answer;
    if !a.cached then
      && v.reply.Some? && !a.stale && !a.prefetchHit
      && a.records == v.reply.value.records && a.status == v.reply.value.status && a.dnssec == v.reply.value.dnssec
      && (IsServerFailure(v.reply.value) ==> v.candidate == None)
    else if a.stale then
      && v.reply.Some? && IsServerFailure(v.reply.value) && v.candidate == Some(a)
      && exists e :: LatestWas(stores, v.stores, v.question, e) && ExplainedStale(cfg, e, v.question, v.asked, a)
    else
      exists e :: LatestWas(stores, v.stores, v.question, e) && ExplainedFresh(cfg, e, v.question, v.asked, a)
  }

  /** What every step keeps. */
  ghost predicate Inv(cfg: Config, w: World) {
    && CacheIsLatest(cfg, w.cache, w.stores)
    && (forall id :: id in w.pending ==> CandidateIsExplained(cfg, w.stores, w.pending[id]))
    && (forall i :: 0 <= i < |w.served| ==> AnswerIsExplained(cfg, w.stores, w.served[i]))
  }

  /** Storing an entry in a cache with possibly fewer entries keeps it so. */
  lemma {:induction false} StoreKeepsLatest(cfg: Config, stores: seq<Entry>, full: Cache, cache: Cache, e: Entry)
    requires CacheIsLatest(cfg, full, stores) && CleanType(e.question)
    requires forall r :: r in e.records ==> e.ttl <= r.ttl
    requires forall k :: k in cache ==> k in full && cache[k] == full[k]
    ensures CacheIsLatest(cfg, Stored(cfg, cache, e), Logged(cfg, stores, e))
  {
    forall k ensures Latest(stores + [e], k) == if KeyOf(e.question) == k then Some(e) else Latest(stores, k) {
    }
  }

  lemma {:induction false} LatestWasStays(stores: seq<Entry>, more: seq<Entry>, n: nat, q: Question, e: Entry)
    requires LatestWas(stores, n, q, e) && stores <= more
    ensures LatestWas(more, n, q, e)
  {
    assert more[..n] == stores[..n];
  }

  /** Later stores change nothing about what came before. */
  lemma {:induction false} ExplanationsStay(cfg: Config, w: World, more: seq<Entry>)
    requires Inv(cfg, w) && w.stores <= more
    ensures forall id :: id in w.pending ==> CandidateIsExplained(cfg, more, w.pending[id])
    ensures forall i :: 0 <= i < |w.served| ==> AnswerIsExplained(cfg, more, w.served[i])
  {
    forall id | id in w.pending ensures CandidateIsExplained(cfg, more, w.pending[id]) {
      CandidateStays(cfg, w.stores, more, w.pending[id]);
    }
    forall i | 0 <= i < |w.served| ensures AnswerIsExplained(cfg, more, w.served[i]) {
      AnswerStays(cfg, w.stores, more, w.served[i]);
    }
  }

  lemma {:induction false} CandidateStays(cfg: Config, stores: seq<Entry>, more: seq<Entry>, p: Pending)
    requires CandidateIsExplained(cfg, stores, p) && stores <= more
    ensures CandidateIsExplained(cfg, more, p)
  {
    if p.candidate.Some? {
      var e :| LatestWas(stores, p.stores, p.question, e)
               && ExplainedStale(cfg, e, p.question, p.asked, p.candidate.value);
      LatestWasStays(stores, more, p.stores, p.question, e);
    }
  }

  lemma {:induction false} AnswerStays(cfg: Config, stores: seq<Entry>, more: seq<Entry>, v: Served)
    requires AnswerIsExplained(cfg, stores, v) && stores <= more
    ensures AnswerIsExplained(cfg, more, v)
  {
    if v.answer.cached && v.answer.stale {
      var e :| LatestWas(stores, v.stores, v.question, e) && ExplainedStale(cfg, e, v.question, v.asked, v.answer);
      LatestWasStays(stores, more, v.stores, v.question, e);
    } else if v.answer.cached {
      var e :| LatestWas(stores, v.stores, v.question, e) && ExplainedFresh(cfg, e, v.question, v.asked, v.answer);
      LatestWasStays(stores, more, v.stores, v.question, e);
    }
  }

  /** What the cache has for a question comes from the latest store for it. */
  lemma {:induction false} CachedIsLatest(cfg: Config, cache: Cache, stores: seq<Entry>, q: Question) returns (e: Entry)
    requires CacheIsLatest(cfg, cache, stores) && CleanType(q) && KeyOf(q) in cache
    ensures LatestWas(stores, |stores|, q, e) && e.question == q && cache[KeyOf(q)] == RecordOf(cfg, e)
  {
    e := Latest(stores, KeyOf(q)).value;
    LatestIsLogged(stores, KeyOf(q));
    KeysAreInjective(e.question, q);
    assert stores[..|stores|] == stores;
  }

  lemma {:induction false} LookUpIsExplained(cfg: Config, cache: Cache, stores: seq<Entry>, q: Question, load: int,
                                             staleAt: int)
    requires CacheIsLatest(cfg, cache, stores) && CleanType(q)
    ensures match LookUp(cfg, cache, q, load, staleAt).1
            case Hit(a) => AnswerIsExplained(cfg, stores, Served(q, a, load, |stores|, None, None))
            case Miss(candidate) => CandidateIsExplained(cfg, stores, Pending(q, candidate, staleAt, |stores|))
  {
    if KeyOf(q) in cache {
      var e := CachedIsLatest(cfg, cache, stores, q);
    }
  }

  lemma {:induction false} StartKeepsInv(cfg: Config, w: World, id: nat, q: Question, load: int, staleAt: int)
    requires Inv(cfg, w) && CleanType(q)
    ensures Inv(cfg, StartStep(cfg, w, id, q, load, staleAt))
  {
    LookUpIsExplained(cfg, w.cache, w.stores, q, load, staleAt);
  }

  /** What is served in the end is the reply, or the candidate because of the reply. */
  lemma {:induction false} FinishIsExplained(cfg: Config, stores: seq<Entry>, cache: Cache, p: Pending,
                                             local: LocalLookup, upstream: Exchange, store: int)
    requires CandidateIsExplained(cfg, stores, p)
    ensures var a := Complete(cfg, cache, p.question, store, ResolveLocally(cfg, local), upstream, p.candidate).1;
            var reply := Fetched(cfg, local, upstream);
            AnswerIsExplained(cfg, stores, Served(p.question, a, p.asked, p.stores, p.candidate, Some(reply)))
  {
  }

  lemma {:induction false} FinishKeepsInv(cfg: Config, w: World, id: nat, local: LocalLookup, upstream: Exchange,
                                          store: int)
    requires Inv(cfg, w) && id in w.pending
    ensures Inv(cfg, FinishStep(cfg, w, id, local, upstream, store))
  {
    var p := w.pending[id];
    var entry := EntryFor(p.question, store, Fetched(cfg, local, upstream));
    var more := Logged(cfg, w.stores, entry);
    ReplyTTLIsLeast(upstream);
    StoreKeepsLatest(cfg, w.stores, w.cache, w.cache, entry);
    ExplanationsStay(cfg, w, more);
    FinishIsExplained(cfg, more, w.cache, p, local, upstream, store);
  }

  lemma {:induction false} PrefetchKeepsInv(cfg: Config, w: World, q: Question, domain: string, upstream: Exchange,
                                            now: int)
    requires Inv(cfg, w) && CleanType(q)
    ensures Inv(cfg, Step(cfg, w, Prefetch(q, domain, upstream, now)))
  {
    var entry := PrefetchEntry(q, domain, upstream, now);
    ReplyTTLIsLeast(upstream);
    StoreKeepsLatest(cfg, w.stores, w.cache, w.cache, entry);
    ExplanationsStay(cfg, w, Logged(cfg, w.stores, entry));
  }

  lemma {:induction false} StepKeepsInv(cfg: Config, w: World, e: Event)
    requires Inv(cfg, w) && CleanEvent(e)
    ensures Inv(cfg, Step(cfg, w, e))
  {
    match e
    case Start(id, q, load, staleAt) => StartKeepsInv(cfg, w, id, q, load, staleAt);
    case Finish(id, local, upstream, store) =>
      if id in w.pending { FinishKeepsInv(cfg, w, id, local, upstream, store); }
    case Prefetch(q, domain, upstream, now) => PrefetchKeepsInv(cfg, w, q, domain, upstream, now);
    case Drop(key) =>
    case RemoveDomain(domain) =>
  }

  lemma {:induction false} RunKeepsInv(cfg: Config, events: seq<Event>)
    requires forall e :: e in events ==> CleanEvent(e)
    ensures Inv(cfg, Run(cfg, events))
  {
    if events != [] {
      var n := |events| - 1;
      assert events[n] in events && forall e :: e in events[..n] ==> e in events;
      RunKeepsInv(cfg, events[..n]);
      StepKeepsInv(cfg, Run(cfg, events[..n]), events[n]);
    }
  }

  /**
   Every answer of every run, however resolutions overlap: one from the cache is that of the
   store that was the latest for the question when the cache was asked, fresh or stale as
   said above; any other is the reply that was waited for.
   */
  lemma {:induction false} AnswersAreExplained(cfg: Config, events: seq<Event>, i: nat)
    requires forall e :: e in events ==> CleanEvent(e)
    requires i < |Run(cfg, events).served|
    ensures var w := Run(cfg, events); AnswerIsExplained(cfg, w.stores, w.served[i])
  {
    RunKeepsInv(cfg, events);
  }

  /**
   When the cache answers, exactly, in terms of the latest store for the question: when it is
   still there and the cache is asked before its fresh end; and what is kept for the case of a
   failure, when it is asked after that and before the stale end.
   */
  lemma {:induction false} CachedExactlyWhen(cfg: Config, cache: Cache, stores: seq<Entry>, q: Question, load: int,
                                             staleAt: int) returns (e: Entry)
    requires CacheIsLatest(cfg, cache, stores) && CleanType(q)
    requires cfg.enabled && KeyOf(q) in cache
    ensures LatestWas(stores, |stores|, q, e) && e.question == q
    ensures var looked := LookUp(cfg, cache, q, load, staleAt).1;
            && (looked.Hit? <==> load < FreshEnd(cfg, e))
            && (looked.Miss? && looked.candidate.Some? <==>
                FreshEnd(cfg, e) <= load && FreshEnd(cfg, e) < staleAt < StaleEnd(cfg, e))
  {
    e := CachedIsLatest(cfg, cache, stores, q);
  }

  /** A fresh answer from a store never outlives a record of it, or the configured bound. */
  ghost predicate HonoursTTL(cfg: Config, e: Entry, now: int) {
    now < FreshEnd(cfg, e) ==>
      var served := Seconds(WholeSeconds(FreshEnd(cfg, e) - now)) + (now - e.now);
      && served <= Seconds(cfg.cacheTTL)
      && forall r :: r in e.records ==> served <= Seconds(r.ttl)
  }

  /** Every store with a TTL above zero is honoured, at any moment. */
  lemma {:induction false} StoresHonourTTL(cfg: Config, events: seq<Event>, i: nat, now: int)
    requires forall e :: e in events ==> CleanEvent(e)
    requires i < |Run(cfg, events).stores| && Run(cfg, events).stores[i].ttl > 0
    ensures HonoursTTL(cfg, Run(cfg, events).stores[i], now)
  {
    RunKeepsInv(cfg, events);
  }

  /** For each record, the TTL served plus the time since the store is within its own TTL and the configured one. */
  ghost predicate WithinTTLs(cfg: Config, e: Entry, v: Served) {
    && |v.answer.records| == |e.records|
    && forall k :: 0 <= k < |e.records| ==>
         && Seconds(v.answer.records[k].ttl) + (v.asked - e.now) <= Seconds(e.records[k].ttl)
         && Seconds(v.answer.records[k].ttl) + (v.asked - e.now) <= Seconds(cfg.cacheTTL)
  }

  /**
   So every fresh answer of every run, however resolutions overlap, stays within the TTLs of
   the store it comes from, if the least of them is above zero.
   */
  lemma {:induction false} FreshTTLIsHonoured(cfg: Config, events: seq<Event>, i: nat) returns (e: Entry)
    requires forall x :: x in events ==> CleanEvent(x)
    requires i < |Run(cfg, events).served|
    requires Run(cfg, events).served[i].answer.cached && !Run(cfg, events).served[i].answer.stale
    ensures var w := Run(cfg, events);
            && LatestWas(w.stores, w.served[i].stores, w.served[i].question, e)
            && (e.ttl > 0 ==> WithinTTLs(cfg, e, w.served[i]))
  {
    RunKeepsInv(cfg, events);
    var w := Run(cfg, events);
    var v := w.served[i];
    assert AnswerIsExplained(cfg, w.stores, v);
    e :| LatestWas(w.stores, v.stores, v.question, e) && ExplainedFresh(cfg, e, v.question, v.asked, v.answer);
    LatestIsLogged(w.stores[..v.stores], KeyOf(v.question));
    if e.ttl > 0 {
      var j :| 0 <= j < v.stores && w.stores[..v.stores][j] == e;
      StoresHonourTTL(cfg, events, j, v.asked);
      HonouredRecordByRecord(cfg, e, v);
    }
  }

  lemma {:induction false} HonouredRecordByRecord(cfg: Config, e: Entry, v: Served)
    requires ExplainedFresh(cfg, e, v.question, v.asked, v.answer) && HonoursTTL(cfg, e, v.asked)
    ensures WithinTTLs(cfg, e, v)
  {
    forall k | 0 <= k < |e.records|
      ensures Seconds(v.answer.records[k].ttl) + (v.asked - e.now) <= Seconds(e.records[k].ttl)
    {
      assert e.records[k] in e.records;
    }
  }

  /** A TTL given ends the fresh phase no later than the configured time, and alone if earlier; a TTL of 0 is none. */
  lemma {:induction false} FreshEndExactly(cfg: Config, e: Entry)
    ensures FreshEnd(cfg, e) <= e.now + Seconds(cfg.cacheTTL)
    ensures e.ttl == 0 || e.ttl >= cfg.cacheTTL ==> FreshEnd(cfg, e) == e.now + Seconds(cfg.cacheTTL)
    ensures 0 < e.ttl <= cfg.cacheTTL ==> FreshEnd(cfg, e) == e.now + Seconds(e.ttl)
  {
  }

  /** And it is kept no shorter than that: until the end of the configured time, or of the TTL of a record. */
  lemma {:induction false} FreshAsLongAsAllowed(cfg: Config, e: Entry)
    requires e.records != [] && e.ttl == MinTTL(e.records) > 0
    ensures || FreshEnd(cfg, e) == e.now + Seconds(cfg.cacheTTL)
            || exists r :: r in e.records && FreshEnd(cfg, e) == e.now + Seconds(r.ttl)
  {
    MinTTLIsLeast(e.records);
  }

  /**
   Exactly when a store honours the TTLs at every moment: when its least TTL is above zero,
   because a TTL of zero is taken as none given and the answer kept for the configured time.
   */
  lemma {:induction false} TTLHonouredExactly(cfg: Config, e: Entry)
    requires e.records != [] && e.ttl == MinTTL(e.records)
    ensures (forall now :: HonoursTTL(cfg, e, now)) <==> e.ttl > 0 || cfg.cacheTTL == 0
  {
    MinTTLIsLeast(e.records);
    if e.ttl == 0 && cfg.cacheTTL > 0 {
      assert WholeSeconds(FreshEnd(cfg, e) - e.now) == cfg.cacheTTL;
      assert !HonoursTTL(cfg, e, e.now);
    } else {
      forall now ensures HonoursTTL(cfg, e, now) {
        if now < FreshEnd(cfg, e) {
          assert Lifetime(cfg, e.ttl) <= e.ttl || cfg.cacheTTL == 0 || Lifetime(cfg, e.ttl) == cfg.cacheTTL;
        }
      }
    }
  }

  /** Fresh, stale and over are apart; at the very end of the fresh phase an entry is neither. */
  lemma {:induction false} PhasesAreApart(cfg: Config, e: Entry, now: int)
    ensures var c := RecordOf(cfg, e);
            && !(IsFresh(c, now) && IsStale(c, now))
            && (!IsFresh(c, now) && !IsStale(c, now) <==> now == FreshEnd(cfg, e) || now >= StaleEnd(cfg, e))
            && StaleEnd(cfg, e) >= FreshEnd(cfg, e) + Seconds(30)
  {
  }
}
