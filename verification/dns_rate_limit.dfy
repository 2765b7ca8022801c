/** The per-client DNS query limiter: sliding window plus penalty. */
module DnsRateLimit {
  import opened SlidingWindow

  datatype RawConfig = RawConfig(enabled: bool, maxQueries: int, windowSeconds: int, blockDurationSeconds: int)

  /** Durations are in nanoseconds. */
  datatype Config = Config(enabled: bool, maxQueries: int, window: int, blockDuration: nat)

  /** The configured values, with the defaults 120 queries, 10 s and 30 s for those not above zero. */
  function Effective(raw: RawConfig): (cfg: Config)
    ensures cfg.enabled == raw.enabled
    ensures cfg.maxQueries >= 1 && cfg.window >= Seconds(1) && cfg.blockDuration >= Seconds(1)
    ensures raw.maxQueries >= 1 ==> cfg.maxQueries == raw.maxQueries
    ensures raw.maxQueries < 1 ==> cfg.maxQueries == 120
    ensures raw.windowSeconds >= 1 ==> cfg.window == Seconds(raw.windowSeconds)
    ensures raw.windowSeconds < 1 ==> cfg.window == Seconds(10)
    ensures raw.blockDurationSeconds >= 1 ==> cfg.blockDuration == Seconds(raw.blockDurationSeconds)
    ensures raw.blockDurationSeconds < 1 ==> cfg.blockDuration == Seconds(30)
  {
    Config(
      raw.enabled,
      if raw.maxQueries <= 0 then 120 else raw.maxQueries,
      if raw.windowSeconds <= 0 then Seconds(10) else Seconds(raw.windowSeconds),
      if raw.blockDurationSeconds <= 0 then Seconds(30) else Seconds(raw.blockDurationSeconds))
  }

  predicate Sound(cfg: Config) {
    cfg.enabled && cfg.maxQueries >= 1 && cfg.window >= 1
  }

  /** Moment 0 is the zero time, before every clock reading. */
  datatype Entry = Entry(attempts: seq<int>, blockedUntil: int)

  const NEW_CLIENT := Entry([], 0)

  datatype Verdict = Admitted | Limited(wait: int)

  function Decide(cfg: Config, e: Entry, now: nat): (Entry, Verdict) {
    if e.blockedUntil > now then
      var remaining := WholeSeconds(e.blockedUntil - now);
      (e, Limited(if remaining < 1 then 1 else remaining))
    else
      var kept := Recent(e.attempts, now - cfg.window);
      if |kept| >= cfg.maxQueries then
        (Entry(kept, now + cfg.blockDuration), Limited(WholeSeconds(cfg.blockDuration)))
      else
        (Entry(kept + [now], e.blockedUntil), Admitted)
  }

  // ---------- the limiter object ----------

  class DnsLimiter {
    const raw: RawConfig
    var clients: map<string, Entry>

    constructor (raw: RawConfig)
      ensures this.raw == raw && clients == map[]
    {
      this.raw, clients := raw, map[];
    }

    ghost function EntryOf(client: string): Entry
      reads this
    {
      Lookup(clients, client)
    }

    method IsRateLimited(client: string, now: nat) returns (limited: bool, wait: int)
      modifies this`clients
      ensures !raw.enabled ==> !limited && wait == 0 && clients == old(clients)
      ensures raw.enabled ==>
                var (e, v) := Decide(Effective(raw), old(EntryOf(client)), now);
                && clients == old(clients)[client := e]
                && limited == v.Limited? && wait == if v.Limited? then v.wait else 0
    {
      var cfg := Effective(raw);
      if !cfg.enabled {
        return false, 0;
      }
      var cutoff := now - cfg.window;
      if client !in clients {
        clients := clients[client := NEW_CLIENT];
      }
      var entry := clients[client];
      if entry.blockedUntil > now {
        var remaining := WholeSeconds(entry.blockedUntil - now);
        if remaining < 1 {
          remaining := 1;
        }
        assert clients == clients[client := entry];
        return true, remaining;
      }
      var kept := [];
      for i := 0 to |entry.attempts|
        invariant kept == Recent(entry.attempts[..i], cutoff)
      {
        if entry.attempts[i] > cutoff {
          kept := kept + [entry.attempts[i]];
        }
        assert entry.attempts[..i + 1][..i] == entry.attempts[..i];
      }
      assert entry.attempts[..|entry.attempts|] == entry.attempts;
      if |kept| >= cfg.maxQueries {
        clients := clients[client := Entry(kept, now + cfg.blockDuration)];
        return true, WholeSeconds(cfg.blockDuration);
      }
      clients := clients[client := entry.(attempts := kept + [now])];
      return false, 0;
    }
  }

  // ---------- whole runs ----------

  datatype Query = Query(client: string, now: nat)

  /** The limiter's table, and the log of the queries it let through. */
  datatype State = State(clients: map<string, Entry>, admitted: seq<Query>)

  function Lookup(clients: map<string, Entry>, client: string): Entry {
    if client in clients then clients[client] else NEW_CLIENT
  }

  function Step(cfg: Config, s: State, q: Query): State {
    var (e, v) := Decide(cfg, Lookup(s.clients, q.client), q.now);
    State(s.clients[q.client := e], if v.Admitted? then s.admitted + [q] else s.admitted)
  }

  function Run(cfg: Config, queries: seq<Query>): State {
    if queries == [] then State(map[], [])
    else
      var n := |queries| - 1;
      Step(cfg, Run(cfg, queries[..n]), queries[n])
  }

  /** The moments one client was let through. */
  function Times(admitted: seq<Query>, client: string): seq<int> {
    if admitted == [] then []
    else
      var n := |admitted| - 1;
      Times(admitted[..n], client) + if admitted[n].client == client then [admitted[n].now] else []
  }

  /**
   The clock is read before the lock is taken, so a query may come after one with a later
   reading, by at most the given lag.
   */
  ghost predicate NearlyOrdered(queries: seq<Query>, lag: nat) {
    forall i, j :: 0 <= i < j < |queries| ==> queries[i].now <= queries[j].now + lag
  }

  /** The latest reading. */
  function Latest(queries: seq<Query>): nat {
    if queries == [] then 0
    else
      var n := |queries| - 1;
      if Latest(queries[..n]) < queries[n].now then queries[n].now else Latest(queries[..n])
  }

  lemma {:induction false} LatestIsLatest(queries: seq<Query>, bound: nat)
    requires forall i :: 0 <= i < |queries| ==> queries[i].now <= bound
    ensures Latest(queries) <= bound
  {
    if queries != [] {
      LatestIsLatest(queries[..|queries| - 1], bound);
    }
  }

  /** The two have the same moments after the horizon. */
  ghost predicate AlikeAfter(attempts: seq<int>, log: seq<int>, horizon: int) {
    forall cutoff {:trigger Recent(attempts, cutoff)} :: horizon <= cutoff ==>
      Recent(attempts, cutoff) == Recent(log, cutoff)
  }

  lemma {:induction false} PrunedAreAlike(attempts: seq<int>, log: seq<int>, horizon: int, cutoff: int,
                                          kept: seq<int>, later: int)
    requires AlikeAfter(attempts, log, horizon) && kept == Recent(attempts, cutoff)
    requires horizon <= later && cutoff <= later
    ensures AlikeAfter(kept, log, later)
  {
    forall d | later <= d ensures Recent(kept, d) == Recent(log, d) {
      RecentOfRecent(attempts, cutoff, d);
    }
  }

  /**
   What every step keeps for a client: its attempts are its log, but for moments before a
   horizon outside the window of the latest reading; and windows shorter by the lag are bounded.
   */
  ghost predicate Inv(cfg: Config, lag: nat, e: Entry, log: seq<int>, clock: int, horizon: int) {
    && |e.attempts| <= cfg.maxQueries
    && AlikeAfter(e.attempts, log, horizon) && horizon <= clock - cfg.window
    && Bounded(log, cfg.window - lag, cfg.maxQueries)
    && (forall i :: 0 <= i < |log| ==> log[i] <= clock)
  }

  lemma {:induction false} PruneKeepsInv(cfg: Config, lag: nat, e: Entry, log: seq<int>, clock: int, now: nat,
                                         horizon: int, f: Entry, later: int)
    requires Inv(cfg, lag, e, log, clock, horizon) && f.attempts == Recent(e.attempts, now - cfg.window)
    requires later == Later(horizon, now - cfg.window)
    ensures Inv(cfg, lag, f, log, Later(clock, now), later)
  {
    PrunedAreAlike(e.attempts, log, horizon, now - cfg.window, f.attempts, later);
  }

  lemma {:induction false} AdmitKeepsInv(cfg: Config, lag: nat, e: Entry, log: seq<int>, clock: int, now: nat,
                                         horizon: int)
    requires Inv(cfg, lag, e, log, clock, horizon) && |e.attempts| < cfg.maxQueries
    requires now <= clock <= now + lag
    ensures Inv(cfg, lag, Entry(e.attempts + [now], e.blockedUntil), log + [now], clock, horizon)
  {
    assert |Recent(e.attempts, horizon)| <= |e.attempts|;
    AdmissionKeepsBound(log, now, horizon, cfg.window - lag, cfg.maxQueries);
  }

  lemma {:induction false} DecideKeepsInv(cfg: Config, lag: nat, e: Entry, log: seq<int>, clock: int, now: nat,
                                          horizon: int) returns (h: int)
    requires Sound(cfg) && Inv(cfg, lag, e, log, clock, horizon) && clock <= now + lag
    ensures var (f, v) := Decide(cfg, e, now);
            Inv(cfg, lag, f, if v.Admitted? then log + [now] else log, Later(clock, now), h)
  {
    h := horizon;
    if e.blockedUntil <= now {
      h := Later(horizon, now - cfg.window);
      var kept := Recent(e.attempts, now - cfg.window);
      if |kept| < cfg.maxQueries {
        PruneKeepsInv(cfg, lag, e, log, clock, now, horizon, Entry(kept, e.blockedUntil), h);
        AdmitKeepsInv(cfg, lag, Entry(kept, e.blockedUntil), log, Later(clock, now), now, h);
      } else {
        PruneKeepsInv(cfg, lag, e, log, clock, now, horizon, Entry(kept, now + cfg.blockDuration), h);
      }
    }
  }

  lemma {:induction false} StepKeepsInv(cfg: Config, lag: nat, s: State, q: Query, client: string, clock: int,
                                        horizon: int) returns (h: int)
    requires Sound(cfg) && clock <= q.now + lag
    requires ClientInv(cfg, lag, s, client, clock, horizon)
    ensures ClientInv(cfg, lag, Step(cfg, s, q), client, Later(clock, q.now), h)
  {
    var e, log := Lookup(s.clients, client), Times(s.admitted, client);
    var t := Step(cfg, s, q);
    if q.client == client {
      h := DecideKeepsInv(cfg, lag, e, log, clock, q.now, horizon);
      var (f, v) := Decide(cfg, e, q.now);
      assert Lookup(t.clients, client) == f;
      assert Times(t.admitted, client) == if v.Admitted? then log + [q.now] else log;
    } else {
      h := horizon;
      assert Lookup(t.clients, client) == e;
      assert Times(t.admitted, client) == log;
    }
  }

  /** The client satisfies the invariant in this state. */
  ghost predicate ClientInv(cfg: Config, lag: nat, s: State, client: string, clock: int, horizon: int) {
    Inv(cfg, lag, Lookup(s.clients, client), Times(s.admitted, client), clock, horizon)
  }

  lemma {:induction false} LatestStep(queries: seq<Query>, lag: nat)
    requires queries != [] && NearlyOrdered(queries, lag)
    ensures var n := |queries| - 1;
            && Latest(queries[..n]) <= queries[n].now + lag
            && Latest(queries) == Later(Latest(queries[..n]), queries[n].now)
  {
    var n := |queries| - 1;
    LatestIsLatest(queries[..n], queries[n].now + lag);
  }

  /** In every run, every client satisfies the invariant for the lag of its readings. */
  lemma {:induction false} RunKeepsInv(cfg: Config, lag: nat, queries: seq<Query>, client: string) returns (h: int)
    requires Sound(cfg) && NearlyOrdered(queries, lag)
    ensures ClientInv(cfg, lag, Run(cfg, queries), client, Latest(queries), h)
  {
    if queries == [] {
      h := -cfg.window;
    } else {
      var n := |queries| - 1;
      h := RunKeepsInv(cfg, lag, queries[..n], client);
      LatestStep(queries, lag);
      h := StepKeepsInv(cfg, lag, Run(cfg, queries[..n]), queries[n], client, Latest(queries[..n]), h);
    }
  }

  /** The queries of one client. */
  function Only(queries: seq<Query>, client: string): seq<Query> {
    if queries == [] then []
    else
      var n := |queries| - 1;
      Only(queries[..n], client) + if queries[n].client == client then [queries[n]] else []
  }

  /** Clients do not affect each other: a client fares as if its queries had come alone. */
  lemma {:induction false} ClientsAreIndependent(cfg: Config, queries: seq<Query>, client: string)
    ensures var all, alone := Run(cfg, queries), Run(cfg, Only(queries, client));
            && Lookup(all.clients, client) == Lookup(alone.clients, client)
            && Times(all.admitted, client) == Times(alone.admitted, client)
  {
    if queries != [] {
      var n := |queries| - 1;
      var q := queries[n];
      ClientsAreIndependent(cfg, queries[..n], client);
      var all, alone := Run(cfg, queries[..n]), Run(cfg, Only(queries[..n], client));
      assert Run(cfg, queries) == Step(cfg, all, q);
      if q.client == client {
        assert Lookup(Step(cfg, all, q).clients, client) == Decide(cfg, Lookup(all.clients, client), q.now).0;
        assert Lookup(Step(cfg, alone, q).clients, client) == Decide(cfg, Lookup(alone.clients, client), q.now).0;
      } else {
        assert Only(queries, client) == Only(queries[..n], client);
      }
    }
  }

  // ---------- penalty and recovery ----------

  /** One client's entry after a series of queries. */
  function Serve(cfg: Config, e: Entry, times: seq<nat>): Entry {
    if times == [] then e
    else Decide(cfg, Serve(cfg, e, times[..|times| - 1]), times[|times| - 1]).0
  }

  /** The client was refused at moment t for a full window. */
  predicate RefusedForFullWindow(cfg: Config, e: Entry, t: nat) {
    e.blockedUntil <= t && |Recent(e.attempts, t - cfg.window)| >= cfg.maxQueries
  }

  /** While a penalty runs, no query changes the client's entry. */
  lemma {:induction false} PenaltyKeepsEntry(cfg: Config, e: Entry, times: seq<nat>)
    requires forall i :: 0 <= i < |times| ==> times[i] < e.blockedUntil
    ensures Serve(cfg, e, times) == e
  {
    if times != [] {
      PenaltyKeepsEntry(cfg, e, times[..|times| - 1]);
    }
  }

  lemma {:induction false} RefusalStartsPenalty(cfg: Config, e: Entry, t: nat)
    requires RefusedForFullWindow(cfg, e, t)
    ensures Decide(cfg, e, t).0 == Entry(Recent(e.attempts, t - cfg.window), t + cfg.blockDuration)
    ensures var v := Decide(cfg, e, t).1;
            v.Limited? && Seconds(v.wait) <= cfg.blockDuration < Seconds(v.wait + 1)
  {
  }

  /** The wait told with it is the configured penalty, or 30 seconds. */
  lemma {:induction false} FirstWait(raw: RawConfig, e: Entry, t: nat)
    requires RefusedForFullWindow(Effective(raw), e, t)
    ensures Decide(Effective(raw), e, t).1 ==
            Limited(if raw.blockDurationSeconds >= 1 then raw.blockDurationSeconds else 30)
  {
    RefusalStartsPenalty(Effective(raw), e, t);
  }

  /** The answer to a query while a penalty runs. */
  lemma {:induction false} WaitIsHonest(cfg: Config, e: Entry, now: nat)
    requires now < e.blockedUntil
    ensures var v := Decide(cfg, e, now).1;
            && v.Limited? && v.wait >= 1
            && (v.wait > 1 ==> now + Seconds(v.wait) <= e.blockedUntil)
            && e.blockedUntil < now + Seconds(v.wait + 1)
  {
  }

  /** No query brings the end of a penalty forward, whatever its reading. */
  lemma {:induction false} PenaltyNeverShrinks(cfg: Config, e: Entry, times: seq<nat>)
    ensures Serve(cfg, e, times).blockedUntil >= e.blockedUntil
  {
    if times != [] {
      PenaltyNeverShrinks(cfg, e, times[..|times| - 1]);
    }
  }

  /** So a late reading from before the end of a penalty is refused even if later ones were let through since. */
  lemma {:induction false} LateReadingIsRefused(cfg: Config, e: Entry, t: nat, times: seq<nat>, now: nat)
    requires RefusedForFullWindow(cfg, e, t) && now < t + cfg.blockDuration
    ensures Decide(cfg, Serve(cfg, Decide(cfg, e, t).0, times), now).1.Limited?
  {
    RefusalStartsPenalty(cfg, e, t);
    PenaltyNeverShrinks(cfg, Decide(cfg, e, t).0, times);
  }

  /**
   After a refusal at t, queries before t + blockDuration are all refused, and none extends
   the penalty; the wait they are told is at least one second and, above one, does not pass
   the end of the penalty.
   */
  lemma {:induction false} PenaltyHolds(cfg: Config, e: Entry, t: nat, times: seq<nat>, now: nat)
    requires RefusedForFullWindow(cfg, e, t)
    requires forall i :: 0 <= i < |times| ==> times[i] < t + cfg.blockDuration
    requires now < t + cfg.blockDuration
    ensures var f := Serve(cfg, Decide(cfg, e, t).0, times);
            && f.blockedUntil == t + cfg.blockDuration
            && var v := Decide(cfg, f, now).1;
               && v.Limited? && v.wait >= 1
               && (v.wait > 1 ==> now + Seconds(v.wait) <= f.blockedUntil)
               && f.blockedUntil < now + Seconds(v.wait + 1)
  {
    RefusalStartsPenalty(cfg, e, t);
    PenaltyKeepsEntry(cfg, Decide(cfg, e, t).0, times);
    WaitIsHonest(cfg, Decide(cfg, e, t).0, now);
  }

  /** No reading of a run is later than the latest, so its lag is that at most. */
  lemma {:induction false} LatestIsALag(queries: seq<Query>)
    ensures NearlyOrdered(queries, Latest(queries))
    ensures forall i :: 0 <= i < |queries| ==> queries[i].now <= Latest(queries)
  {
    if queries != [] {
      LatestIsALag(queries[..|queries| - 1]);
    }
  }

  /**
   A query at now, no earlier than the readings before it, is let through exactly when fewer
   than maxQueries of the logged ones are in the window then; always when the latest of those
   readings is a window ago.
   */
  ghost predicate Recovers(cfg: Config, e: Entry, log: seq<int>, latest: int, now: nat) {
    var verdict := Decide(cfg, e, now).1;
    && (verdict.Admitted? <==> |Recent(log, now - cfg.window)| < cfg.maxQueries)
    && (latest + cfg.window <= now ==> verdict.Admitted?)
  }

  /**
   Recovery, in every run, with readings in any order, for a client refused at t and its first
   query once the penalty is over. If readings are late by at most a lag, then none before the
   refusal is after t + lag; so a penalty no shorter than the lag will do for the equivalence,
   and one no shorter than window and lag together always lets the client in again.
   */
  lemma {:induction false} RecoveryAfterPenalty(cfg: Config, queries: seq<Query>, client: string, t: nat,
                                                times: seq<nat>, now: nat)
    requires Sound(cfg)
    requires RefusedForFullWindow(cfg, Lookup(Run(cfg, queries).clients, client), t)
    requires forall i :: 0 <= i < |times| ==> times[i] < t + cfg.blockDuration
    requires now >= t + cfg.blockDuration && now >= Latest(queries)
    ensures var s := Run(cfg, queries);
            var refused := Decide(cfg, Lookup(s.clients, client), t).0;
            Recovers(cfg, Serve(cfg, refused, times), Times(s.admitted, client), Latest(queries), now)
  {
    var s, latest := Run(cfg, queries), Latest(queries);
    LatestIsALag(queries);
    var h := RunKeepsInv(cfg, latest, queries, client);
    EntryRecovers(cfg, latest, Lookup(s.clients, client), Times(s.admitted, client), latest, h, t, times, now);
  }

  lemma {:induction false} EntryRecovers(cfg: Config, lag: nat, e: Entry, log: seq<int>, clock: int, horizon: int,
                                         t: nat, times: seq<nat>, now: nat)
    requires Sound(cfg) && Inv(cfg, lag, e, log, clock, horizon) && RefusedForFullWindow(cfg, e, t)
    requires forall i :: 0 <= i < |times| ==> times[i] < t + cfg.blockDuration
    requires now >= t + cfg.blockDuration && now >= clock
    ensures Recovers(cfg, Serve(cfg, Decide(cfg, e, t).0, times), log, clock, now)
  {
    var f := Decide(cfg, e, t).0;
    RefusalStartsPenalty(cfg, e, t);
    PenaltyKeepsEntry(cfg, f, times);
    PrunedAreAlike(e.attempts, log, horizon, t - cfg.window, f.attempts, now - cfg.window);
    AdmittedExactly(cfg, f, now);
    if clock + cfg.window <= now {
      NothingRecent(log, now - cfg.window);
    }
  }

  /**
   In every run, a query of a client under no penalty, no earlier than the readings before it,
   is let through exactly when fewer than maxQueries of its logged ones are in the window then.
   */
  lemma {:induction false} AdmittedByLog(cfg: Config, queries: seq<Query>, client: string, now: nat)
    requires Sound(cfg) && Latest(queries) <= now
    requires Lookup(Run(cfg, queries).clients, client).blockedUntil <= now
    ensures var s := Run(cfg, queries);
            Decide(cfg, Lookup(s.clients, client), now).1.Admitted? <==>
            |Recent(Times(s.admitted, client), now - cfg.window)| < cfg.maxQueries
  {
    LatestIsALag(queries);
    var h := RunKeepsInv(cfg, Latest(queries), queries, client);
    AdmittedExactly(cfg, Lookup(Run(cfg, queries).clients, client), now);
    var e, log := Lookup(Run(cfg, queries).clients, client), Times(Run(cfg, queries).admitted, client);
    assert AlikeAfter(e.attempts, log, h);
    assert |Recent(e.attempts, now - cfg.window)| == |Recent(log, now - cfg.window)|;
  }

  lemma {:induction false} AdmittedExactly(cfg: Config, e: Entry, now: nat)
    requires e.blockedUntil <= now
    ensures Decide(cfg, e, now).1.Admitted? <==> |Recent(e.attempts, now - cfg.window)| < cfg.maxQueries
  {
  }
}
