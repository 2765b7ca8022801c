/**
 How long an interval the DNS limiter's bound holds on. The clock is read before the lock is
 taken, so readings may come out of order.
 */
module DnsRateLimitExact {
  import opened SlidingWindow
  import opened DnsRateLimit

  // ---------- one query allowed ----------

  /**
   What every step keeps where one query is allowed, whatever the order of the readings: no
   window holds two of the log, its last moment is the latest, and is all that is stored.
   */
  ghost predicate Lone(cfg: Config, attempts: seq<int>, log: seq<int>) {
    && Bounded(log, cfg.window, 1)
    && (forall i :: 0 <= i < |log| ==> log[i] <= log[|log| - 1])
    && attempts == if log == [] then [] else [log[|log| - 1]]
  }

  lemma {:induction false} DecideKeepsLone(cfg: Config, e: Entry, log: seq<int>, now: nat)
    requires Sound(cfg) && cfg.maxQueries == 1 && Lone(cfg, e.attempts, log)
    ensures var (f, v) := Decide(cfg, e, now);
            Lone(cfg, f.attempts, if v.Admitted? then log + [now] else log)
  {
    var cutoff := now - cfg.window;
    RecentOfAppend([], if log == [] then 0 else log[|log| - 1], cutoff);
    if log != [] {
      assert [] + [log[|log| - 1]] == e.attempts;
    }
    if log == [] || log[|log| - 1] <= cutoff {
      NothingRecent(log, cutoff);
      NothingRecent(e.attempts, cutoff);
      AdmissionKeepsBound(log, now, cutoff, cfg.window, 1);
    }
  }

  ghost predicate ClientLone(cfg: Config, s: State, client: string) {
    Lone(cfg, Lookup(s.clients, client).attempts, Times(s.admitted, client))
  }

  lemma {:induction false} StepKeepsLone(cfg: Config, s: State, q: Query, client: string)
    requires Sound(cfg) && cfg.maxQueries == 1 && ClientLone(cfg, s, client)
    ensures ClientLone(cfg, Step(cfg, s, q), client)
  {
    var e, log, t := Lookup(s.clients, client), Times(s.admitted, client), Step(cfg, s, q);
    if q.client == client {
      DecideKeepsLone(cfg, e, log, q.now);
      assert Times(t.admitted, client) == if Decide(cfg, e, q.now).1.Admitted? then log + [q.now] else log;
    } else {
      assert Times(t.admitted, client) == log;
    }
  }

  lemma {:induction false} RunKeepsLone(cfg: Config, queries: seq<Query>, client: string)
    requires Sound(cfg) && cfg.maxQueries == 1
    ensures ClientLone(cfg, Run(cfg, queries), client)
  {
    if queries == [] {
      forall low, high ensures Count([], low, high) == 0 {
      }
    } else {
      RunKeepsLone(cfg, queries[..|queries| - 1], client);
      StepKeepsLone(cfg, Run(cfg, queries[..|queries| - 1]), queries[|queries| - 1], client);
    }
  }

  // ---------- the bound ----------

  /** The length of the intervals on which the bound holds, for readings out of order by at most the lag. */
  function LimitedLength(cfg: Config, lag: nat): int {
    if cfg.maxQueries == 1 then cfg.window else cfg.window - lag
  }

  lemma {:induction false} RunIsBounded(cfg: Config, lag: nat, queries: seq<Query>, client: string)
    requires Sound(cfg) && NearlyOrdered(queries, lag)
    ensures var s := Run(cfg, queries);
            && Bounded(Times(s.admitted, client), LimitedLength(cfg, lag), cfg.maxQueries)
            && |Lookup(s.clients, client).attempts| <= cfg.maxQueries
  {
    var h := RunKeepsInv(cfg, lag, queries, client);
    if cfg.maxQueries == 1 {
      RunKeepsLone(cfg, queries, client);
    }
  }

  /**
   The limit over every run by any clients: at most maxQueries of a client's queries are let
   through in any interval of that length, hence at most maxQueries * (D / length + 1) in any
   span D; and no more than maxQueries moments are ever stored for it.
   */
  lemma {:induction false} ClientsAreBounded(cfg: Config, lag: nat, queries: seq<Query>, client: string, low: int,
                                             span: nat)
    requires Sound(cfg) && NearlyOrdered(queries, lag)
    ensures var s := Run(cfg, queries);
            var length := LimitedLength(cfg, lag);
            && Count(Times(s.admitted, client), low, low + length) <= cfg.maxQueries
            && (length > 0 ==>
                  Count(Times(s.admitted, client), low, low + span) <= cfg.maxQueries * (span / length + 1))
            && |Lookup(s.clients, client).attempts| <= cfg.maxQueries
  {
    RunIsBounded(cfg, lag, queries, client);
    var length := LimitedLength(cfg, lag);
    if length > 0 {
      var log := Times(Run(cfg, queries).admitted, client);
      SpanBound(log, length, cfg.maxQueries, low, low + span, span / length + 1);
    }
  }

  // ---------- runs that break it on longer intervals ----------

  function Repeated<T>(x: T, k: nat): seq<T> {
    if k == 0 then [] else Repeated(x, k - 1) + [x]
  }

  lemma {:induction false} AllRepeated<T>(x: T, k: nat)
    ensures |Repeated(x, k)| == k && forall i :: 0 <= i < k ==> Repeated(x, k)[i] == x
  {
    if k > 0 {
      AllRepeated(x, k - 1);
    }
  }

  lemma {:induction false} CountOfRepeated(x: int, k: nat, low: int, high: int)
    requires low < x <= high
    ensures Count(Repeated(x, k), low, high) == k
  {
    if k > 0 {
      CountOfRepeated(x, k - 1, low, high);
      CountOfAppend(Repeated(x, k - 1), x, low, high);
    }
  }

  /** The client has these attempts stored, has never been blocked, and was let through at the moments of the log. */
  predicate Stands(s: State, client: string, attempts: seq<int>, log: seq<int>) {
    Lookup(s.clients, client) == Entry(attempts, 0) && Times(s.admitted, client) == log
  }

  lemma {:induction false} RoomAdmits(cfg: Config, queries: seq<Query>, q: Query, attempts: seq<int>, kept: seq<int>,
                                      log: seq<int>)
    requires Stands(Run(cfg, queries), q.client, attempts, log)
    requires Recent(attempts, q.now - cfg.window) == kept && |kept| < cfg.maxQueries
    ensures Stands(Run(cfg, queries + [q]), q.client, kept + [q.now], log + [q.now])
  {
    var s := Run(cfg, queries);
    assert Decide(cfg, Lookup(s.clients, q.client), q.now) == (Entry(kept + [q.now], 0), Admitted);
  }

  lemma {:induction false} NextIsAdmitted(cfg: Config, queries: seq<Query>, q: Query, attempts: seq<int>,
                                          log: seq<int>)
    requires Stands(Run(cfg, queries), q.client, attempts, log)
    requires |attempts| < cfg.maxQueries && forall i :: 0 <= i < |attempts| ==> attempts[i] > q.now - cfg.window
    ensures Stands(Run(cfg, queries + [q]), q.client, attempts + [q.now], log + [q.now])
  {
    KeepsAll(attempts, q.now - cfg.window);
    RoomAdmits(cfg, queries, q, attempts, attempts, log);
  }

  /** As many queries as are allowed are let through at one moment. */
  lemma {:induction false} FirstAreAdmitted(cfg: Config, q: Query, moment: int, k: nat)
    requires Sound(cfg) && k <= cfg.maxQueries && moment == q.now
    ensures Stands(Run(cfg, Repeated(q, k)), q.client, Repeated(moment, k), Repeated(moment, k))
  {
    if k > 0 {
      var before, moments := Repeated(q, k - 1), Repeated(moment, k - 1);
      FirstAreAdmitted(cfg, q, moment, k - 1);
      AllRepeated(moment, k - 1);
      NextIsAdmitted(cfg, before, q, moments, moments);
    }
  }

  /** As many queries as are allowed at 0, and one a window later. */
  function OneMore(cfg: Config, client: string): seq<Query>
    requires Sound(cfg)
  {
    Repeated(Query(client, 0), cfg.maxQueries) + [Query(client, cfg.window)]
  }

  /** A window, less the lag, but not below zero. */
  function Shortened(cfg: Config, lag: nat): nat
    requires Sound(cfg)
  {
    if lag < cfg.window then cfg.window - lag else 0
  }

  /** And one with a reading before the last by the lag, or by the whole window if that is less. */
  function OneLate(cfg: Config, lag: nat, client: string): seq<Query>
    requires Sound(cfg)
  {
    OneMore(cfg, client) + [Query(client, Shortened(cfg, lag))]
  }

  lemma {:induction false} OneMoreIsOrdered(cfg: Config, client: string)
    requires Sound(cfg)
    ensures NearlyOrdered(OneMore(cfg, client), 0)
    ensures forall i :: 0 <= i < |OneMore(cfg, client)| ==> OneMore(cfg, client)[i].now <= cfg.window
  {
    AllRepeated(Query(client, 0), cfg.maxQueries);
  }

  lemma {:induction false} OneLateIsNearlyOrdered(cfg: Config, lag: nat, client: string)
    requires Sound(cfg)
    ensures NearlyOrdered(OneLate(cfg, lag, client), lag)
  {
    OneMoreIsOrdered(cfg, client);
  }

  /** What is let through: all of these queries. */
  function OneMoreTimes(cfg: Config): seq<int>
    requires Sound(cfg)
  {
    Repeated(0, cfg.maxQueries) + [cfg.window]
  }

  lemma {:induction false} OneMoreIsAdmitted(cfg: Config, client: string)
    requires Sound(cfg)
    ensures Stands(Run(cfg, OneMore(cfg, client)), client, [] + [cfg.window], OneMoreTimes(cfg))
  {
    var first, zeros := Repeated(Query(client, 0), cfg.maxQueries), Repeated(0, cfg.maxQueries);
    AllRepeated(0, cfg.maxQueries);
    FirstAreAdmitted(cfg, Query(client, 0), 0, cfg.maxQueries);
    NothingRecent(zeros, 0);
    RoomAdmits(cfg, first, Query(client, cfg.window), zeros, [], zeros);
  }

  lemma {:induction false} OneLateIsAdmitted(cfg: Config, lag: nat, client: string)
    requires Sound(cfg) && cfg.maxQueries >= 2 && lag >= 1
    ensures Stands(Run(cfg, OneLate(cfg, lag, client)), client, [] + [cfg.window] + [Shortened(cfg, lag)],
                   OneMoreTimes(cfg) + [Shortened(cfg, lag)])
  {
    OneMoreIsAdmitted(cfg, client);
    NextIsAdmitted(cfg, OneMore(cfg, client), Query(client, Shortened(cfg, lag)), [] + [cfg.window],
                   OneMoreTimes(cfg));
  }

  // ---------- exactly ----------

  /** If the readings of the run are out of order by at most the lag, the bound holds on this interval. */
  ghost predicate LimitHolds(cfg: Config, lag: nat, length: nat, queries: seq<Query>, client: string, low: int) {
    NearlyOrdered(queries, lag) ==>
      Count(Times(Run(cfg, queries).admitted, client), low, low + length) <= cfg.maxQueries
  }

  /** Longer than a window: no reading need be late. */
  lemma {:induction false} LongerIsBroken(cfg: Config, lag: nat, length: nat, client: string)
    requires Sound(cfg) && length > cfg.window
    ensures !LimitHolds(cfg, lag, length, OneMore(cfg, client), client, -1)
  {
    OneMoreIsOrdered(cfg, client);
    OneMoreIsAdmitted(cfg, client);
    CountOfRepeated(0, cfg.maxQueries, -1, -1 + length);
    CountOfAppend(Repeated(0, cfg.maxQueries), cfg.window, -1, -1 + length);
  }

  /** Longer than a window shortened by the lag, with more than one query allowed. */
  lemma {:induction false} LateIsBroken(cfg: Config, lag: nat, length: nat, client: string)
    requires Sound(cfg) && cfg.maxQueries >= 2 && 0 < length <= cfg.window && length > cfg.window - lag
    ensures !LimitHolds(cfg, lag, length, OneLate(cfg, lag, client), client, -1)
  {
    OneLateIsNearlyOrdered(cfg, lag, client);
    OneLateIsAdmitted(cfg, lag, client);
    CountOfRepeated(0, cfg.maxQueries, -1, -1 + length);
    CountOfAppend(Repeated(0, cfg.maxQueries), cfg.window, -1, -1 + length);
    CountOfAppend(OneMoreTimes(cfg), Shortened(cfg, lag), -1, -1 + length);
  }

  /**
   Exactly on which intervals the bound holds, over every run with readings out of order by at
   most the lag: those no longer than the window shortened by the lag; and, where only one
   query is allowed, those no longer than the window, however late the readings are.
   */
  lemma {:induction false} BoundHoldsExactly(cfg: Config, lag: nat, length: nat)
    requires Sound(cfg)
    ensures (forall queries, client, low :: LimitHolds(cfg, lag, length, queries, client, low)) <==>
            length == 0 || length <= cfg.window - lag || (cfg.maxQueries == 1 && length <= cfg.window)
  {
    if length == 0 || length <= LimitedLength(cfg, lag) {
      forall queries, client, low ensures LimitHolds(cfg, lag, length, queries, client, low) {
        BoundHolds(cfg, lag, length, queries, client, low);
      }
    } else if length > cfg.window {
      LongerIsBroken(cfg, lag, length, "");
    } else {
      LateIsBroken(cfg, lag, length, "");
    }
  }

  lemma {:induction false} BoundHolds(cfg: Config, lag: nat, length: nat, queries: seq<Query>, client: string, low: int)
    requires Sound(cfg) && (length == 0 || length <= LimitedLength(cfg, lag))
    ensures LimitHolds(cfg, lag, length, queries, client, low)
  {
    if length == 0 {
      CountOfNothing(Times(Run(cfg, queries).admitted, client), low, low);
    } else if NearlyOrdered(queries, lag) {
      RunIsBounded(cfg, lag, queries, client);
    }
  }
}
