/** The login limiter of the API: a sliding window without a penalty. */
module LoginRateLimit {
  import opened SlidingWindow

  datatype Config = Config(enabled: bool, maxTries: int, windowMinutes: int) {
    function Window(): int { Seconds(60 * windowMinutes) }
  }

  /** Crash: the code indexes an empty list, which stops the request. */
  datatype Verdict = Allowed | Refused(retryAfter: int) | Crash

  /** One identifier's stored attempts after a check, and the answer. */
  function Check(cfg: Config, attempts: seq<int>, now: int): (seq<int>, Verdict) {
    if !cfg.enabled then (attempts, Allowed)
    else
      var valid := Recent(attempts, now - cfg.Window());
      if |valid| >= cfg.maxTries then
        if valid == [] then (attempts, Crash)
        else (attempts, Refused(Truncate(cfg.Window() - (now - valid[0]))))
      else
        (valid + [now], Allowed)
  }

  /** Whole seconds of a duration, truncated toward zero. */
  function Truncate(d: int): (s: int)
    ensures d >= 0 ==> s >= 0 && Seconds(s) <= d < Seconds(s + 1)
    ensures d <= 0 ==> s <= 0 && Seconds(s - 1) < d <= Seconds(s)
  {
    if d >= 0 then WholeSeconds(d) else -WholeSeconds(-d)
  }

  class RateLimiter {
    const config: Config
    var attempts: map<string, seq<int>>

    constructor (config: Config)
      ensures this.config == config && attempts == map[]
    {
      this.config, attempts := config, map[];
    }

    ghost function AttemptsOf(id: string): seq<int>
      reads this
    {
      if id in attempts then attempts[id] else []
    }

    method CheckLimit(id: string, now: int) returns (v: Verdict)
      modifies this`attempts
      ensures (AttemptsOf(id), v) == Check(config, old(AttemptsOf(id)), now)
      ensures forall other :: other != id ==> AttemptsOf(other) == old(AttemptsOf(other))
    {
      if !config.enabled {
        return Allowed;
      }
      var cutoff := now - config.Window();
      var stored := if id in attempts then attempts[id] else [];
      var valid := [];
      for i := 0 to |stored|
        invariant valid == Recent(stored[..i], cutoff)
      {
        if stored[i] > cutoff {
          valid := valid + [stored[i]];
        }
        assert stored[..i + 1][..i] == stored[..i];
      }
      assert stored[..|stored|] == stored;
      if |valid| >= config.maxTries {
        if valid == [] {
          return Crash;
        }
        return Refused(Truncate(config.Window() - (now - valid[0])));
      }
      attempts := attempts[id := valid + [now]];
      return Allowed;
    }
  }

  // ---------- whole runs of one identifier ----------

  datatype State = State(attempts: seq<int>, admitted: seq<int>, crashed: bool)

  function After(cfg: Config, s: State, now: int): State {
    var (a, v) := Check(cfg, s.attempts, now);
    State(a, if v.Allowed? then s.admitted + [now] else s.admitted, s.crashed || v.Crash?)
  }

  function Run(cfg: Config, times: seq<int>): State {
    if times == [] then State([], [], false)
    else
      var n := |times| - 1;
      After(cfg, Run(cfg, times[..n]), times[n])
  }

  /** What every check keeps; the stored list is the admissions cut at a horizon outside the window. */
  ghost predicate Inv(cfg: Config, s: State, clock: int, horizon: int) {
    && !s.crashed
    && |s.attempts| <= cfg.maxTries && Sorted(s.attempts)
    && UpTo(s.attempts, clock)
    && Bounded(s.admitted, cfg.Window(), cfg.maxTries)
    && (cfg.Window() > 0 ==> s.attempts == Recent(s.admitted, horizon) && horizon <= clock - cfg.Window())
  }

  ghost predicate UpTo(log: seq<int>, clock: int) {
    forall i :: 0 <= i < |log| ==> log[i] <= clock
  }

  /** The list stored by an admission is sorted. */
  lemma {:induction false} StoredIsSorted(attempts: seq<int>, cutoff: int, now: int)
    requires Sorted(attempts) && UpTo(attempts, now)
    ensures Sorted(Recent(attempts, cutoff) + [now]) && UpTo(Recent(attempts, cutoff) + [now], now)
    ensures cutoff >= now ==> |Recent(attempts, cutoff)| == 0
  {
    RecentOfSorted(attempts, cutoff);
    RecentBetween(attempts, cutoff, now);
    if cutoff >= now {
      NothingRecent(attempts, cutoff);
    }
  }

  /** With a window that is not positive nothing is ever inside it. */
  lemma {:induction false} NoWindow(log: seq<int>, window: int, max: nat)
    requires window <= 0
    ensures Bounded(log, window, max)
  {
    forall low, high | high - low <= window ensures Count(log, low, high) <= max {
      CountOfNothing(log, low, high);
    }
  }

  lemma {:induction false} CheckKeepsInv(cfg: Config, s: State, now: int, horizon: int) returns (h: int)
    requires cfg.enabled && cfg.maxTries >= 1 && Inv(cfg, s, now, horizon)
    ensures Inv(cfg, After(cfg, s, now), now, h)
  {
    h := now - cfg.Window();
    var valid := Recent(s.attempts, h);
    StoredIsSorted(s.attempts, h, now);
    if |valid| >= cfg.maxTries {
      h := horizon;
      assert After(cfg, s, now) == s;
    } else {
      assert After(cfg, s, now) == State(valid + [now], s.admitted + [now], s.crashed);
      AdmissionIsBounded(s.admitted, s.attempts, now, cfg.Window(), cfg.maxTries, horizon);
    }
  }

  lemma {:induction false} AdmissionIsBounded(admitted: seq<int>, attempts: seq<int>, now: int, window: int, max: nat,
                                              horizon: int)
    requires Bounded(admitted, window, max)
    requires |Recent(attempts, now - window)| < max
    requires window > 0 ==> attempts == Recent(admitted, horizon) && horizon <= now - window
    ensures Bounded(admitted + [now], window, max)
    ensures window > 0 ==> Recent(attempts, now - window) + [now] == Recent(admitted + [now], now - window)
  {
    if window <= 0 {
      NoWindow(admitted + [now], window, max);
    } else {
      RecentOfRecent(admitted, horizon, now - window);
      AdmissionKeepsBound(admitted, now, now - window, window, max);
      RecentOfAppend(admitted, now, now - window);
    }
  }

  lemma {:induction false} RunKeepsInv(cfg: Config, times: seq<int>, clock: int) returns (h: int)
    requires cfg.enabled && cfg.maxTries >= 1 && Sorted(times)
    requires times != [] ==> times[|times| - 1] <= clock
    ensures Inv(cfg, Run(cfg, times), clock, h)
  {
    if times == [] {
      h := clock - cfg.Window();
    } else {
      var n := |times| - 1;
      h := RunKeepsInv(cfg, times[..n], times[n]);
      h := CheckKeepsInv(cfg, Run(cfg, times[..n]), times[n], h);
    }
  }

  /**
   With at least one try allowed and a clock that does not go back: no crash, at most
   maxTries admissions in any window of the configured minutes, and the stored list is sorted and no longer than that.
   */
  lemma {:induction false} LoginsAreBounded(cfg: Config, times: seq<int>, low: int)
    requires cfg.enabled && cfg.maxTries >= 1 && Sorted(times)
    ensures var s := Run(cfg, times);
            && !s.crashed
            && Count(s.admitted, low, low + 60_000_000_000 * cfg.windowMinutes) <= cfg.maxTries
            && |s.attempts| <= cfg.maxTries && Sorted(s.attempts)
  {
    var h := RunKeepsInv(cfg, times, if times == [] then 0 else times[|times| - 1]);
  }

  /** At a refusal the stored list is full and every entry of it still counts. */
  lemma {:induction false} RefusalLeavesFullList(cfg: Config, s: State, now: int, horizon: int)
    requires cfg.enabled && cfg.maxTries >= 1 && Inv(cfg, s, now, horizon)
    requires Check(cfg, s.attempts, now).1.Refused?
    ensures |s.attempts| == cfg.maxTries && Recent(s.attempts, now - cfg.Window()) == s.attempts
  {
    RecentOfSorted(s.attempts, now - cfg.Window());
  }

  /** From a full list: refused until the oldest entry has left the window, let through from then on. */
  lemma {:induction false} RetryFromFullList(cfg: Config, attempts: seq<int>, now: int, retry: int)
    requires cfg.enabled && |attempts| == cfg.maxTries >= 1 && Sorted(attempts)
    requires Recent(attempts, now - cfg.Window()) == attempts
    ensures HonestDelay(cfg, attempts, now, retry)
  {
    FullListDropsOldest(attempts, now - cfg.Window(), retry - cfg.Window());
  }

  /**
   A check at now reports a delay of r seconds and stores nothing; a check at retry is let
   through exactly when the oldest stored attempt has left the window, always so r + 1
   seconds later and never so within r seconds.
   */
  ghost predicate HonestDelay(cfg: Config, attempts: seq<int>, now: int, retry: int) {
    var (stored, v) := Check(cfg, attempts, now);
    var again := Check(cfg, attempts, retry).1;
    && v.Refused? && v.retryAfter >= 0 && attempts != [] && stored == attempts
    && (again == Allowed <==> retry >= attempts[0] + cfg.Window())
    && (retry >= now + Seconds(v.retryAfter + 1) ==> again == Allowed)
    && (retry < now + Seconds(v.retryAfter) ==> again.Refused?)
  }

  /** In every run, the delay told at a refusal is honest for a retry with no admission in between. */
  lemma {:induction false} RetryAfterIsHonest(cfg: Config, times: seq<int>, now: int, retry: int)
    requires cfg.enabled && cfg.maxTries >= 1 && Sorted(times)
    requires times != [] ==> times[|times| - 1] <= now
    requires Check(cfg, Run(cfg, times).attempts, now).1.Refused?
    ensures HonestDelay(cfg, Run(cfg, times).attempts, now, retry)
  {
    var h := RunKeepsInv(cfg, times, now);
    RefusalLeavesFullList(cfg, Run(cfg, times), now, h);
    RetryFromFullList(cfg, Run(cfg, times).attempts, now, retry);
  }

  /** A sorted list keeps all its entries at a cut-off exactly when the first is after it. */
  lemma {:induction false} FullListDropsOldest(attempts: seq<int>, first: int, second: int)
    requires Sorted(attempts) && attempts != []
    ensures Recent(attempts, first) == attempts ==> attempts[0] > first
    ensures attempts[0] > second ==> Recent(attempts, second) == attempts
    ensures attempts[0] <= second ==> |Recent(attempts, second)| < |attempts|
  {
    RecentBetween(attempts, first, attempts[|attempts| - 1]);
    RecentBetween(attempts, second, attempts[|attempts| - 1]);
    RecentOfSorted(attempts, second);
    if attempts[0] > second {
      KeepsAll(attempts, second);
    }
  }

  /** A limiter that is switched off lets everything through and stores nothing. */
  lemma {:induction false} DisabledAllowsAll(cfg: Config, times: seq<int>)
    requires !cfg.enabled
    ensures Run(cfg, times) == State([], times, false)
  {
    if times != [] {
      var n := |times| - 1;
      DisabledAllowsAll(cfg, times[..n]);
      assert times == times[..n] + [times[n]];
    }
  }

  /** A check now is let through exactly when fewer than maxTries admissions of the log are in the window. */
  ghost predicate FollowsLog(cfg: Config, attempts: seq<int>, log: seq<int>, now: int) {
    Check(cfg, attempts, now).1 == Allowed <==> |Recent(log, now - cfg.Window())| < cfg.maxTries
  }

  /** So it is in every orderly run. */
  lemma {:induction false} AllowedExactly(cfg: Config, times: seq<int>, now: int)
    requires cfg.enabled && cfg.maxTries >= 1 && cfg.Window() > 0 && Sorted(times)
    requires times != [] ==> times[|times| - 1] <= now
    ensures FollowsLog(cfg, Run(cfg, times).attempts, Run(cfg, times).admitted, now)
  {
    var h := RunKeepsInv(cfg, times, now);
    InvFollowsLog(cfg, Run(cfg, times), now, h);
  }

  /** With a window that is not positive, every check of an orderly run is let through. */
  lemma {:induction false} NoWindowAllows(cfg: Config, times: seq<int>, now: int)
    requires cfg.enabled && cfg.maxTries >= 1 && cfg.Window() <= 0 && Sorted(times)
    requires times != [] ==> times[|times| - 1] <= now
    ensures Check(cfg, Run(cfg, times).attempts, now).1 == Allowed
  {
    var h := RunKeepsInv(cfg, times, now);
  }

  lemma {:induction false} InvFollowsLog(cfg: Config, s: State, now: int, horizon: int)
    requires cfg.enabled && cfg.maxTries >= 1 && cfg.Window() > 0 && Inv(cfg, s, now, horizon)
    ensures FollowsLog(cfg, s.attempts, s.admitted, now)
  {
    var cutoff := now - cfg.Window();
    CutAgain(s.attempts, s.admitted, horizon, cutoff);
  }

  lemma {:induction false} CutAgain(attempts: seq<int>, log: seq<int>, horizon: int, cutoff: int)
    requires attempts == Recent(log, horizon) && horizon <= cutoff
    ensures Recent(attempts, cutoff) == Recent(log, cutoff)
  {
    RecentOfRecent(log, horizon, cutoff);
  }

  /** With no tries allowed, every check of an enabled limiter crashes. */
  lemma {:induction false} NoTriesCrash(cfg: Config, times: seq<int>)
    requires cfg.enabled && times != []
    ensures Run(cfg, times).crashed <==> cfg.maxTries <= 0
  {
    var n := |times| - 1;
    if n > 0 {
      NoTriesCrash(cfg, times[..n]);
    }
    NeverStoresWithoutTries(cfg, times[..n]);
  }

  lemma {:induction false} NeverStoresWithoutTries(cfg: Config, times: seq<int>)
    requires cfg.enabled
    ensures cfg.maxTries <= 0 ==> Run(cfg, times).attempts == []
    ensures cfg.maxTries >= 1 ==> !Run(cfg, times).crashed
  {
    if times != [] {
      NeverStoresWithoutTries(cfg, times[..|times| - 1]);
    }
  }
}
