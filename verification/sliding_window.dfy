/** Logs of moments, what is left of them after a cut-off, and how many fall in a window. */
module SlidingWindow {
  /** Durations are counted in nanoseconds. */
  function Seconds(n: int): int {
    n * 1_000_000_000
  }

  /** The whole seconds of a duration that is not negative. */
  function WholeSeconds(d: int): (s: int)
    requires d >= 0
    ensures s >= 0 && Seconds(s) <= d < Seconds(s + 1)
  {
    d / 1_000_000_000
  }

  /** The entries strictly after the cut-off, in order. */
  function Recent(log: seq<int>, cutoff: int): (r: seq<int>)
    ensures |r| <= |log|
  {
    if log == [] then []
    else
      var n := |log| - 1;
      Recent(log[..n], cutoff) + if log[n] > cutoff then [log[n]] else []
  }

  /** How many entries lie in the interval from low, exclusive, to high, inclusive. */
  function Count(log: seq<int>, low: int, high: int): nat {
    if log == [] then 0
    else
      var n := |log| - 1;
      Count(log[..n], low, high) + if low < log[n] <= high then 1 else 0
  }

  ghost predicate Sorted(log: seq<int>) {
    forall i, j :: 0 <= i < j < |log| ==> log[i] <= log[j]
  }

  /** No window of this length, open below and closed above, holds more than max entries. */
  ghost predicate Bounded(log: seq<int>, window: int, max: int) {
    forall low, high :: high - low <= window ==> Count(log, low, high) <= max
  }

  /** What is left after a cut-off is after it, and under any bound of the log. */
  lemma {:induction false} RecentBetween(log: seq<int>, cutoff: int, bound: int)
    requires forall i :: 0 <= i < |log| ==> log[i] <= bound
    ensures forall i :: 0 <= i < |Recent(log, cutoff)| ==> cutoff < Recent(log, cutoff)[i] <= bound
  {
    if log != [] {
      RecentBetween(log[..|log| - 1], cutoff, bound);
    }
  }

  lemma {:induction false} RecentOfAppend(log: seq<int>, now: int, cutoff: int)
    ensures Recent(log + [now], cutoff) == Recent(log, cutoff) + if now > cutoff then [now] else []
  {
    assert (log + [now])[..|log|] == log;
  }

  lemma {:induction false} CountOfAppend(log: seq<int>, now: int, low: int, high: int)
    ensures Count(log + [now], low, high) == Count(log, low, high) + if low < now <= high then 1 else 0
  {
    assert (log + [now])[..|log|] == log;
  }

  /** Cutting twice is cutting at the later of the two moments. */
  lemma {:induction false} RecentOfRecent(log: seq<int>, c: int, d: int)
    requires c <= d
    ensures Recent(Recent(log, c), d) == Recent(log, d)
  {
    if log != [] {
      var n := |log| - 1;
      RecentOfRecent(log[..n], c, d);
      if log[n] > c {
        RecentOfAppend(Recent(log[..n], c), log[n], d);
      } else {
        assert Recent(log, c) == Recent(log[..n], c);
      }
    }
  }

  function Later(a: int, b: int): int {
    if a < b then b else a
  }

  lemma {:induction false} RecentCoversCount(log: seq<int>, low: int, high: int, cutoff: int)
    requires cutoff <= low
    ensures Count(log, low, high) <= |Recent(log, cutoff)|
  {
    if log != [] {
      RecentCoversCount(log[..|log| - 1], low, high, cutoff);
    }
  }

  lemma {:induction false} NothingRecent(log: seq<int>, cutoff: int)
    requires forall i :: 0 <= i < |log| ==> log[i] <= cutoff
    ensures |Recent(log, cutoff)| == 0
  {
    if log != [] {
      NothingRecent(log[..|log| - 1], cutoff);
    }
  }

  lemma {:induction false} KeepsAll(log: seq<int>, cutoff: int)
    requires forall i :: 0 <= i < |log| ==> log[i] > cutoff
    ensures Recent(log, cutoff) == log
  {
    if log != [] {
      KeepsAll(log[..|log| - 1], cutoff);
      assert log == log[..|log| - 1] + [log[|log| - 1]];
    }
  }

  /** Cutting a sorted log drops a prefix of it. */
  lemma {:induction false} RecentIsSuffix(log: seq<int>, cutoff: int)
    requires Sorted(log)
    ensures Recent(log, cutoff) == log[|log| - |Recent(log, cutoff)|..]
  {
    if log != [] {
      var n := |log| - 1;
      if log[n] > cutoff {
        RecentIsSuffix(log[..n], cutoff);
      } else {
        NothingRecent(log, cutoff);
      }
    }
  }

  lemma {:induction false} RecentOfSorted(log: seq<int>, cutoff: int)
    requires Sorted(log)
    ensures Sorted(Recent(log, cutoff))
    ensures |Recent(log, cutoff)| == |log| ==> Recent(log, cutoff) == log
  {
    RecentIsSuffix(log, cutoff);
  }

  lemma {:induction false} CountSplits(log: seq<int>, low: int, mid: int, high: int)
    requires low <= mid <= high
    ensures Count(log, low, high) == Count(log, low, mid) + Count(log, mid, high)
  {
    if log != [] {
      CountSplits(log[..|log| - 1], low, mid, high);
    }
  }

  /** A log bounded on every window is bounded on every span that k windows cover. */
  lemma {:induction false} SpanBound(log: seq<int>, window: int, max: nat, low: int, high: int, k: nat)
    requires Bounded(log, window, max) && high - low <= window * k
    ensures Count(log, low, high) <= max * k
    decreases k
  {
    if high <= low {
      CountOfNothing(log, low, high);
    } else if k == 0 {
    } else if high - low <= window {
      assert max <= max * k;
    } else {
      CountSplits(log, low, low + window, high);
      SpanBound(log, window, max, low + window, high, k - 1);
      assert max * k == max * (k - 1) + max;
    }
  }

  lemma {:induction false} CountOfNothing(log: seq<int>, low: int, high: int)
    requires high <= low
    ensures Count(log, low, high) == 0
  {
    if log != [] {
      CountOfNothing(log[..|log| - 1], low, high);
    }
  }

  /**
   An admission rule that lets a query in only when fewer than max of the logged ones are
   after a cut-off, which is not inside the window ending now, keeps every window bounded.
   */
  lemma {:induction false} AdmissionKeepsBound(log: seq<int>, now: int, cutoff: int, window: int, max: int)
    requires Bounded(log, window, max) && cutoff <= now - window
    requires |Recent(log, cutoff)| < max
    ensures Bounded(log + [now], window, max)
  {
    forall low, high | high - low <= window ensures Count(log + [now], low, high) <= max {
      CountOfAppend(log, now, low, high);
      if low < now <= high {
        RecentCoversCount(log, low, high, cutoff);
      }
    }
  }
}
