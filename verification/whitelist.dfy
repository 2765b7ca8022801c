/** The whitelist: a table of patterns and the index kept beside it. */
module Whitelist {
  import opened Wrappers
  import opened Collections
  import opened Matching

  /** The index and the table it should agree with. */
  datatype State = State(table: set<string>, index: Index)

  /** Ok says whether the database access of the call succeeds. */
  datatype Event =
    | AddDomain(d: string, ok: bool)
    | RemoveDomain(d: string, ok: bool)
    | GetDomains(ok: bool)

  /** Each pattern of the table once, in the order in which the map is walked. */
  ghost predicate Lists(order: seq<string>, table: set<string>) {
    Distinct(order) && forall p :: p in order <==> p in table
  }

  /** One call. Reloading may add the patterns in any order. */
  ghost predicate Step(rx: RegexEngine, s: State, e: Event, t: State) {
    match e
    case AddDomain(d, ok) =>
      if ok && d !in s.table then t == State(s.table + {d}, Added(rx, s.index, d)) else t == s
    case RemoveDomain(d, ok) =>
      if ok && d in s.table then t == State(s.table - {d}, Removed(s.index, d)) else t == s
    case GetDomains(ok) =>
      if ok then exists order :: Lists(order, s.table) && t == State(s.table, AddedAll(rx, EMPTY_INDEX, order))
      else t == s
  }

  ghost predicate IsRun(rx: RegexEngine, states: seq<State>, events: seq<Event>) {
    && |states| == |events| + 1
    && forall i :: 0 <= i < |events| ==> Step(rx, states[i], events[i], states[i + 1])
  }

  /** A successful reload makes the index agree with the table, whatever it was before. */
  lemma {:induction false} ReloadAgrees(rx: RegexEngine, s: State, t: State)
    requires Step(rx, s, GetDomains(true), t)
    ensures StandsFor(rx, t.index, t.table)
  {
    var order :| Lists(order, s.table) && t == State(s.table, AddedAll(rx, EMPTY_INDEX, order));
    RebuildStands(rx, order);
    assert s.table == set p | p in order;
  }

  /** The rows the index has not seen, when these were not seen before a call. */
  function StillUnseen(unseen: set<string>, e: Event): set<string> {
    match e
    case AddDomain(_, _) => unseen
    case RemoveDomain(d, ok) => if ok then unseen - {d} else unseen
    case GetDomains(ok) => if ok then {} else unseen
  }

  function Unseen(unseen: set<string>, events: seq<Event>): set<string> {
    if events == [] then unseen
    else StillUnseen(Unseen(unseen, events[..|events| - 1]), events[|events| - 1])
  }

  /** The index stands for all rows but these. */
  ghost predicate StandsForAllBut(rx: RegexEngine, s: State, unseen: set<string>) {
    unseen <= s.table && StandsFor(rx, s.index, s.table - unseen)
  }

  /** Every call, failing or not, keeps the index standing for all rows but those it has never seen. */
  lemma {:induction false} StepAgrees(rx: RegexEngine, s: State, e: Event, t: State, unseen: set<string>)
    requires StandsForAllBut(rx, s, unseen) && Step(rx, s, e, t)
    ensures StandsForAllBut(rx, t, StillUnseen(unseen, e))
  {
    match e
    case AddDomain(d, ok) =>
      if ok && d !in s.table {
        AddKeepsStanding(rx, s.index, s.table - unseen, d);
        assert t.table - unseen == s.table - unseen + {d};
      }
    case RemoveDomain(d, ok) =>
      if ok {
        RemoveKeepsStanding(rx, s.index, s.table - unseen, d);
        assert s.table - {d} - (unseen - {d}) == s.table - unseen - {d};
        assert d !in s.table ==> unseen - {d} == unseen;
      }
    case GetDomains(ok) =>
      if ok {
        ReloadAgrees(rx, s, t);
        assert t.table - {} == t.table;
      }
  }

  lemma {:induction false} RunAgrees(rx: RegexEngine, states: seq<State>, events: seq<Event>, unseen: set<string>)
    requires IsRun(rx, states, events) && StandsForAllBut(rx, states[0], unseen)
    ensures StandsForAllBut(rx, states[|events|], Unseen(unseen, events))
  {
    var n := |events|;
    if n > 0 {
      RunAgrees(rx, states[..n], events[..n - 1], unseen);
      StepAgrees(rx, states[n - 1], events[n - 1], states[n], Unseen(unseen, events[..n - 1]));
    }
  }

  /** A row stays unseen until it is removed, or the table is read again. */
  lemma {:induction false} StaysUnseen(unseen: set<string>, events: seq<Event>, p: string)
    ensures p in Unseen(unseen, events) <==>
            p in unseen && GetDomains(true) !in events && RemoveDomain(p, true) !in events
  {
    if events != [] {
      var n := |events| - 1;
      StaysUnseen(unseen, events[..n], p);
      assert events == events[..n] + [events[n]];
    }
  }

  /** An expression that does not compile: the index never holds it. */
  predicate IsIdle(rx: RegexEngine, p: string) {
    IsRegex(p) && !rx.compiles(Source(p))
  }

  /** Standing for some of the patterns is standing for all of them exactly when the others are idle. */
  lemma {:induction false} StandsExactly(rx: RegexEngine, ix: Index, patterns: set<string>, others: set<string>)
    requires others <= patterns && StandsFor(rx, ix, patterns - others)
    ensures StandsFor(rx, ix, patterns) <==> forall p :: p in others ==> IsIdle(rx, p)
  {
    forall p | p in others && !IsIdle(rx, p) ensures !StandsFor(rx, ix, patterns) {
      if IsWildcard(p) {
        WildcardIsStarDot(p);
      } else if IsRegex(p) {
        RegexIsSlashes(p);
      }
    }
    forall w ensures IsWildcard("*." + w) {
    }
    forall r | r != "" ensures IsRegex("/" + r + "/") && Source("/" + r + "/") == r {
      SlashesAreRegex(r);
    }
  }

  /**
   Over every run, failing calls included, from any start, so also from a start whose preload
   failed and left all rows unseen: the index agrees with the table exactly when every row it
   had not seen has been removed since, or the table was read again, or the row is idle.
   */
  lemma {:induction false} IndexAgreesExactly(rx: RegexEngine, states: seq<State>, events: seq<Event>,
                                              unseen: set<string>)
    requires IsRun(rx, states, events) && StandsForAllBut(rx, states[0], unseen)
    ensures var s := states[|events|];
            StandsFor(rx, s.index, s.table) <==>
            forall p :: p in unseen ==> IsIdle(rx, p) || GetDomains(true) in events || RemoveDomain(p, true) in events
  {
    RunAgrees(rx, states, events, unseen);
    var s, left := states[|events|], Unseen(unseen, events);
    StandsExactly(rx, s.index, s.table, left);
    forall p ensures p in left <==> p in unseen && GetDomains(true) !in events && RemoveDomain(p, true) !in events {
      StaysUnseen(unseen, events, p);
    }
  }

  /**
   And a name is whitelisted exactly when a row of the table matches it that the index has
   seen; all rows have been seen if none was missing at the start, or once the table was read.
   */
  lemma {:induction false} VerdictFollowsTable(rx: RegexEngine, states: seq<State>, events: seq<Event>,
                                               unseen: set<string>, d: string)
    requires IsRun(rx, states, events) && StandsForAllBut(rx, states[0], unseen)
    ensures var s, left := states[|events|], Unseen(unseen, events);
            && (Lookup(rx, s.index, d).Some? <==> exists p :: p in s.table && p !in left && PatternMatches(rx, p, d))
            && (unseen == {} || GetDomains(true) in events ==> left == {} && StandsFor(rx, s.index, s.table))
  {
    RunAgrees(rx, states, events, unseen);
    var s, left := states[|events|], Unseen(unseen, events);
    LookupIsExact(rx, s.index, d);
    StandingMatches(rx, s.index, s.table - left, d);
    if unseen == {} || GetDomains(true) in events {
      forall p ensures p !in left {
        StaysUnseen(unseen, events, p);
      }
      assert s.table - left == s.table;
    }
  }

  /** A start whose preload failed stands for all rows but all of them. */
  lemma {:induction false} FailedPreload(rx: RegexEngine, table: set<string>)
    ensures StandsForAllBut(rx, State(table, EMPTY_INDEX), table)
  {
    assert table - table == {};
  }

  // ---------- the service object ----------

  class WhitelistService {
    const rx: RegexEngine
    var table: set<string>
    var matcher: Matcher
    /** The rows the index has seen: all of them from the first successful reload on. */
    ghost var indexed: set<string>

    ghost predicate Valid()
      reads this, matcher
    {
      matcher.rx == rx && indexed <= table && StandsFor(rx, matcher.View(), indexed)
    }

    /** Preloading may fail, which leaves an empty index beside the table. */
    constructor (rx: RegexEngine, table: set<string>, ok: bool)
      ensures Valid() && fresh(matcher) && this.rx == rx
      ensures this.table == table && indexed == if ok then table else {}
    {
      this.rx, this.table, this.indexed := rx, table, {};
      matcher := new Matcher(rx);
      new;
      var _ := GetDomains(ok);
    }

    method AddDomain(d: string, ok: bool) returns (done: bool)
      requires Valid()
      modifies this`table, this`indexed, matcher
      ensures Valid() && done == (ok && d !in old(table))
      ensures table == (if done then old(table) + {d} else old(table))
      ensures table - indexed == old(table - indexed)
    {
      done := ok && d !in table;
      if done {
        AddKeepsStanding(rx, matcher.View(), indexed, d);
        table := table + {d};
        indexed := indexed + {d};
        matcher.Add(d);
      }
    }

    method RemoveDomain(d: string, ok: bool) returns (done: bool)
      requires Valid()
      modifies this`table, this`indexed, matcher
      ensures Valid() && done == (ok && d in old(table))
      ensures table == if done then old(table) - {d} else old(table)
      ensures table - indexed <= old(table - indexed)
    {
      done := ok && d in table;
      if done {
        RemoveKeepsStanding(rx, matcher.View(), indexed, d);
        table := table - {d};
        indexed := indexed - {d};
        matcher.Remove(d);
      }
    }

    /** Reads the table and replaces the index by one built from it. */
    method GetDomains(ok: bool) returns (domains: Option<set<string>>)
      requires Valid()
      modifies this`matcher, this`indexed
      ensures Valid() && domains == (if ok then Some(table) else None)
      ensures ok ==> indexed == table && fresh(matcher)
      ensures !ok ==> indexed == old(indexed) && matcher == old(matcher)
    {
      if !ok {
        return None;
      }
      matcher := new Matcher(rx);
      var todo := table;
      ghost var done: seq<string> := [];
      while todo != {}
        invariant todo <= table && fresh(matcher) && matcher.rx == rx
        invariant Lists(done, table - todo)
        invariant matcher.View() == AddedAll(rx, EMPTY_INDEX, done)
        decreases todo
      {
        var d :| d in todo;
        assert (done + [d])[..|done|] == done;
        done := done + [d];
        todo := todo - {d};
        matcher.Add(d);
      }
      RebuildStands(rx, done);
      assert (set p | p in done) == table;
      indexed := table;
      domains := Some(table);
    }

    /** A name is whitelisted exactly when a row the index has seen matches it. */
    method IsWhitelistedDetailed(d: string) returns (whitelisted: bool, pattern: string)
      requires Valid()
      ensures whitelisted <==> exists p :: p in indexed && PatternMatches(rx, p, d)
      ensures Lookup(rx, matcher.View(), d) == if whitelisted then Some(pattern) else None
    {
      StandingMatches(rx, matcher.View(), indexed, d);
      whitelisted, pattern := matcher.MatchDetailed(d);
    }
  }
}
