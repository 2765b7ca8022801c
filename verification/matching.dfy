/** The pattern index: exact names, wildcard bases and regular expressions. */
module Matching {
  import opened Wrappers
  import opened Collections
  import opened Text

  /** Compiling and matching regular expressions, as functions of their source text. */
  datatype RegexEngine = RegexEngine(compiles: string -> bool, matches: (string, string) -> bool)

  datatype Index = Index(exact: set<string>, wildcards: set<string>, regexes: seq<string>)

  const EMPTY_INDEX := Index({}, {}, [])

  predicate IsWildcard(pattern: string) {
    |pattern| >= 2 && pattern[0] == '*' && pattern[1] == '.'
  }

  predicate IsRegex(pattern: string) {
    !IsWildcard(pattern) && |pattern| > 2 && pattern[0] == '/' && pattern[|pattern| - 1] == '/'
  }

  predicate IsExact(pattern: string) {
    !IsWildcard(pattern) && !IsRegex(pattern)
  }

  function Source(pattern: string): string
    requires IsRegex(pattern)
  {
    pattern[1..|pattern| - 1]
  }

  function Added(rx: RegexEngine, ix: Index, pattern: string): Index {
    if IsWildcard(pattern) then ix.(wildcards := ix.wildcards + {pattern[2..]})
    else if IsRegex(pattern) then
      if rx.compiles(Source(pattern)) then ix.(regexes := ix.regexes + [Source(pattern)]) else ix
    else ix.(exact := ix.exact + {pattern})
  }

  function AddedAll(rx: RegexEngine, ix: Index, patterns: seq<string>): Index {
    if patterns == [] then ix
    else
      var n := |patterns| - 1;
      Added(rx, AddedAll(rx, ix, patterns[..n]), patterns[n])
  }

  /** The list without the first occurrence of an expression. */
  function RemoveFirst(regexes: seq<string>, expr: string): seq<string> {
    if regexes == [] then []
    else if regexes[0] == expr then regexes[1..]
    else [regexes[0]] + RemoveFirst(regexes[1..], expr)
  }

  lemma {:induction false} RemoveFirstAt(regexes: seq<string>, i: nat, expr: string)
    requires i < |regexes| && regexes[i] == expr && expr !in regexes[..i]
    ensures RemoveFirst(regexes, expr) == regexes[..i] + regexes[i + 1..]
  {
    if i > 0 {
      assert regexes[0] in regexes[..i];
      assert regexes[1..][..i - 1] == regexes[..i][1..];
      RemoveFirstAt(regexes[1..], i - 1, expr);
      assert regexes[..i] == [regexes[0]] + regexes[1..][..i - 1];
    }
  }

  lemma {:induction false} RemoveFirstAbsent(regexes: seq<string>, expr: string)
    requires expr !in regexes
    ensures RemoveFirst(regexes, expr) == regexes
  {
    if regexes != [] {
      assert regexes[0] in regexes;
      RemoveFirstAbsent(regexes[1..], expr);
    }
  }

  function Removed(ix: Index, pattern: string): Index {
    if IsWildcard(pattern) then ix.(wildcards := ix.wildcards - {pattern[2..]})
    else if IsRegex(pattern) then ix.(regexes := RemoveFirst(ix.regexes, Source(pattern)))
    else ix.(exact := ix.exact - {pattern})
  }

  // ---------- what a lookup answers ----------

  /** The first tail of a name, from its i-th on, that is a wildcard base. */
  function FirstTail(wildcards: set<string>, d: string, i: nat): Option<string>
    requires i <= |Split(d, '.')|
    decreases |Split(d, '.')| - i
  {
    if i == |Split(d, '.')| then None
    else if Tail(d, i) in wildcards then Some(Tail(d, i))
    else FirstTail(wildcards, d, i + 1)
  }

  function FirstRegex(rx: RegexEngine, regexes: seq<string>, d: string): Option<string> {
    if regexes == [] then None
    else if rx.matches(regexes[0], d) then Some(regexes[0])
    else FirstRegex(rx, regexes[1..], d)
  }

  /** The matching pattern that is reported, if any. */
  function Lookup(rx: RegexEngine, ix: Index, d: string): Option<string> {
    if d in ix.exact then Some(d)
    else
      match FirstTail(ix.wildcards, d, 0)
      case Some(w) => Some("*." + w)
      case None =>
        match FirstRegex(rx, ix.regexes, d)
        case Some(r) => Some("/" + r + "/")
        case None => None
  }

  /** What it means for an index to match a name, with plain suffix tests. */
  ghost predicate Matches(rx: RegexEngine, ix: Index, d: string) {
    || d in ix.exact
    || (exists w :: w in ix.wildcards && LabelSuffix(d, w))
    || (exists r :: r in ix.regexes && rx.matches(r, d))
  }

  /** Of the bases that are label suffixes of d, w is one and the longest. */
  ghost predicate LongestBase(wildcards: set<string>, d: string, w: string) {
    && w in wildcards && LabelSuffix(d, w)
    && (forall v :: v in wildcards && LabelSuffix(d, v) ==> v == w || |v| < |w|)
  }

  lemma {:induction false} FirstTailFinds(wildcards: set<string>, d: string, i: nat) returns (k: nat)
    requires i <= |Split(d, '.')|
    ensures i <= k <= |Split(d, '.')| && forall j :: i <= j < k ==> Tail(d, j) !in wildcards
    ensures FirstTail(wildcards, d, i) == if k < |Split(d, '.')| then Some(Tail(d, k)) else None
    ensures k < |Split(d, '.')| ==> Tail(d, k) in wildcards
    decreases |Split(d, '.')| - i
  {
    k := i;
    if i < |Split(d, '.')| && Tail(d, i) !in wildcards {
      k := FirstTailFinds(wildcards, d, i + 1);
    }
  }

  /** The label suffixes of a name are its tails. */
  lemma {:induction false} SuffixHasIndex(d: string, w: string) returns (i: nat)
    requires LabelSuffix(d, w)
    ensures i < |Split(d, '.')| && Tail(d, i) == w
  {
    if d == w {
      i := 0;
      WholeTail(d);
    } else {
      i := SuffixIsTail(d, w);
    }
  }

  lemma {:induction false} TailIsLabelSuffix(d: string, i: nat)
    requires i < |Split(d, '.')|
    ensures LabelSuffix(d, Tail(d, i))
  {
    if i == 0 {
      WholeTail(d);
    } else {
      TailIsSuffix(d, i);
    }
  }

  /** Probing the tails of a name finds the longest wildcard base that is a label suffix of it. */
  lemma {:induction false} ProbingFindsLongest(wildcards: set<string>, d: string)
    ensures match FirstTail(wildcards, d, 0)
            case Some(w) => LongestBase(wildcards, d, w)
            case None => forall v :: v in wildcards ==> !LabelSuffix(d, v)
  {
    var k := FirstTailFinds(wildcards, d, 0);
    match FirstTail(wildcards, d, 0)
    case Some(w) =>
      TailIsLabelSuffix(d, k);
      forall v | v in wildcards && LabelSuffix(d, v) ensures v == w || |v| < |w| {
        var i := SuffixHasIndex(d, v);
        if k < i {
          TailsShrink(d, k, i);
        }
      }
    case None =>
      forall v | v in wildcards ensures !LabelSuffix(d, v) {
        if LabelSuffix(d, v) {
          var i := SuffixHasIndex(d, v);
        }
      }
  }

  /** The i-th expression matches and none before it does. */
  ghost predicate FirstMatch(rx: RegexEngine, regexes: seq<string>, d: string, i: nat) {
    i < |regexes| && rx.matches(regexes[i], d) && forall j :: 0 <= j < i ==> !rx.matches(regexes[j], d)
  }

  /** Of several expressions that match, the first is found. */
  lemma {:induction false} FirstRegexIsFirst(rx: RegexEngine, regexes: seq<string>, d: string, i: nat)
    requires FirstMatch(rx, regexes, d, i)
    ensures FirstRegex(rx, regexes, d) == Some(regexes[i])
  {
    if i > 0 {
      FirstRegexIsFirst(rx, regexes[1..], d, i - 1);
    }
  }

  lemma {:induction false} FirstRegexFinds(rx: RegexEngine, regexes: seq<string>, d: string)
    ensures match FirstRegex(rx, regexes, d)
            case Some(r) => r in regexes && rx.matches(r, d)
            case None => forall r :: r in regexes ==> !rx.matches(r, d)
  {
    if regexes != [] && !rx.matches(regexes[0], d) {
      FirstRegexFinds(rx, regexes[1..], d);
    }
  }

  lemma {:induction false} SomeFirstMatch(rx: RegexEngine, regexes: seq<string>, d: string) returns (i: nat)
    requires exists r :: r in regexes && rx.matches(r, d)
    ensures FirstMatch(rx, regexes, d, i)
  {
    if rx.matches(regexes[0], d) {
      i := 0;
    } else {
      i := SomeFirstMatch(rx, regexes[1..], d);
      i := i + 1;
    }
  }

  /**
   Lookups are sound and complete, and say why: an exact hit wins; otherwise the longest
   matching wildcard is reported; otherwise the first matching expression.
   */
  lemma {:induction false} LookupIsExact(rx: RegexEngine, ix: Index, d: string)
    ensures Lookup(rx, ix, d).Some? <==> Matches(rx, ix, d)
    ensures d in ix.exact ==> Lookup(rx, ix, d) == Some(d)
    ensures forall w :: d !in ix.exact && LongestBase(ix.wildcards, d, w) ==> Lookup(rx, ix, d) == Some("*." + w)
    ensures d !in ix.exact && (forall w :: w in ix.wildcards ==> !LabelSuffix(d, w)) && Matches(rx, ix, d) ==>
              exists i: nat :: FirstMatch(rx, ix.regexes, d, i) && Lookup(rx, ix, d) == Some("/" + ix.regexes[i] + "/")
  {
    ProbingFindsLongest(ix.wildcards, d);
    FirstRegexFinds(rx, ix.regexes, d);
    if FirstRegex(rx, ix.regexes, d).Some? {
      var i := SomeFirstMatch(rx, ix.regexes, d);
      FirstRegexIsFirst(rx, ix.regexes, d, i);
    }
  }

  // ---------- an index against the set of patterns it stands for ----------

  /** What one pattern matches. */
  predicate PatternMatches(rx: RegexEngine, pattern: string, d: string) {
    if IsWildcard(pattern) then LabelSuffix(d, pattern[2..])
    else if IsRegex(pattern) then rx.compiles(Source(pattern)) && rx.matches(Source(pattern), d)
    else d == pattern
  }

  /** Adding a pattern adds exactly the names it matches, whatever the index held. */
  lemma {:induction false} AddedMatchesExactly(rx: RegexEngine, ix: Index, pattern: string, d: string)
    ensures Matches(rx, Added(rx, ix, pattern), d) <==> Matches(rx, ix, d) || PatternMatches(rx, pattern, d)
  {
    var next := Added(rx, ix, pattern);
    assert forall r :: r in next.regexes <==>
      r in ix.regexes || (IsRegex(pattern) && rx.compiles(Source(pattern)) && r == Source(pattern));
    assert forall w :: w in next.wildcards <==> w in ix.wildcards || (IsWildcard(pattern) && w == pattern[2..]);
    assert forall p :: p in next.exact <==> p in ix.exact || (IsExact(pattern) && p == pattern);
  }

  /** The index holds these patterns, each once; the order of the expressions is free. */
  ghost predicate StandsFor(rx: RegexEngine, ix: Index, patterns: set<string>) {
    && (forall p :: p in ix.exact <==> p in patterns && IsExact(p))
    && (forall w :: w in ix.wildcards <==> "*." + w in patterns)
    && (forall r :: r in ix.regexes <==> r != "" && "/" + r + "/" in patterns && rx.compiles(r))
    && Distinct(ix.regexes)
  }

  lemma {:induction false} SlashesAreRegex(r: string)
    requires r != ""
    ensures IsRegex("/" + r + "/") && Source("/" + r + "/") == r
  {
    assert ("/" + r + "/")[0] == '/';
  }

  lemma {:induction false} RegexIsSlashes(pattern: string)
    requires IsRegex(pattern)
    ensures pattern == "/" + Source(pattern) + "/" && Source(pattern) != ""
  {
  }

  lemma {:induction false} WildcardIsStarDot(pattern: string)
    requires IsWildcard(pattern)
    ensures pattern == "*." + pattern[2..]
  {
  }

  /** Adding a pattern that was not there. */
  lemma {:induction false} AddKeepsStanding(rx: RegexEngine, ix: Index, patterns: set<string>, pattern: string)
    requires StandsFor(rx, ix, patterns) && pattern !in patterns
    ensures StandsFor(rx, Added(rx, ix, pattern), patterns + {pattern})
  {
    var next := Added(rx, ix, pattern);
    forall w ensures w in next.wildcards <==> "*." + w in patterns + {pattern} {
      if IsWildcard(pattern) { WildcardIsStarDot(pattern); }
    }
    forall r ensures r in next.regexes <==> r != "" && "/" + r + "/" in patterns + {pattern} && rx.compiles(r) {
      if r != "" { SlashesAreRegex(r); }
      if IsRegex(pattern) { RegexIsSlashes(pattern); }
    }
    if IsRegex(pattern) {
      RegexIsSlashes(pattern);
    }
  }

  lemma {:induction false} RemoveFirstOfDistinct(regexes: seq<string>, expr: string)
    requires Distinct(regexes)
    ensures forall r :: r in RemoveFirst(regexes, expr) <==> r in regexes && r != expr
    ensures Distinct(RemoveFirst(regexes, expr))
  {
    if regexes != [] {
      var rest := RemoveFirst(regexes[1..], expr);
      RemoveFirstOfDistinct(regexes[1..], expr);
      assert regexes == [regexes[0]] + regexes[1..];
      assert forall j :: 1 <= j < |regexes| ==> regexes[j] == regexes[1..][j - 1];
      if regexes[0] != expr {
        assert regexes[0] !in rest;
        assert forall j :: 0 <= j < |rest| ==> rest[j] in rest;
      }
    }
  }

  /** Removing a pattern. */
  lemma {:induction false} RemoveKeepsStanding(rx: RegexEngine, ix: Index, patterns: set<string>, pattern: string)
    requires StandsFor(rx, ix, patterns)
    ensures StandsFor(rx, Removed(ix, pattern), patterns - {pattern})
  {
    var next := Removed(ix, pattern);
    forall w ensures w in next.wildcards <==> "*." + w in patterns - {pattern} {
      if IsWildcard(pattern) { WildcardIsStarDot(pattern); }
    }
    if IsRegex(pattern) {
      RemoveFirstOfDistinct(ix.regexes, Source(pattern));
    }
    forall r ensures r in next.regexes <==> r != "" && "/" + r + "/" in patterns - {pattern} && rx.compiles(r) {
      if r != "" { SlashesAreRegex(r); }
      if IsRegex(pattern) { RegexIsSlashes(pattern); }
    }
  }

  lemma {:induction false} RebuildStands(rx: RegexEngine, patterns: seq<string>)
    requires Distinct(patterns)
    ensures StandsFor(rx, AddedAll(rx, EMPTY_INDEX, patterns), (set p | p in patterns))
  {
    if patterns != [] {
      var n := |patterns| - 1;
      RebuildStands(rx, patterns[..n]);
      AddKeepsStanding(rx, AddedAll(rx, EMPTY_INDEX, patterns[..n]), (set p | p in patterns[..n]), patterns[n]);
      assert patterns == patterns[..n] + [patterns[n]];
      assert (set p | p in patterns) == (set p | p in patterns[..n]) + {patterns[n]};
    }
  }

  /** An index matches a name exactly when one of the patterns it stands for does. */
  lemma {:induction false} StandingMatches(rx: RegexEngine, ix: Index, patterns: set<string>, d: string)
    requires StandsFor(rx, ix, patterns)
    ensures Matches(rx, ix, d) <==> exists p :: p in patterns && PatternMatches(rx, p, d)
  {
    if Matches(rx, ix, d) {
      if d in ix.exact {
        assert PatternMatches(rx, d, d);
      } else if w :| w in ix.wildcards && LabelSuffix(d, w) {
        assert PatternMatches(rx, "*." + w, d);
      } else {
        var r :| r in ix.regexes && rx.matches(r, d);
        SlashesAreRegex(r);
        assert PatternMatches(rx, "/" + r + "/", d);
      }
    }
    forall p | p in patterns && PatternMatches(rx, p, d) ensures Matches(rx, ix, d) {
      if IsWildcard(p) {
        WildcardIsStarDot(p);
        assert p[2..] in ix.wildcards;
      } else if IsRegex(p) {
        RegexIsSlashes(p);
        assert Source(p) in ix.regexes;
      }
    }
  }

  // ---------- dumping an index and reading it back ----------

  /** What every index built by Add satisfies. */
  ghost predicate WellFormed(rx: RegexEngine, ix: Index) {
    && (forall p :: p in ix.exact ==> IsExact(p))
    && (forall r :: r in ix.regexes ==> r != "" && rx.compiles(r))
  }

  lemma {:induction false} BuiltIsWellFormed(rx: RegexEngine, patterns: seq<string>)
    ensures WellFormed(rx, AddedAll(rx, EMPTY_INDEX, patterns))
  {
    if patterns != [] {
      BuiltIsWellFormed(rx, patterns[..|patterns| - 1]);
    }
  }

  lemma {:induction false} RemoveFirstIsSubset(regexes: seq<string>, expr: string)
    ensures forall r :: r in RemoveFirst(regexes, expr) ==> r in regexes
  {
    if regexes != [] {
      RemoveFirstIsSubset(regexes[1..], expr);
    }
  }

  lemma {:induction false} RemoveKeepsWellFormed(rx: RegexEngine, ix: Index, pattern: string)
    requires WellFormed(rx, ix)
    ensures WellFormed(rx, Removed(ix, pattern))
  {
    if IsRegex(pattern) {
      RemoveFirstIsSubset(ix.regexes, Source(pattern));
    }
  }

  /** The dumped lines: the exact names and the wildcards in any order, then the expressions in theirs. */
  ghost predicate IsDump(ix: Index, names: seq<string>, wildcards: seq<string>, regexes: seq<string>) {
    && (forall p :: p in names <==> p in ix.exact)
    && (forall p :: p in wildcards <==> IsWildcard(p) && p[2..] in ix.wildcards)
    && |regexes| == |ix.regexes|
    && (forall i :: 0 <= i < |regexes| ==> regexes[i] == "/" + ix.regexes[i] + "/")
  }

  lemma {:induction false} AddNames(rx: RegexEngine, ix: Index, names: seq<string>)
    requires forall p :: p in names ==> IsExact(p)
    ensures AddedAll(rx, ix, names) == ix.(exact := ix.exact + set p | p in names)
  {
    if names != [] {
      var n := |names| - 1;
      AddNames(rx, ix, names[..n]);
      assert names == names[..n] + [names[n]];
      assert (set p | p in names) == (set p | p in names[..n]) + {names[n]};
    }
  }

  function Bases(lines: seq<string>): set<string> {
    set p | p in lines && IsWildcard(p) :: p[2..]
  }

  lemma {:induction false} AddWildcards(rx: RegexEngine, ix: Index, lines: seq<string>)
    requires forall p :: p in lines ==> IsWildcard(p)
    ensures AddedAll(rx, ix, lines) == ix.(wildcards := ix.wildcards + Bases(lines))
  {
    if lines != [] {
      var n := |lines| - 1;
      AddWildcards(rx, ix, lines[..n]);
      assert lines == lines[..n] + [lines[n]];
      assert lines[n] in lines && IsWildcard(lines[n]);
      assert Bases(lines) == Bases(lines[..n]) + {lines[n][2..]};
    }
  }

  lemma {:induction false} AddRegexes(rx: RegexEngine, ix: Index, lines: seq<string>, regexes: seq<string>)
    requires |lines| == |regexes|
    requires forall i :: 0 <= i < |lines| ==>
               lines[i] == "/" + regexes[i] + "/" && regexes[i] != "" && rx.compiles(regexes[i])
    ensures AddedAll(rx, ix, lines) == ix.(regexes := ix.regexes + regexes)
  {
    if lines != [] {
      var n := |lines| - 1;
      AddRegexes(rx, ix, lines[..n], regexes[..n]);
      SlashesAreRegex(regexes[n]);
      assert regexes == regexes[..n] + [regexes[n]];
    }
  }

  /** Reading a dump into a new index rebuilds an equal one. */
  lemma {:induction false} DumpRoundTrip(rx: RegexEngine, ix: Index, names: seq<string>, wildcards: seq<string>,
                                         regexes: seq<string>)
    requires WellFormed(rx, ix) && IsDump(ix, names, wildcards, regexes)
    ensures AddedAll(rx, AddedAll(rx, AddedAll(rx, EMPTY_INDEX, names), wildcards), regexes) == ix
  {
    AddNames(rx, EMPTY_INDEX, names);
    AddWildcards(rx, AddedAll(rx, EMPTY_INDEX, names), wildcards);
    forall i | 0 <= i < |regexes| ensures ix.regexes[i] in ix.regexes {}
    AddRegexes(rx, AddedAll(rx, AddedAll(rx, EMPTY_INDEX, names), wildcards), regexes, ix.regexes);
    assert (set p | p in names) == ix.exact;
    forall w | w in ix.wildcards ensures w in Bases(wildcards) {
      assert "*." + w in wildcards;
    }
    assert Bases(wildcards) == ix.wildcards;
  }

  // ---------- the index object ----------

  class Matcher {
    const rx: RegexEngine
    var exact: set<string>
    var wildcards: set<string>
    var regexes: seq<string>

    constructor (rx: RegexEngine)
      ensures this.rx == rx && View() == EMPTY_INDEX
    {
      this.rx := rx;
      exact, wildcards, regexes := {}, {}, [];
    }

    ghost function View(): Index
      reads this
    {
      Index(exact, wildcards, regexes)
    }

    method Add(pattern: string)
      modifies this
      ensures View() == Added(rx, old(View()), pattern)
    {
      if IsWildcard(pattern) {
        wildcards := wildcards + {pattern[2..]};
      } else if |pattern| > 2 && pattern[0] == '/' && pattern[|pattern| - 1] == '/' {
        var expr := pattern[1..|pattern| - 1];
        if rx.compiles(expr) {
          regexes := regexes + [expr];
        }
      } else {
        exact := exact + {pattern};
      }
    }

    method AddBulk(patterns: seq<string>)
      modifies this
      ensures View() == AddedAll(rx, old(View()), patterns)
    {
      for i := 0 to |patterns|
        invariant View() == AddedAll(rx, old(View()), patterns[..i])
      {
        Add(patterns[i]);
        assert patterns[..i + 1][..i] == patterns[..i];
      }
      assert patterns[..|patterns|] == patterns;
    }

    method Remove(pattern: string)
      modifies this
      ensures View() == Removed(old(View()), pattern)
    {
      if IsWildcard(pattern) {
        wildcards := wildcards - {pattern[2..]};
      } else if |pattern| > 2 && pattern[0] == '/' && pattern[|pattern| - 1] == '/' {
        RemoveRegex(pattern[1..|pattern| - 1]);
      } else {
        exact := exact - {pattern};
      }
    }

    /** Deletes the first of the expressions with this source. */
    method RemoveRegex(expr: string)
      modifies this`regexes
      ensures regexes == RemoveFirst(old(regexes), expr)
    {
      for i := 0 to |regexes|
        invariant regexes == old(regexes) && expr !in regexes[..i]
      {
        if regexes[i] == expr {
          RemoveFirstAt(regexes, i, expr);
          regexes := regexes[..i] + regexes[i + 1..];
          return;
        }
        assert regexes[..i + 1] == regexes[..i] + [regexes[i]];
      }
      assert regexes[..|regexes|] == regexes;
      RemoveFirstAbsent(regexes, expr);
    }

    method MatchDetailed(d: string) returns (matched: bool, pattern: string)
      ensures matched <==> Matches(rx, View(), d)
      ensures Lookup(rx, View(), d) == if matched then Some(pattern) else None
    {
      LookupIsExact(rx, View(), d);
      if d in exact {
        return true, d;
      }
      var parts := Split(d, '.');
      for i := 0 to |parts|
        invariant FirstTail(wildcards, d, 0) == FirstTail(wildcards, d, i)
      {
        var sub := Join(parts[i..], '.');
        if sub in wildcards {
          return true, "*." + sub;
        }
      }
      for i := 0 to |regexes|
        invariant FirstRegex(rx, regexes, d) == FirstRegex(rx, regexes[i..], d)
      {
        if rx.matches(regexes[i], d) {
          return true, "/" + regexes[i] + "/";
        }
      }
      return false, "";
    }

    method GetWildcards() returns (lines: seq<string>)
      ensures forall p :: p in lines <==> IsWildcard(p) && p[2..] in wildcards
    {
      lines := [];
      var todo := wildcards;
      while todo != {}
        invariant todo <= wildcards
        invariant forall p :: p in lines <==> IsWildcard(p) && p[2..] in wildcards && p[2..] !in todo
        decreases todo
      {
        var w :| w in todo;
        forall p ensures p == "*." + w <==> IsWildcard(p) && p[2..] == w {
          if IsWildcard(p) { WildcardIsStarDot(p); }
        }
        lines := lines + ["*." + w];
        todo := todo - {w};
      }
    }

    method GetRegexes() returns (lines: seq<string>)
      ensures |lines| == |regexes|
      ensures forall i :: 0 <= i < |lines| ==> lines[i] == "/" + regexes[i] + "/"
    {
      lines := [];
      for i := 0 to |regexes|
        invariant |lines| == i
        invariant forall j :: 0 <= j < i ==> lines[j] == "/" + regexes[j] + "/"
      {
        lines := lines + ["/" + regexes[i] + "/"];
      }
    }
  }
}
