/** The other places that test a name against a base domain, and how they relate to the index. */
module DomainTests {
  import opened Wrappers
  import opened Text
  import opened Matching

  /** The conditional forwarder test. */
  predicate ForwarderMatches(query: string, forwarder: string) {
    var q, f := TrimSuffix(query, "."), TrimSuffix(forwarder, ".");
    q == f || HasSuffix(q, "." + f)
  }

  /** The blacklist's own wildcard test. */
  predicate MatchesWildcard(domain: string, pattern: string) {
    var d, p := TrimSuffix(domain, "."), TrimSuffix(pattern, ".");
    if !IsWildcard(p) then d == p
    else
      var suffix := "." + p[2..];
      HasSuffix(d, suffix) && |d| > |suffix|
  }

  /** The forwarder test is an index with the forwarder as its one wildcard. */
  lemma {:induction false} ForwarderIsOneWildcard(rx: RegexEngine, query: string, forwarder: string)
    ensures ForwarderMatches(query, forwarder) <==>
            Lookup(rx, Index({}, {TrimSuffix(forwarder, ".")}, []), TrimSuffix(query, ".")).Some?
  {
    LookupIsExact(rx, Index({}, {TrimSuffix(forwarder, ".")}, []), TrimSuffix(query, "."));
  }

  /**
   On names and non-empty bases without a trailing dot, the index and the blacklist's test
   differ at exactly two names: the base itself and the base with a leading dot.
   */
  lemma {:induction false} WildcardTestsDiffer(d: string, base: string)
    requires base != "" && !HasSuffix(base, ".") && !HasSuffix(d, ".")
    ensures MatchesWildcard(d, "*." + base) ==> LabelSuffix(d, base)
    ensures (LabelSuffix(d, base) && !MatchesWildcard(d, "*." + base)) <==> (d == base || d == "." + base)
  {
    var p := "*." + base;
    assert p[|p| - 1..] == [base[|base| - 1]] && base[|base| - 1..] == [base[|base| - 1]];
    assert TrimSuffix(p, ".") == p && p[2..] == base;
    if HasSuffix(d, "." + base) && |d| == |base| + 1 {
      assert d == "." + base;
    }
  }

  /** A pattern that is no wildcard matches its own name, and no other. */
  lemma {:induction false} PlainPatternsAreNames(d: string, pattern: string)
    requires !IsWildcard(pattern) && !HasSuffix(pattern, ".") && !HasSuffix(d, ".")
    ensures MatchesWildcard(d, pattern) <==> d == pattern
  {
  }

  /** Both tests ignore one trailing dot, on the name and on the pattern. */
  lemma {:induction false} TrailingDotsAreIgnored(d: string, pattern: string)
    requires !HasSuffix(d, ".") && !HasSuffix(pattern, ".")
    ensures MatchesWildcard(d + ".", pattern) == MatchesWildcard(d, pattern) == MatchesWildcard(d, pattern + ".")
    ensures ForwarderMatches(d + ".", pattern) == ForwarderMatches(d, pattern) == ForwarderMatches(d, pattern + ".")
  {
    TrimAdded(d);
    TrimAdded(pattern);
  }

  lemma {:induction false} TrimAdded(s: string)
    ensures TrimSuffix(s + ".", ".") == s
  {
  }

  // ---------- local resolutions ----------

  /** Of the wildcard rows a dot-suffix of d names, "*." + w is one and the longest. */
  ghost predicate LongestRow(rows: map<string, string>, d: string, w: string) {
    && "*." + w in rows && HasSuffix(d, "." + w)
    && (forall v :: "*." + v in rows && HasSuffix(d, "." + v) ==> v == w || |v| < |w|)
  }

  /**
   The row a name stands for: its own, else that of its longest wildcard base, which is never
   the name itself; none exactly when there is no such row.
   */
  ghost predicate RowFor(rows: map<string, string>, d: string, row: Option<string>) {
    && (d in rows ==> row == Some(d))
    && (d !in rows ==>
          match row
          case Some(r) => exists w :: r == "*." + w && LongestRow(rows, d, w)
          case None => forall w :: "*." + w in rows ==> !HasSuffix(d, "." + w))
  }

  function NonEmpty(rows: map<string, string>): map<string, string> {
    map k | k in rows && rows[k] != "" :: rows[k]
  }

  /**
   The record that is read into keeps what an earlier query put there. Narrowed says whether
   the database layer takes the key it holds as one more condition of the next query.
   */
  function ReadRow(rows: map<string, string>, key: string, held: Option<string>, narrowed: bool): Option<string> {
    if key in rows && (narrowed ==> held == None || held == Some(key)) then Some(rows[key]) else None
  }

  /** The row asked for in the i-th query: the name's own, then that of each later tail. */
  function Asked(d: string, i: nat): string
    requires i < |Split(d, '.')|
  {
    if i == 0 then d else "*." + Tail(d, i)
  }

  /** The first row from the i-th query on. */
  function FirstRow(rows: map<string, string>, d: string, i: nat): Option<string>
    requires i <= |Split(d, '.')|
    decreases |Split(d, '.')| - i
  {
    if i == |Split(d, '.')| then None
    else if Asked(d, i) in rows then Some(Asked(d, i))
    else FirstRow(rows, d, i + 1)
  }

  lemma {:induction false} FirstRowFinds(rows: map<string, string>, d: string, i: nat) returns (k: nat)
    requires i <= |Split(d, '.')|
    ensures i <= k <= |Split(d, '.')| && forall j :: i <= j < k ==> Asked(d, j) !in rows
    ensures FirstRow(rows, d, i) == if k < |Split(d, '.')| then Some(Asked(d, k)) else None
    ensures k < |Split(d, '.')| ==> Asked(d, k) in rows
    decreases |Split(d, '.')| - i
  {
    k := i;
    if i < |Split(d, '.')| && Asked(d, i) !in rows {
      k := FirstRowFinds(rows, d, i + 1);
    }
  }

  /** Asking in this order finds the name's own row or that of the longest base. */
  lemma {:induction false} FirstRowIsRowFor(rows: map<string, string>, d: string)
    ensures RowFor(rows, d, FirstRow(rows, d, 0))
  {
    var k := FirstRowFinds(rows, d, 0);
    if d !in rows {
      assert k > 0;
      forall j | 1 <= j < k ensures "*." + Tail(d, j) !in rows {
        assert Asked(d, j) !in rows;
      }
      if k < |Split(d, '.')| {
        FirstRowIsLongest(rows, d, k);
      } else {
        NoRow(rows, d);
      }
    }
  }

  /** What queries that are not narrowed have settled so far. */
  ghost predicate PassedOver(rows: map<string, string>, d: string, i: nat) {
    i <= |Split(d, '.')| && FirstRow(NonEmpty(rows), d, 0) == FirstRow(NonEmpty(rows), d, i)
  }

  /** What narrowed queries have settled so far: the first row read is held, and is empty. */
  ghost predicate Held(rows: map<string, string>, d: string, i: nat, held: Option<string>) {
    && i <= |Split(d, '.')|
    && FirstRow(rows, d, 0) == (if held.Some? then held else FirstRow(rows, d, i))
    && (held.Some? ==> held.value in rows && rows[held.value] == "")
  }

  lemma {:induction false} PassOver(rows: map<string, string>, d: string, i: nat)
    requires i < |Split(d, '.')| && PassedOver(rows, d, i)
    ensures if Asked(d, i) in rows && rows[Asked(d, i)] != ""
            then FirstRow(NonEmpty(rows), d, 0) == Some(Asked(d, i))
            else PassedOver(rows, d, i + 1)
  {
  }

  lemma {:induction false} Hold(rows: map<string, string>, d: string, i: nat, held: Option<string>)
    requires i < |Split(d, '.')| && Held(rows, d, i, held)
    ensures var found := ReadRow(rows, Asked(d, i), held, true);
            if found.Some? && found.value != "" then FirstRow(rows, d, 0) == Some(Asked(d, i))
            else Held(rows, d, i + 1, if found.Some? then Some(Asked(d, i)) else held)
  {
  }

  /** What the queries come to: the first row with a value, or the first row if it has one. */
  function Resolved(rows: map<string, string>, d: string, narrowed: bool): Option<string> {
    if !narrowed then FirstRow(NonEmpty(rows), d, 0)
    else
      var first := FirstRow(rows, d, 0);
      if first.Some? && first.value in rows && rows[first.value] != "" then first else None
  }

  /** The queries: for the name's own row, and then for one tail after the other. */
  method SearchRows(rows: map<string, string>, d: string, narrowed: bool) returns (row: Option<string>)
    ensures row == Resolved(rows, d, narrowed)
  {
    var held: Option<string> := None;
    if narrowed { Hold(rows, d, 0, held); } else { PassOver(rows, d, 0); }
    var found := ReadRow(rows, d, held, narrowed);
    if found.Some? {
      if found.value != "" {
        return Some(d);
      }
      held := Some(d);
    }
    var parts := Split(d, '.');
    for i := 1 to |parts|
      invariant if narrowed then Held(rows, d, i, held) else PassedOver(rows, d, i)
    {
      var wildcard := "*." + Join(parts[i..], '.');
      if narrowed { Hold(rows, d, i, held); } else { PassOver(rows, d, i); }
      found := ReadRow(rows, wildcard, held, narrowed);
      if found.Some? {
        if found.value != "" {
          return Some(wildcard);
        }
        held := Some(wildcard);
      }
    }
    row := None;
  }

  lemma {:induction false} ResolvedIsLongest(rows: map<string, string>, d: string) returns (first: Option<string>)
    ensures RowFor(NonEmpty(rows), d, Resolved(rows, d, false))
    ensures RowFor(rows, d, first)
    ensures Resolved(rows, d, true) ==
            if first.Some? && first.value in rows && rows[first.value] != "" then first else None
  {
    FirstRowIsRowFor(rows, d);
    FirstRowIsRowFor(NonEmpty(rows), d);
    first := FirstRow(rows, d, 0);
  }

  /**
   The row a name resolves to. Rows with an empty value are passed over; but with narrowed
   queries the first row read is the last, so then an empty one resolves to nothing.
   */
  method FindResolution(rows: map<string, string>, d: string, narrowed: bool)
    returns (row: Option<string>, ghost first: Option<string>)
    ensures RowFor(rows, d, first)
    ensures !narrowed ==> RowFor(NonEmpty(rows), d, row)
    ensures narrowed ==> row == if first.Some? && first.value in rows && rows[first.value] != "" then first else None
  {
    row := SearchRows(rows, d, narrowed);
    first := ResolvedIsLongest(rows, d);
  }

  lemma {:induction false} NoRow(rows: map<string, string>, d: string)
    requires d !in rows && forall j :: 1 <= j < |Split(d, '.')| ==> "*." + Tail(d, j) !in rows
    ensures RowFor(rows, d, None)
  {
    forall w | "*." + w in rows ensures !HasSuffix(d, "." + w) {
      if HasSuffix(d, "." + w) {
        var i := SuffixIsTail(d, w);
      }
    }
  }

  lemma {:induction false} FirstRowIsLongest(rows: map<string, string>, d: string, k: nat)
    requires 1 <= k < |Split(d, '.')| && "*." + Tail(d, k) in rows
    requires forall j :: 1 <= j < k ==> "*." + Tail(d, j) !in rows
    ensures LongestRow(rows, d, Tail(d, k))
  {
    TailIsSuffix(d, k);
    forall v | "*." + v in rows && HasSuffix(d, "." + v) ensures v == Tail(d, k) || |v| < |Tail(d, k)| {
      var i := SuffixIsTail(d, v);
      if k < i {
        TailsShrink(d, k, i);
      }
    }
  }
}
