/** Detecting that a remote block list differs from the stored one. */
module ListUpdate {
  import opened Wrappers
  import opened Collections
  import opened Text

  // ---------- checksums ----------

  /** The digest of the sorted list, one domain a line. */
  function Checksum(hash: string -> string, domains: seq<string>): string {
    hash(Join(Sort(domains), '\n'))
  }

  ghost predicate CollisionFree(hash: string -> string) {
    forall a, b :: hash(a) == hash(b) ==> a == b
  }

  /** What a list of domains holds: no empty one, and none with a line break. */
  predicate IsLine(d: string) {
    d != "" && '\n' !in d
  }

  ghost predicate AllLines(domains: seq<string>) {
    forall d :: d in domains ==> IsLine(d)
  }

  lemma {:induction false} JoinedIsEmpty(parts: seq<string>)
    requires AllLines(parts)
    ensures Join(parts, '\n') == "" <==> parts == []
  {
    assert parts != [] ==> parts[0] in parts;
  }

  lemma {:induction false} JoinIsInjective(a: seq<string>, b: seq<string>)
    requires AllLines(a) && AllLines(b)
    ensures Join(a, '\n') == Join(b, '\n') <==> a == b
  {
    JoinedIsEmpty(a);
    JoinedIsEmpty(b);
    if a != [] && b != [] {
      SplitOfJoin(a, '\n');
      SplitOfJoin(b, '\n');
    }
  }

  lemma {:induction false} SortedLines(domains: seq<string>)
    requires AllLines(domains)
    ensures AllLines(Sort(domains))
  {
    SortSorts(domains);
    forall d | d in Sort(domains) ensures IsLine(d) {
      assert d in multiset(domains);
    }
  }

  /** Checksums are equal exactly for lists with the same domains, counting repetitions, in any order. */
  lemma {:induction false} ChecksumIsExact(hash: string -> string, a: seq<string>, b: seq<string>)
    requires CollisionFree(hash) && AllLines(a) && AllLines(b)
    ensures Checksum(hash, a) == Checksum(hash, b) <==> multiset(a) == multiset(b)
  {
    SortedLines(a);
    SortedLines(b);
    JoinIsInjective(Sort(a), Sort(b));
    SortIsCanonical(a, b);
  }

  // ---------- differences ----------

  function ToSet(xs: seq<string>): set<string> {
    set x | x in xs
  }

  /** The entries of a that are not in b, in their order. */
  function Minus(a: seq<string>, b: set<string>): seq<string> {
    if a == [] then []
    else
      var n := |a| - 1;
      Minus(a[..n], b) + if a[n] in b then [] else [a[n]]
  }

  lemma {:induction false} MinusIsDifference(a: seq<string>, b: set<string>)
    ensures ToSet(Minus(a, b)) == ToSet(a) - b
  {
    if a != [] {
      var n := |a| - 1;
      MinusIsDifference(a[..n], b);
      assert a == a[..n] + [a[n]];
      assert ToSet(a) == ToSet(a[..n]) + {a[n]};
      assert ToSet(Minus(a, b)) == ToSet(Minus(a[..n], b)) + if a[n] in b then {} else {a[n]};
    }
  }

  /** What is left is left as often as it was there, */
  lemma {:induction false} MinusCounts(a: seq<string>, b: set<string>, x: string)
    ensures multiset(Minus(a, b))[x] == if x in b then 0 else multiset(a)[x]
  {
    if a != [] {
      var n := |a| - 1;
      MinusCounts(a[..n], b, x);
      assert a == a[..n] + [a[n]];
      OneMore(a[..n], a[n], x);
      OneMore(Minus(a[..n], b), a[n], x);
    }
  }

  /** and in the order in which it stood there, so differences of sorted lists are sorted. */
  lemma {:induction false} MinusStaysSorted(a: seq<string>, b: set<string>)
    requires Sorted(a)
    ensures Sorted(Minus(a, b))
  {
    if a != [] {
      var n := |a| - 1;
      var left := Minus(a[..n], b);
      MinusStaysSorted(a[..n], b);
      forall i | 0 <= i < |left| ensures !Less(a[n], left[i]) {
        assert left[i] in ToSet(left);
        MinusIsDifference(a[..n], b);
        assert left[i] in a[..n];
      }
    }
  }

  datatype Update = Update(added: seq<string>, removed: seq<string>)

  method Diff(a: seq<string>, b: seq<string>) returns (diff: seq<string>)
    ensures diff == Minus(a, ToSet(b))
  {
    var known: set<string> := {};
    for i := 0 to |b|
      invariant known == ToSet(b[..i])
    {
      known := known + {b[i]};
      assert b[..i + 1] == b[..i] + [b[i]];
    }
    assert b[..|b|] == b;
    diff := [];
    for i := 0 to |a|
      invariant diff == Minus(a[..i], ToSet(b))
    {
      if a[i] !in known {
        diff := diff + [a[i]];
      }
      assert a[..i + 1][..i] == a[..i];
    }
    assert a[..|a|] == a;
  }

  datatype FetchError = RemoteFailed | StoredFailed

  /**
   None stands for a list that could not be fetched. Taking the checksums sorts both lists in
   place, before the differences are taken.
   */
  method CheckIfUpdateAvailable(hash: string -> string, remote: Option<seq<string>>, stored: Option<seq<string>>)
    returns (r: Result<Option<Update>, FetchError>)
    ensures remote.None? <==> r == Failure(RemoteFailed)
    ensures remote.Some? && stored.None? <==> r == Failure(StoredFailed)
    ensures r.Success? ==>
              && (r.value == None <==> Checksum(hash, remote.value) == Checksum(hash, stored.value))
              && (r.value.Some? ==>
                    && r.value.value.added == Minus(Sort(remote.value), ToSet(stored.value))
                    && r.value.value.removed == Minus(Sort(stored.value), ToSet(remote.value)))
  {
    if remote.None? {
      return Failure(RemoteFailed);
    }
    if stored.None? {
      return Failure(StoredFailed);
    }
    var remoteDomains, storedDomains := Sort(remote.value), Sort(stored.value);
    if hash(Join(remoteDomains, '\n')) == hash(Join(storedDomains, '\n')) {
      return Success(None);
    }
    SameSet(remote.value);
    SameSet(stored.value);
    var added := Diff(remoteDomains, storedDomains);
    var removed := Diff(storedDomains, remoteDomains);
    r := Success(Some(Update(added, removed)));
  }

  lemma {:induction false} SameSet(xs: seq<string>)
    ensures ToSet(Sort(xs)) == ToSet(xs)
  {
    SortSorts(xs);
    forall x ensures x in Sort(xs) <==> x in xs {
      assert x in Sort(xs) <==> x in multiset(Sort(xs));
      assert x in xs <==> x in multiset(xs);
    }
  }

  /** Applying the differences to the stored list gives the remote one. */
  lemma {:induction false} DiffIsComplete(remote: seq<string>, stored: seq<string>)
    ensures var added, removed := Minus(Sort(remote), ToSet(stored)), Minus(Sort(stored), ToSet(remote));
            && (ToSet(stored) - ToSet(removed)) + ToSet(added) == ToSet(remote)
            && ToSet(added) !! ToSet(stored) && ToSet(removed) <= ToSet(stored)
            && (added == [] && removed == [] <==> ToSet(remote) == ToSet(stored))
  {
    var added, removed := Minus(Sort(remote), ToSet(stored)), Minus(Sort(stored), ToSet(remote));
    SameSet(remote);
    SameSet(stored);
    MinusIsDifference(Sort(remote), ToSet(stored));
    MinusIsDifference(Sort(stored), ToSet(remote));
    EmptySet(added);
    EmptySet(removed);
  }

  lemma {:induction false} EmptySet(xs: seq<string>)
    ensures ToSet(xs) == {} <==> xs == []
  {
    assert xs != [] ==> xs[0] in ToSet(xs);
  }

  lemma {:induction false} DistinctCounts(xs: seq<string>)
    requires Distinct(xs)
    ensures multiset(xs) == multiset(ToSet(xs))
  {
    if xs != [] {
      var n := |xs| - 1;
      DistinctCounts(xs[..n]);
      assert xs == xs[..n] + [xs[n]];
      assert xs[n] !in ToSet(xs[..n]);
      assert ToSet(xs) == ToSet(xs[..n]) + {xs[n]};
    }
  }

  /**
   An announced update has nothing to show exactly when the two lists have the same domains
   with different repetitions; so never for lists without repetitions.
   */
  lemma {:induction false} UpdateShowsExactly(hash: string -> string, remote: seq<string>, stored: seq<string>)
    requires CollisionFree(hash) && AllLines(remote) && AllLines(stored)
    requires Checksum(hash, remote) != Checksum(hash, stored)
    ensures var added, removed := Minus(Sort(remote), ToSet(stored)), Minus(Sort(stored), ToSet(remote));
            && (added == [] && removed == [] <==>
                ToSet(remote) == ToSet(stored) && multiset(remote) != multiset(stored))
            && (Distinct(remote) && Distinct(stored) ==> added != [] || removed != [])
  {
    ChecksumIsExact(hash, remote, stored);
    DiffIsComplete(remote, stored);
    if Distinct(remote) && Distinct(stored) {
      DistinctCounts(remote);
      DistinctCounts(stored);
    }
  }

  // ---------- reading a hosts file ----------

  /** The domain a line of white-space separated fields names, if it names one. */
  function DomainOf(fields: seq<string>): Option<string> {
    if |fields| == 0 || "#" <= fields[0] then None
    else if fields[0] in {"0.0.0.0", "127.0.0.1"} then
      if |fields| > 1 && fields[1] !in {"localhost", "localhost.localdomain", "broadcasthost", "local", "0.0.0.0"}
      then Some(fields[1]) else None
    else Some(fields[0])
  }

  /** The addresses that stand before a domain in a hosts file. */
  predicate IsHostsAddress(field: string) {
    field == "0.0.0.0" || field == "127.0.0.1"
  }

  /** Names that a hosts file has for the machine itself. */
  predicate IsReserved(name: string) {
    || name == "localhost" || name == "localhost.localdomain" || name == "broadcasthost" || name == "local"
    || name == "0.0.0.0"
  }

  predicate IsComment(field: string) {
    field != "" && field[0] == '#'
  }

  /**
   The domain of a hosts line is the second field, unless that is reserved; that of any other
   line is the first. Comments, empty lines and addresses alone name none. No line names 0.0.0.0.
   */
  lemma {:induction false} DomainOfExactly(fields: seq<string>, d: string)
    ensures DomainOf(fields) == Some(d) <==>
            || (fields != [] && fields[0] == d && !IsComment(d) && !IsHostsAddress(d))
            || (|fields| > 1 && IsHostsAddress(fields[0]) && fields[1] == d && !IsReserved(d))
    ensures DomainOf(fields) == Some(d) ==> d != "0.0.0.0"
  {
    assert fields != [] ==> ("#" <= fields[0] <==> IsComment(fields[0]));
  }

  /** Line k is the first that names the domain. */
  ghost predicate FirstAt(lines: seq<seq<string>>, d: string, k: nat) {
    && k < |lines| && DomainOf(lines[k]) == Some(d)
    && (forall j :: 0 <= j < k ==> DomainOf(lines[j]) != Some(d))
  }

  datatype ParseError = ReadFailed | NoDomains

  /** Every domain named by the lines, once each, in the order in which they first come. */
  method ExtractDomains(lines: seq<seq<string>>, readable: bool)
    returns (r: Result<seq<string>, ParseError>, ghost at: seq<nat>)
    ensures !readable <==> r == Failure(ReadFailed)
    ensures r == Failure(NoDomains) <==> readable && forall i :: 0 <= i < |lines| ==> DomainOf(lines[i]) == None
    ensures r.Success? ==>
              && "0.0.0.0" !in r.value
              && (forall i, d :: 0 <= i < |lines| && DomainOf(lines[i]) == Some(d) ==> d in r.value)
              && |at| == |r.value|
              && (forall i :: 0 <= i < |at| ==> FirstAt(lines, r.value[i], at[i]))
              && (forall i, j :: 0 <= i < j < |at| ==> at[i] < at[j])
  {
    var seen: set<string> := {};
    var domains: seq<string> := [];
    at := [];
    for k := 0 to |lines|
      invariant forall d :: d in domains <==> d in seen
      invariant forall i, d :: 0 <= i < k && DomainOf(lines[i]) == Some(d) ==> d in seen
      invariant |at| == |domains|
      invariant forall i :: 0 <= i < |at| ==> at[i] < k && FirstAt(lines, domains[i], at[i])
      invariant forall i, j :: 0 <= i < j < |at| ==> at[i] < at[j]
    {
      var fields := lines[k];
      if |fields| == 0 || "#" <= fields[0] {
        continue;
      }
      var domain := fields[0];
      if (domain == "0.0.0.0" || domain == "127.0.0.1") && |fields| > 1 {
        domain := fields[1];
        if domain in {"localhost", "localhost.localdomain", "broadcasthost", "local", "0.0.0.0"} {
          continue;
        }
      } else if domain == "0.0.0.0" || domain == "127.0.0.1" {
        continue;
      }
      assert DomainOf(fields) == Some(domain);
      if domain !in seen {
        assert FirstAt(lines, domain, k);
        seen := seen + {domain};
        domains := domains + [domain];
        at := at + [k];
      }
    }
    if !readable {
      return Failure(ReadFailed), at;
    }
    if domains == [] {
      return Failure(NoDomains), at;
    }
    assert FirstAt(lines, domains[0], at[0]);
    forall d | d in domains ensures d != "0.0.0.0" {
      var i :| 0 <= i < |domains| && domains[i] == d;
      DomainOfExactly(lines[at[i]], d);
    }
    r := Success(domains);
  }

}
