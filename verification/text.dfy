/** Splitting, joining and comparing strings, as the Go standard library does. */
module Text {
  /** The parts of a string between separators: one more than there are separators. */
  function Split(s: string, sep: char): (parts: seq<string>)
    ensures |parts| >= 1
  {
    if s == "" then [""]
    else
      var rest := Split(s[1..], sep);
      if s[0] == sep then [""] + rest else [[s[0]] + rest[0]] + rest[1..]
  }

  function Join(parts: seq<string>, sep: char): string {
    if parts == [] then ""
    else if |parts| == 1 then parts[0]
    else parts[0] + [sep] + Join(parts[1..], sep)
  }

  predicate HasSuffix(s: string, t: string) {
    |t| <= |s| && s[|s| - |t|..] == t
  }

  function TrimSuffix(s: string, t: string): string {
    if HasSuffix(s, t) then s[..|s| - |t|] else s
  }

  lemma {:induction false} JoinOfSplit(s: string, sep: char)
    ensures Join(Split(s, sep), sep) == s
  {
    if s != "" {
      JoinOfSplit(s[1..], sep);
      var rest := Split(s[1..], sep);
      if s[0] == sep {
        assert ([""] + rest)[1..] == rest;
      } else {
        assert ([[s[0]] + rest[0]] + rest[1..])[1..] == rest[1..];
      }
    }
  }

  lemma {:induction false} SplitOfPart(part: string, sep: char)
    requires sep !in part
    ensures Split(part, sep) == [part]
  {
    if part != "" {
      SplitOfPart(part[1..], sep);
      assert part == [part[0]] + part[1..];
    }
  }

  lemma {:induction false} SplitAtSeparator(part: string, rest: string, sep: char)
    requires sep !in part
    ensures Split(part + [sep] + rest, sep) == [part] + Split(rest, sep)
  {
    var s := part + [sep] + rest;
    if part == "" {
      assert s[1..] == rest;
    } else {
      assert s[1..] == part[1..] + [sep] + rest;
      SplitAtSeparator(part[1..], rest, sep);
      assert part == [part[0]] + part[1..];
    }
  }

  /** Splitting a joined list gives it back, when no part contains the separator. */
  lemma {:induction false} SplitOfJoin(parts: seq<string>, sep: char)
    requires parts != []
    requires forall p :: p in parts ==> sep !in p
    ensures Split(Join(parts, sep), sep) == parts
  {
    if |parts| == 1 {
      SplitOfPart(parts[0], sep);
    } else {
      SplitOfJoin(parts[1..], sep);
      SplitAtSeparator(parts[0], Join(parts[1..], sep), sep);
    }
  }

  lemma {:induction false} SplitOfConcat(a: string, b: string, sep: char)
    ensures Split(a + [sep] + b, sep) == Split(a, sep) + Split(b, sep)
  {
    var s := a + [sep] + b;
    if a == "" {
      assert s[1..] == b;
    } else {
      assert s[1..] == a[1..] + [sep] + b;
      SplitOfConcat(a[1..], b, sep);
    }
  }

  /** A part without the separator survives joining and splitting, whatever the other parts are. */
  lemma {:induction false} PartSurvives(parts: seq<string>, part: string, sep: char)
    requires part in parts && sep !in part
    ensures part in Split(Join(parts, sep), sep)
  {
    SplitOfPart(part, sep);
    if |parts| > 1 {
      SplitOfConcat(parts[0], Join(parts[1..], sep), sep);
      if part != parts[0] {
        PartSurvives(parts[1..], part, sep);
      }
    }
  }

  lemma {:induction false} PartsLackSeparator(s: string, sep: char)
    ensures forall p :: p in Split(s, sep) ==> sep !in p
  {
    if s != "" {
      PartsLackSeparator(s[1..], sep);
      assert Split(s[1..], sep)[0] in Split(s[1..], sep);
    }
  }

  // ---------- label suffixes of a domain name ----------

  /** The name from its i-th label on. */
  function Tail(d: string, i: nat): string
    requires i < |Split(d, '.')|
  {
    Join(Split(d, '.')[i..], '.')
  }

  /** The name itself, or what follows one of its dots. */
  predicate LabelSuffix(d: string, w: string) {
    d == w || HasSuffix(d, "." + w)
  }

  lemma {:induction false} WholeTail(d: string)
    ensures Tail(d, 0) == d
  {
    JoinOfSplit(d, '.');
    assert Split(d, '.')[0..] == Split(d, '.');
  }

  lemma {:induction false} SuffixStep(d: string, w: string)
    requires d != ""
    ensures HasSuffix(d, "." + w) <==> (d[0] == '.' && w == d[1..]) || HasSuffix(d[1..], "." + w)
  {
    var t := "." + w;
    if |t| == |d| {
      assert d[|d| - |t|..] == d && t[0] == '.' && t[1..] == w;
      assert d == [d[0]] + d[1..];
    } else if |t| < |d| {
      assert d[|d| - |t|..] == d[1..][|d[1..]| - |t|..];
    }
  }

  lemma {:induction false} DropCons<T>(x: T, xs: seq<T>, i: nat)
    requires 1 <= i <= |xs| + 1
    ensures ([x] + xs)[i..] == xs[i - 1..]
  {
  }

  lemma {:induction false} TailStep(d: string, i: nat)
    requires d != "" && 1 <= i < |Split(d, '.')|
    ensures if d[0] == '.' then i - 1 < |Split(d[1..], '.')| && Tail(d, i) == Tail(d[1..], i - 1)
            else i < |Split(d[1..], '.')| && Tail(d, i) == Tail(d[1..], i)
  {
    var rest := Split(d[1..], '.');
    if d[0] == '.' {
      DropCons("", rest, i);
    } else {
      DropCons([d[0]] + rest[0], rest[1..], i);
      assert rest[1..][i - 1..] == rest[i..];
    }
  }

  /** Every later tail follows a dot. */
  lemma {:induction false} TailIsSuffix(d: string, i: nat)
    requires 1 <= i < |Split(d, '.')|
    ensures HasSuffix(d, "." + Tail(d, i))
    decreases |d|
  {
    TailStep(d, i);
    SuffixStep(d, Tail(d, i));
    if d[0] != '.' {
      TailIsSuffix(d[1..], i);
    } else if i == 1 {
      WholeTail(d[1..]);
    } else {
      TailIsSuffix(d[1..], i - 1);
    }
  }

  /** What follows a dot is one of the later tails. */
  lemma {:induction false} SuffixIsTail(d: string, w: string) returns (i: nat)
    requires HasSuffix(d, "." + w)
    ensures 1 <= i < |Split(d, '.')| && Tail(d, i) == w
    decreases |d|
  {
    SuffixStep(d, w);
    if d[0] == '.' && w == d[1..] {
      i := 1;
      TailStep(d, i);
      WholeTail(d[1..]);
    } else {
      var j := SuffixIsTail(d[1..], w);
      i := if d[0] == '.' then j + 1 else j;
      TailStep(d, i);
    }
  }

  /** Tails get strictly shorter. */
  lemma {:induction false} TailsShrink(d: string, i: nat, j: nat)
    requires i < j < |Split(d, '.')|
    ensures |Tail(d, j)| < |Tail(d, i)|
    decreases j
  {
    var parts := Split(d, '.');
    assert parts[j - 1..][1..] == parts[j..];
    if i < j - 1 {
      TailsShrink(d, i, j - 1);
    }
  }

  // ---------- letter case and white space (ASCII) ----------

  function Lower(c: char): char {
    if 'A' <= c <= 'Z' then c - 'A' + 'a' else c
  }

  function ToLower(s: string): (t: string)
    ensures |t| == |s|
  {
    seq(|s|, i requires 0 <= i < |s| => Lower(s[i]))
  }

  /** The same character, or a capital letter and its small one. */
  predicate SameLetter(c: char, d: char) {
    c == d || ('A' <= c <= 'Z' && d as int == c as int + 32) || ('A' <= d <= 'Z' && c as int == d as int + 32)
  }

  predicate SameIgnoringCase(s: string, t: string) {
    |s| == |t| && forall i | 0 <= i < |s| :: SameLetter(s[i], t[i])
  }

  /** Lower-casing tells strings apart exactly when they differ in more than letter case, and leaves no capitals. */
  lemma {:induction false} LowerForgetsCase(s: string, t: string)
    ensures ToLower(s) == ToLower(t) <==> SameIgnoringCase(s, t)
    ensures SameIgnoringCase(ToLower(s), s) && forall c :: c in ToLower(s) ==> !('A' <= c <= 'Z')
  {
    if ToLower(s) == ToLower(t) {
      forall i | 0 <= i < |s| ensures SameLetter(s[i], t[i]) {
        assert ToLower(s)[i] == ToLower(t)[i];
      }
    }
  }

  lemma {:induction false} LowerOfConcat(s: string, t: string)
    ensures ToLower(s + t) == ToLower(s) + ToLower(t)
  {
  }

  /** Space, or one of tab, line feed, vertical tab, form feed and carriage return. */
  predicate IsSpace(c: char) {
    c == ' ' || '\t' <= c <= '\r'
  }

  lemma {:induction false} SpacesExactly(c: char)
    ensures IsSpace(c) <==> c == ' ' || c == '\t' || c == '\n' || c as int == 11 || c as int == 12 || c == '\r'
  {
  }

  function TrimSpace(s: string): string {
    if s == "" then ""
    else if IsSpace(s[0]) then TrimSpace(s[1..])
    else if IsSpace(s[|s| - 1]) then TrimSpace(s[..|s| - 1])
    else s
  }

  ghost predicate AllSpace(s: string) {
    forall c :: c in s ==> IsSpace(c)
  }

  predicate IsTrimmed(s: string) {
    s == "" || (!IsSpace(s[0]) && !IsSpace(s[|s| - 1]))
  }

  /** What is trimmed off is white space, on either side, and none is left at the ends. */
  lemma {:induction false} TrimSplits(s: string) returns (before: string, after: string)
    ensures s == before + TrimSpace(s) + after && AllSpace(before) && AllSpace(after)
    ensures IsTrimmed(TrimSpace(s))
    decreases |s|
  {
    before, after := "", "";
    if s == "" {
    } else if IsSpace(s[0]) {
      before, after := TrimSplits(s[1..]);
      before := [s[0]] + before;
    } else if IsSpace(s[|s| - 1]) {
      before, after := TrimSplits(s[..|s| - 1]);
      after := after + [s[|s| - 1]];
    }
  }

  /** White space around a text is all that is trimmed off. */
  lemma {:induction false} TrimOfPadded(before: string, t: string, after: string)
    requires AllSpace(before) && AllSpace(after) && IsTrimmed(t)
    ensures TrimSpace(before + t + after) == t
    decreases |before| + |after|
  {
    var s := before + t + after;
    if before != "" {
      assert s[1..] == before[1..] + t + after;
      TrimOfPadded(before[1..], t, after);
    } else if after == "" {
      assert s == t;
    } else if t == "" {
      assert s[1..] == "" + t + after[1..];
      TrimOfPadded("", t, after[1..]);
    } else {
      var n := |after| - 1;
      assert s[..|s| - 1] == before + t + after[..n];
      TrimOfPadded(before, t, after[..n]);
    }
  }

  lemma {:induction false} TrimmedIsTrimmed(s: string)
    ensures TrimSpace(TrimSpace(s)) == TrimSpace(s)
    ensures forall c :: c in TrimSpace(s) ==> c in s
    decreases |s|
  {
    if s == "" {
    } else if IsSpace(s[0]) {
      TrimmedIsTrimmed(s[1..]);
    } else if IsSpace(s[|s| - 1]) {
      TrimmedIsTrimmed(s[..|s| - 1]);
    }
  }

  // ---------- order ----------

  /** Lexicographic order. */
  predicate Less(a: string, b: string) {
    b != "" && (a == "" || a[0] < b[0] || (a[0] == b[0] && Less(a[1..], b[1..])))
  }

  lemma {:induction false} LessIsTotal(a: string, b: string)
    ensures Less(a, b) || a == b || Less(b, a)
    ensures !(Less(a, b) && Less(b, a)) && !Less(a, a)
  {
    if a != "" {
      LessIsTotal(a[1..], a[1..]);
      if b != "" {
        LessIsTotal(a[1..], b[1..]);
        assert a == [a[0]] + a[1..] && b == [b[0]] + b[1..];
      }
    }
  }

  lemma {:induction false} LessIsTransitive(a: string, b: string, c: string)
    requires Less(a, b) && Less(b, c)
    ensures Less(a, c)
  {
    if a != "" && a[0] == b[0] == c[0] {
      LessIsTransitive(a[1..], b[1..], c[1..]);
    }
  }

  /** The first difference decides. */
  lemma {:induction false} LessAt(a: string, b: string, n: nat)
    requires n < |a| && n < |b| && a[..n] == b[..n] && a[n] < b[n]
    ensures Less(a, b)
  {
    if n > 0 {
      assert a[0] == a[..n][0] && b[0] == b[..n][0];
      assert a[1..][..n - 1] == a[..n][1..] && b[1..][..n - 1] == b[..n][1..];
      LessAt(a[1..], b[1..], n - 1);
    }
  }

  /** Where they first differ, the first string ends or has the smaller character. */
  ghost predicate LessFrom(a: string, b: string, n: nat) {
    && n <= |a| && n < |b| && a[..n] == b[..n]
    && (n == |a| || a[n] < b[n])
  }

  /** The order is that of the first difference, and a proper prefix comes first. */
  lemma {:induction false} LessExactly(a: string, b: string)
    ensures Less(a, b) <==> exists n: nat :: LessFrom(a, b, n)
  {
    if a != "" && b != "" && a[0] == b[0] {
      LessExactly(a[1..], b[1..]);
      forall n: nat | LessFrom(a[1..], b[1..], n) ensures LessFrom(a, b, n + 1) {
        assert a[..n + 1] == [a[0]] + a[1..][..n] && b[..n + 1] == [b[0]] + b[1..][..n];
      }
      forall n: nat | LessFrom(a, b, n) ensures n > 0 && LessFrom(a[1..], b[1..], n - 1) {
        assert n > 0 ==> a[1..][..n - 1] == a[..n][1..] && b[1..][..n - 1] == b[..n][1..];
      }
    } else {
      if Less(a, b) {
        assert LessFrom(a, b, 0);
      }
      forall n: nat | LessFrom(a, b, n) ensures n == 0 {
      }
    }
  }

  /** No entry is less than one before it. */
  ghost predicate Sorted(xs: seq<string>) {
    forall i, j :: 0 <= i < j < |xs| ==> !Less(xs[j], xs[i])
  }

  function Insert(x: string, xs: seq<string>): seq<string> {
    if xs == [] || !Less(xs[0], x) then [x] + xs else [xs[0]] + Insert(x, xs[1..])
  }

  function Sort(xs: seq<string>): seq<string> {
    if xs == [] then [] else Insert(xs[0], Sort(xs[1..]))
  }

  lemma {:induction false} NotLessIsTransitive(a: string, b: string, c: string)
    requires !Less(b, a) && !Less(c, b)
    ensures !Less(c, a)
  {
    LessIsTotal(a, b);
    LessIsTotal(b, c);
    if Less(c, a) {
      LessIsTotal(a, c);
      if a != b {
        LessIsTransitive(c, a, b);
      }
    }
  }

  lemma {:induction false} InsertKeeps(x: string, xs: seq<string>)
    ensures multiset(Insert(x, xs)) == multiset([x] + xs)
  {
    if xs != [] && Less(xs[0], x) {
      InsertKeeps(x, xs[1..]);
      assert xs == [xs[0]] + xs[1..];
    }
  }

  lemma {:induction false} PrependSorted(x: string, xs: seq<string>)
    requires Sorted(xs) && forall j :: 0 <= j < |xs| ==> !Less(xs[j], x)
    ensures Sorted([x] + xs)
  {
  }

  lemma {:induction false} InsertSorts(x: string, xs: seq<string>)
    requires Sorted(xs)
    ensures Sorted(Insert(x, xs))
  {
    if xs == [] {
    } else if Less(xs[0], x) {
      InsertSorts(x, xs[1..]);
      var rest := Insert(x, xs[1..]);
      LessIsTotal(x, xs[0]);
      forall j | 0 <= j < |rest| ensures !Less(rest[j], xs[0]) {
        InsertKeeps(x, xs[1..]);
        assert rest[j] in multiset([x] + xs[1..]);
      }
      PrependSorted(xs[0], rest);
    } else {
      forall j | 0 <= j < |xs| ensures !Less(xs[j], x) {
        LessIsTotal(xs[0], xs[0]);
        NotLessIsTransitive(x, xs[0], xs[j]);
      }
      PrependSorted(x, xs);
    }
  }

  lemma {:induction false} SortSorts(xs: seq<string>)
    ensures Sorted(Sort(xs)) && multiset(Sort(xs)) == multiset(xs)
  {
    if xs != [] {
      SortSorts(xs[1..]);
      InsertSorts(xs[0], Sort(xs[1..]));
      InsertKeeps(xs[0], Sort(xs[1..]));
      assert xs == [xs[0]] + xs[1..];
    }
  }

  /** A sorted list is determined by its multiset. */
  lemma {:induction false} SortedIsUnique(xs: seq<string>, ys: seq<string>)
    requires Sorted(xs) && Sorted(ys) && multiset(xs) == multiset(ys)
    ensures xs == ys
  {
    if xs == [] {
      assert |ys| == |multiset(ys)| == 0;
    } else {
      WithoutHead(xs);
      assert |ys| == |multiset(ys)|;
      WithoutHead(ys);
      HeadIsLeast(xs, ys[0]);
      HeadIsLeast(ys, xs[0]);
      LessIsTotal(xs[0], ys[0]);
      SortedIsUnique(xs[1..], ys[1..]);
      assert xs == [xs[0]] + xs[1..] && ys == [ys[0]] + ys[1..];
    }
  }

  lemma {:induction false} WithoutHead(xs: seq<string>)
    requires xs != []
    ensures xs[0] in multiset(xs) && multiset(xs[1..]) == multiset(xs) - multiset{xs[0]}
  {
    assert xs == [xs[0]] + xs[1..];
  }

  lemma {:induction false} HeadIsLeast(xs: seq<string>, x: string)
    requires Sorted(xs) && x in multiset(xs)
    ensures !Less(x, xs[0])
  {
    var i :| 0 <= i < |xs| && xs[i] == x;
    LessIsTotal(x, x);
  }

  /** Sorting is canonical. */
  lemma {:induction false} SortIsCanonical(xs: seq<string>, ys: seq<string>)
    ensures Sort(xs) == Sort(ys) <==> multiset(xs) == multiset(ys)
  {
    SortSorts(xs);
    SortSorts(ys);
    if multiset(xs) == multiset(ys) {
      SortedIsUnique(Sort(xs), Sort(ys));
    }
  }
}
