/** API keys: the table, the cache in front of it, and the scope check that falls back to the table. */
module ApiKeys {
  import opened Wrappers
  import opened Text

  /** A row of the table; its scopes are one comma-separated text. */
  datatype Row = Row(name: string, key: string, scopes: string)

  datatype Entry = Entry(name: string, scopes: seq<string>)

  /** The cache is by key. CacheTime is when it was last read from the table, if it was. */
  datatype State = State(rows: seq<Row>, cache: map<string, Entry>, cacheTime: Option<int>)

  /** An hour, in nanoseconds. */
  const CACHE_TTL: int := 3_600_000_000_000

  // ---------- scopes ----------

  predicate Grants(scopes: seq<string>, required: string) {
    required in scopes || "admin" in scopes
  }

  function Trimmed(parts: seq<string>): seq<string> {
    seq(|parts|, i requires 0 <= i < |parts| => TrimSpace(parts[i]))
  }

  /** How a reload reads the text of a row. */
  function Parsed(text: string): seq<string> {
    if text == "" then [] else Trimmed(Split(text, ','))
  }

  /** How the fallback reads the text of a row. */
  predicate TextGrants(text: string, required: string) {
    Grants(Trimmed(Split(text, ',')), required)
  }

  /** One of the parts is this scope, but for outer space. */
  ghost predicate HasPart(parts: seq<string>, scope: string) {
    exists i :: 0 <= i < |parts| && TrimSpace(parts[i]) == scope
  }

  lemma {:induction false} TrimmedHas(parts: seq<string>, scope: string)
    ensures scope in Trimmed(parts) <==> HasPart(parts, scope)
  {
    if HasPart(parts, scope) {
      var i :| 0 <= i < |parts| && TrimSpace(parts[i]) == scope;
      assert Trimmed(parts)[i] == scope;
    }
  }

  /** A text grants a scope exactly when it, or admin, is one of its parts. */
  lemma {:induction false} TextGrantsExactly(text: string, required: string)
    ensures TextGrants(text, required) <==>
            HasPart(Split(text, ','), required) || HasPart(Split(text, ','), "admin")
  {
    TrimmedHas(Split(text, ','), required);
    TrimmedHas(Split(text, ','), "admin");
  }

  /** The two readings differ only on an empty scope asked of a key without scopes: the fallback grants it. */
  lemma {:induction false} ReadingsDiffer(text: string, required: string)
    ensures (Grants(Parsed(text), required) <==> TextGrants(text, required)) <==> !(text == "" && required == "")
  {
    if text == "" {
      assert Trimmed(Split("", ',')) == [""];
    }
  }

  /** The cached scopes and the text of the row answer every check for a scope alike. */
  ghost predicate SameAnswers(scopes: seq<string>, text: string) {
    forall required :: required != "" ==> (Grants(scopes, required) <==> TextGrants(text, required))
  }

  /** A scope that storing and reading back leaves alone. */
  predicate IsPlain(scope: string) {
    ',' !in scope && TrimSpace(scope) == scope
  }

  ghost predicate AreSafe(scopes: seq<string>) {
    "admin" in scopes || forall s :: s in scopes ==> IsPlain(s)
  }

  lemma {:induction false} ReadScopesArePlain(text: string)
    ensures forall s :: s in Trimmed(Split(text, ',')) ==> IsPlain(s)
  {
    var parts := Split(text, ',');
    PartsLackSeparator(text, ',');
    forall i | 0 <= i < |parts| ensures IsPlain(TrimSpace(parts[i])) {
      TrimmedIsTrimmed(parts[i]);
    }
  }

  lemma {:induction false} PlainScopesReadBack(scopes: seq<string>)
    requires forall s :: s in scopes ==> IsPlain(s)
    ensures Trimmed(Split(Join(scopes, ','), ',')) == if scopes == [] then [""] else scopes
  {
    if scopes != [] {
      SplitOfJoin(scopes, ',');
      assert Trimmed(scopes) == scopes by {
        assert forall i :: 0 <= i < |scopes| ==> IsPlain(scopes[i]);
      }
    } else {
      assert Trimmed(Split("", ',')) == [""];
    }
  }

  lemma {:induction false} PlainScopeReadsBack(scopes: seq<string>, s: string)
    requires s in scopes && IsPlain(s)
    ensures s in Trimmed(Split(Join(scopes, ','), ','))
  {
    PartSurvives(scopes, s, ',');
    var parts := Split(Join(scopes, ','), ',');
    var i :| 0 <= i < |parts| && parts[i] == s;
    assert Trimmed(parts)[i] == s;
  }

  /**
   Creating a key caches the list as it was given. That agrees with the stored text exactly
   when the list has the admin scope, or every scope is free of commas and of outer space.
   */
  lemma {:induction false} RawScopesAgreeExactly(scopes: seq<string>)
    ensures SameAnswers(scopes, Join(scopes, ',')) <==> AreSafe(scopes)
  {
    var text := Join(scopes, ',');
    var read := Trimmed(Split(text, ','));
    if "admin" in scopes {
      PlainScopeReadsBack(scopes, "admin");
    } else if AreSafe(scopes) {
      PlainScopesReadBack(scopes);
    } else {
      ReadScopesArePlain(text);
      var s :| s in scopes && !IsPlain(s);
      var asked := if "admin" in read then "admin" else s;
      assert Grants(scopes, asked) != TextGrants(text, asked);
    }
  }

  // ---------- the service ----------

  function RowOf(rows: seq<Row>, key: string): Option<Row> {
    if rows == [] then None
    else if rows[0].key == key then Some(rows[0])
    else RowOf(rows[1..], key)
  }

  function WithoutName(rows: seq<Row>, name: string): seq<Row> {
    if rows == [] then []
    else (if rows[0].name == name then [] else [rows[0]]) + WithoutName(rows[1..], name)
  }

  function Rebuilt(rows: seq<Row>): map<string, Entry> {
    if rows == [] then map[]
    else
      var n := |rows| - 1;
      Rebuilt(rows[..n])[rows[n].key := Entry(rows[n].name, Parsed(rows[n].scopes))]
  }

  predicate IsFresh(s: State, now: int) {
    s.cacheTime.Some? && now - s.cacheTime.value < CACHE_TTL && |s.cache| > 0
  }

  /** The second result says whether the cache may be used. */
  function Refresh(s: State, now: int, ok: bool): (State, bool) {
    if IsFresh(s, now) then (s, true)
    else if ok then (State(s.rows, Rebuilt(s.rows), Some(now)), true)
    else (s, false)
  }

  /** Which reads of the table succeed. */
  datatype Io = Io(findAll: bool, findByKey: bool)

  function Verify(s: State, now: int, io: Io, key: string, required: string): (State, bool) {
    var (t, ok) := Refresh(s, now, io.findAll);
    if ok then (t, key in t.cache && Grants(t.cache[key].scopes, required))
    else
      var row := if io.findByKey then RowOf(t.rows, key) else None;
      (t, row.Some? && TextGrants(row.value.scopes, required))
  }

  /** Name and key are unique in the table. */
  predicate CanCreate(rows: seq<Row>, name: string, key: string) {
    forall r :: r in rows ==> r.name != name && r.key != key
  }

  function Create(s: State, name: string, key: string, scopes: seq<string>): State {
    State(s.rows + [Row(name, key, Join(scopes, ','))], s.cache[key := Entry(name, scopes)], s.cacheTime)
  }

  function WithoutEntry(cache: map<string, Entry>, name: string): map<string, Entry> {
    map k | k in cache && cache[k].name != name :: cache[k]
  }

  function Delete(s: State, name: string, now: int, ok: bool): State {
    Refresh(State(WithoutName(s.rows, name), WithoutEntry(s.cache, name), s.cacheTime), now, ok).0
  }

  /** Calls of the service, with the key that is drawn and the database accesses that succeed. */
  datatype Event =
    | CreateKey(name: string, key: string, scopes: seq<string>, ok: bool)
    | DeleteKey(name: string, now: int, deleted: bool, ok: bool)
    | VerifyKeyScope(now: int, io: Io, key: string, required: string)
    | GetAllKeys(now: int, ok: bool)

  function Step(s: State, e: Event): State {
    match e
    case CreateKey(name, key, scopes, ok) =>
      if ok && CanCreate(s.rows, name, key) then Create(s, name, key, scopes) else s
    case DeleteKey(name, now, deleted, ok) =>
      if deleted then Delete(s, name, now, ok) else s
    case VerifyKeyScope(now, io, key, required) => Verify(s, now, io, key, required).0
    case GetAllKeys(now, ok) => Refresh(s, now, ok).0
  }

  function Run(s: State, events: seq<Event>): State {
    if events == [] then s
    else Step(Run(s, events[..|events| - 1]), events[|events| - 1])
  }

  // ---------- what every call keeps ----------

  ghost predicate UniqueRows(rows: seq<Row>) {
    forall r, q :: r in rows && q in rows && (r.name == q.name || r.key == q.key) ==> r == q
  }

  ghost predicate EntryHasRow(s: State, key: string)
    requires key in s.cache
  {
    exists r :: r in s.rows && r.key == key && r.name == s.cache[key].name
  }

  /** Every cached key is in the table under the same name, and all keys are cached once the table was read. */
  ghost predicate Linked(s: State) {
    && UniqueRows(s.rows)
    && (forall k :: k in s.cache ==> EntryHasRow(s, k))
    && (s.cacheTime.Some? ==> forall r :: r in s.rows ==> r.key in s.cache)
  }

  ghost predicate Agreeing(s: State) {
    forall r :: r in s.rows && r.key in s.cache ==> SameAnswers(s.cache[r.key].scopes, r.scopes)
  }

  lemma {:induction false} RowIsFound(rows: seq<Row>, r: Row)
    requires UniqueRows(rows) && r in rows
    ensures RowOf(rows, r.key) == Some(r)
  {
    if rows[0].key != r.key {
      RowIsFound(rows[1..], r);
    } else {
      assert rows[0] in rows;
    }
  }

  lemma {:induction false} FoundIsRow(rows: seq<Row>, key: string)
    ensures match RowOf(rows, key)
            case Some(r) => r in rows && r.key == key
            case None => forall r :: r in rows ==> r.key != key
  {
    if rows != [] && rows[0].key != key {
      FoundIsRow(rows[1..], key);
    }
  }

  lemma {:induction false} WithoutNameKeeps(rows: seq<Row>, name: string)
    ensures forall r :: r in WithoutName(rows, name) <==> r in rows && r.name != name
  {
    if rows != [] {
      WithoutNameKeeps(rows[1..], name);
      assert rows == [rows[0]] + rows[1..];
    }
  }

  lemma {:induction false} RebuiltHolds(rows: seq<Row>)
    requires UniqueRows(rows)
    ensures forall r :: r in rows ==> r.key in Rebuilt(rows) && Rebuilt(rows)[r.key] == Entry(r.name, Parsed(r.scopes))
    ensures forall k :: k in Rebuilt(rows) ==> exists r :: r in rows && r.key == k
  {
    if rows != [] {
      var n := |rows| - 1;
      RebuiltHolds(rows[..n]);
      assert rows == rows[..n] + [rows[n]];
    }
  }

  lemma {:induction false} ReloadAgrees(s: State, now: int)
    requires UniqueRows(s.rows)
    ensures var t := State(s.rows, Rebuilt(s.rows), Some(now)); Linked(t) && Agreeing(t)
  {
    var t := State(s.rows, Rebuilt(s.rows), Some(now));
    RebuiltHolds(s.rows);
    forall k | k in t.cache ensures EntryHasRow(t, k) {
      var r :| r in s.rows && r.key == k;
    }
    forall r | r in t.rows ensures SameAnswers(t.cache[r.key].scopes, r.scopes) {
      forall required | required != "" ensures Grants(Parsed(r.scopes), required) <==> TextGrants(r.scopes, required) {
        ReadingsDiffer(r.scopes, required);
      }
    }
  }

  lemma {:induction false} RefreshKeeps(s: State, now: int, ok: bool)
    requires Linked(s)
    ensures Linked(Refresh(s, now, ok).0)
    ensures Agreeing(s) ==> Agreeing(Refresh(s, now, ok).0)
  {
    ReloadAgrees(s, now);
  }

  lemma {:induction false} CreateKeepsAgreeing(s: State, name: string, key: string, scopes: seq<string>)
    requires Agreeing(s) && CanCreate(s.rows, name, key) && AreSafe(scopes)
    ensures Agreeing(Create(s, name, key, scopes))
  {
    RawScopesAgreeExactly(scopes);
    var t := Create(s, name, key, scopes);
    forall r | r in t.rows && r.key in t.cache ensures SameAnswers(t.cache[r.key].scopes, r.scopes) {
      if r in s.rows {
        assert r.key != key && t.cache[r.key] == s.cache[r.key];
      }
    }
  }

  lemma {:induction false} RemovalKeeps(s: State, name: string)
    requires Linked(s)
    ensures var t := State(WithoutName(s.rows, name), WithoutEntry(s.cache, name), s.cacheTime);
            Linked(t) && (Agreeing(s) ==> Agreeing(t))
  {
    var t := State(WithoutName(s.rows, name), WithoutEntry(s.cache, name), s.cacheTime);
    WithoutNameKeeps(s.rows, name);
    forall k | k in t.cache ensures EntryHasRow(t, k) {
      assert EntryHasRow(s, k);
    }
    forall r | r in t.rows && r.key in s.cache ensures s.cache[r.key].name == r.name {
      assert EntryHasRow(s, r.key);
    }
  }

  lemma {:induction false} StepKeeps(s: State, e: Event)
    requires Linked(s)
    ensures Linked(Step(s, e))
    ensures Agreeing(s) && (e.CreateKey? ==> AreSafe(e.scopes)) ==> Agreeing(Step(s, e))
  {
    match e
    case CreateKey(name, key, scopes, ok) =>
      if ok && CanCreate(s.rows, name, key) {
        if Agreeing(s) && AreSafe(scopes) {
          CreateKeepsAgreeing(s, name, key, scopes);
        }
      }
    case DeleteKey(name, now, deleted, ok) =>
      RemovalKeeps(s, name);
      RefreshKeeps(State(WithoutName(s.rows, name), WithoutEntry(s.cache, name), s.cacheTime), now, ok);
    case VerifyKeyScope(now, io, key, required) => RefreshKeeps(s, now, io.findAll);
    case GetAllKeys(now, ok) => RefreshKeeps(s, now, ok);
  }

  /** A service just started: nothing is cached. */
  ghost predicate IsInitial(s: State) {
    UniqueRows(s.rows) && s.cache == map[] && s.cacheTime == None
  }

  lemma {:induction false} RunKeeps(s: State, events: seq<Event>)
    requires IsInitial(s)
    ensures Linked(Run(s, events))
    ensures (forall e :: e in events && e.CreateKey? ==> AreSafe(e.scopes)) ==> Agreeing(Run(s, events))
  {
    if events != [] {
      var n := |events| - 1;
      RunKeeps(s, events[..n]);
      StepKeeps(Run(s, events[..n]), events[n]);
    }
  }

  // ---------- the answer ----------

  /** What the table alone says. */
  ghost predicate TableGrants(rows: seq<Row>, key: string, required: string) {
    exists r :: r in rows && r.key == key && TextGrants(r.scopes, required)
  }

  /** The table can be asked, in full or for the one key, or need not be. */
  predicate CanAnswer(s: State, now: int, io: Io) {
    IsFresh(s, now) || io.findAll || io.findByKey
  }

  lemma {:induction false} AnswerFollowsTable(s: State, now: int, io: Io, key: string, required: string)
    requires Linked(s) && Agreeing(s) && required != ""
    ensures Verify(s, now, io, key, required).1 <==> CanAnswer(s, now, io) && TableGrants(s.rows, key, required)
  {
    RefreshKeeps(s, now, io.findAll);
    var (t, ok) := Refresh(s, now, io.findAll);
    FoundIsRow(t.rows, key);
    if ok && key in t.cache {
      assert EntryHasRow(t, key);
      var r :| r in t.rows && r.key == key;
      assert SameAnswers(t.cache[key].scopes, r.scopes);
    } else if TableGrants(s.rows, key, required) {
      var r :| r in s.rows && r.key == key && TextGrants(r.scopes, required);
      RowIsFound(t.rows, r);
    }
  }

  /**
   Over every run with safe scopes, whichever database accesses fail and whatever the clock
   says, a check for a scope gives the table's answer, on the cached and on the fallback path;
   only when all three ways fail it refuses.
   */
  lemma {:induction false} VerifyFollowsTable(s: State, events: seq<Event>, now: int, io: Io, key: string,
                                              required: string)
    requires IsInitial(s) && required != ""
    requires forall e :: e in events && e.CreateKey? ==> AreSafe(e.scopes)
    ensures var t := Run(s, events);
            Verify(t, now, io, key, required).1 <==> CanAnswer(t, now, io) && TableGrants(t.rows, key, required)
  {
    RunKeeps(s, events);
    AnswerFollowsTable(Run(s, events), now, io, key, required);
  }

  /** Until the cache is read again, a created key is answered as the table would exactly when its scopes are safe. */
  lemma {:induction false} CreatedKeyAgreesExactly(s: State, name: string, key: string, scopes: seq<string>, now: int,
                                                   io: Io)
    requires Linked(s) && CanCreate(s.rows, name, key)
    requires s.cacheTime.Some? && now - s.cacheTime.value < CACHE_TTL
    ensures var t := Create(s, name, key, scopes);
            (forall required :: required != "" ==>
               (Verify(t, now, io, key, required).1 <==> TableGrants(t.rows, key, required))) <==> AreSafe(scopes)
  {
    var t := Create(s, name, key, scopes);
    var row := Row(name, key, Join(scopes, ','));
    assert row in t.rows && key in t.cache && |t.cache| > 0;
    assert IsFresh(t, now);
    RawScopesAgreeExactly(scopes);
    forall required ensures TableGrants(t.rows, key, required) <==> TextGrants(row.scopes, required) {
    }
    forall required ensures Verify(t, now, io, key, required).1 <==> Grants(scopes, required) {
    }
  }

  ghost predicate HasKey(rows: seq<Row>, key: string) {
    exists r :: r in rows && r.key == key
  }

  lemma {:induction false} AbsentKeyIsRefused(s: State, now: int, io: Io, key: string, required: string)
    requires Linked(s) && !HasKey(s.rows, key)
    ensures !Verify(s, now, io, key, required).1
  {
    RefreshKeeps(s, now, io.findAll);
    var t := Refresh(s, now, io.findAll).0;
    assert key in t.cache ==> EntryHasRow(t, key);
    FoundIsRow(t.rows, key);
  }

  lemma {:induction false} DeletedKeyIsAbsent(s: State, row: Row, now: int, ok: bool)
    requires Linked(s) && row in s.rows
    ensures Linked(Delete(s, row.name, now, ok)) && !HasKey(Delete(s, row.name, now, ok).rows, row.key)
  {
    RemovalKeeps(s, row.name);
    RefreshKeeps(State(WithoutName(s.rows, row.name), WithoutEntry(s.cache, row.name), s.cacheTime), now, ok);
    WithoutNameKeeps(s.rows, row.name);
  }

  /** No call draws this key again. */
  ghost predicate NeverDrawn(events: seq<Event>, key: string) {
    forall e :: e in events && e.CreateKey? ==> e.key != key
  }

  lemma {:induction false} StepKeepsAbsent(s: State, e: Event, key: string)
    requires Linked(s) && !HasKey(s.rows, key) && (e.CreateKey? ==> e.key != key)
    ensures Linked(Step(s, e)) && !HasKey(Step(s, e).rows, key)
  {
    StepKeeps(s, e);
    if e.DeleteKey? {
      WithoutNameKeeps(s.rows, e.name);
    }
  }

  lemma {:induction false} RunKeepsAbsent(s: State, events: seq<Event>, key: string)
    requires Linked(s) && !HasKey(s.rows, key) && NeverDrawn(events, key)
    ensures Linked(Run(s, events)) && !HasKey(Run(s, events).rows, key)
  {
    if events != [] {
      var n := |events| - 1;
      assert events[n] in events && forall e :: e in events[..n] ==> e in events;
      RunKeepsAbsent(s, events[..n], key);
      StepKeepsAbsent(Run(s, events[..n]), events[n], key);
    }
  }

  /**
   A deleted key is refused from then on, through every run in which it is not drawn again,
   even if the table cannot be read any more.
   */
  lemma {:induction false} DeletedKeyIsRefused(s: State, row: Row, now: int, ok: bool, events: seq<Event>,
                                               later: int, io: Io, required: string)
    requires Linked(s) && row in s.rows && NeverDrawn(events, row.key)
    ensures !Verify(Run(Delete(s, row.name, now, ok), events), later, io, row.key, required).1
  {
    DeletedKeyIsAbsent(s, row, now, ok);
    RunKeepsAbsent(Delete(s, row.name, now, ok), events, row.key);
    AbsentKeyIsRefused(Run(Delete(s, row.name, now, ok), events), later, io, row.key, required);
  }

  /** The table was read less than an hour before, and something was found. */
  predicate ReadWithinTheHour(s: State, now: int) {
    s.cacheTime.Some? && now < s.cacheTime.value + 60 * 60 * 1_000_000_000 && s.cache != map[]
  }

  /** Exactly when a call reads the table; it then caches all of it, and the hour starts again. */
  lemma {:induction false} RefreshExactly(s: State, now: int, ok: bool)
    requires UniqueRows(s.rows)
    ensures var (t, usable) := Refresh(s, now, ok);
            && t.rows == s.rows
            && (usable <==> ReadWithinTheHour(s, now) || ok)
            && (ReadWithinTheHour(s, now) || !ok ==> t == s)
            && (!ReadWithinTheHour(s, now) && ok ==>
                  && t.cacheTime == Some(now)
                  && (forall k :: k in t.cache <==> HasKey(s.rows, k))
                  && forall r :: r in s.rows ==> t.cache[r.key] == Entry(r.name, Parsed(r.scopes)))
  {
    RebuiltHolds(s.rows);
    assert |s.cache| > 0 <==> s.cache != map[];
    forall k ensures k in Rebuilt(s.rows) <==> HasKey(s.rows, k) {
    }
  }

  /** The call reads the table at this time, whatever it does besides. */
  predicate ReadsTable(e: Event, now: int) {
    match e
    case CreateKey(_, _, _, _) => false
    case DeleteKey(_, at, deleted, ok) => deleted && at == now && ok
    case VerifyKeyScope(at, io, _, _) => at == now && io.findAll
    case GetAllKeys(at, ok) => at == now && ok
  }

  /** After a call that could read the table, checks within the hour follow it with the table out of reach. */
  lemma {:induction false} AnswersForAnHour(s: State, e: Event, now: int, later: int, key: string, required: string)
    requires Linked(s) && Agreeing(s) && required != ""
    requires ReadsTable(e, now) && now <= later < now + 60 * 60 * 1_000_000_000
    requires s.cacheTime.Some? ==> now >= s.cacheTime.value + 60 * 60 * 1_000_000_000
    ensures var t := Step(s, e);
            Verify(t, later, Io(false, false), key, required).1 <==> TableGrants(t.rows, key, required)
  {
    var before := if e.DeleteKey? then State(WithoutName(s.rows, e.name), WithoutEntry(s.cache, e.name), s.cacheTime)
                  else s;
    if e.DeleteKey? {
      RemovalKeeps(s, e.name);
    }
    StepKeeps(s, e);
    RefreshExactly(before, now, true);
    var t := Step(s, e);
    assert t == Refresh(before, now, true).0;
    AnswerFollowsTable(t, later, Io(false, false), key, required);
    if t.cache == map[] {
      assert forall r :: r in t.rows ==> r.key in t.cache;
    }
  }

  /** A key that is new to the table is in it after a creation exactly when that can write and the name is free. */
  lemma {:induction false} KeyIsCreatedExactly(s: State, name: string, key: string, scopes: seq<string>, ok: bool)
    requires !HasKey(s.rows, key)
    ensures var t := Step(s, CreateKey(name, key, scopes, ok));
            && (HasKey(t.rows, key) <==> ok && forall r :: r in s.rows ==> r.name != name)
            && (HasKey(t.rows, key) ==> t.rows == s.rows + [Row(name, key, Join(scopes, ','))])
            && (!HasKey(t.rows, key) ==> t == s)
  {
    var row := Row(name, key, Join(scopes, ','));
    assert row in s.rows + [row];
    forall r | r in s.rows ensures r.key != key {
    }
  }

  /** A deletion takes exactly the rows of that name, and one that fails leaves everything as it is. */
  lemma {:induction false} DeletionExactly(s: State, name: string, now: int, deleted: bool, ok: bool, row: Row)
    ensures var t := Step(s, DeleteKey(name, now, deleted, ok));
            if deleted then row in t.rows <==> row in s.rows && row.name != name else t == s
  {
    WithoutNameKeeps(s.rows, name);
  }

  // ---------- the service object ----------

  class KeyService {
    var rows: seq<Row>
    var cache: map<string, Entry>
    var cacheTime: Option<int>

    ghost function View(): State
      reads this
    {
      State(rows, cache, cacheTime)
    }

    ghost predicate Valid()
      reads this
    {
      Linked(View())
    }

    constructor (rows: seq<Row>)
      requires UniqueRows(rows)
      ensures Valid() && IsInitial(View()) && this.rows == rows
    {
      this.rows, cache, cacheTime := rows, map[], None;
    }

    /** Reading back the scopes of one row. */
    static method ParseScopes(text: string) returns (scopes: seq<string>)
      ensures scopes == Parsed(text)
    {
      scopes := [];
      if text != "" {
        var parts := Split(text, ',');
        for i := 0 to |parts|
          invariant scopes == Trimmed(parts)[..i]
        {
          scopes := scopes + [TrimSpace(parts[i])];
        }
      }
    }

    static method HasScope(text: string, required: string) returns (granted: bool)
      ensures granted == TextGrants(text, required)
    {
      var parts := Split(text, ',');
      for i := 0 to |parts|
        invariant forall j :: 0 <= j < i ==> TrimSpace(parts[j]) != required && TrimSpace(parts[j]) != "admin"
      {
        var scope := TrimSpace(parts[i]);
        if scope == required || scope == "admin" {
          assert Trimmed(parts)[i] == scope;
          return true;
        }
      }
      return false;
    }

    method ReadTable() returns (newCache: map<string, Entry>)
      ensures newCache == Rebuilt(rows)
    {
      newCache := map[];
      for i := 0 to |rows|
        invariant newCache == Rebuilt(rows[..i])
      {
        var scopes := ParseScopes(rows[i].scopes);
        newCache := newCache[rows[i].key := Entry(rows[i].name, scopes)];
        assert rows[..i + 1][..i] == rows[..i];
      }
      assert rows[..|rows|] == rows;
    }

    method RefreshCache(now: int, ok: bool) returns (usable: bool)
      requires Valid()
      modifies this`cache, this`cacheTime
      ensures Valid() && (View(), usable) == Refresh(old(View()), now, ok)
    {
      RefreshKeeps(View(), now, ok);
      if cacheTime.Some? && now - cacheTime.value < CACHE_TTL && |cache| > 0 {
        return true;
      }
      if !ok {
        return false;
      }
      var newCache := ReadTable();
      cache, cacheTime := newCache, Some(now);
      return true;
    }

    method VerifyKeyScope(apiKey: string, required: string, now: int, io: Io) returns (granted: bool)
      requires Valid()
      modifies this`cache, this`cacheTime
      ensures Valid() && (View(), granted) == Verify(old(View()), now, io, apiKey, required)
    {
      var usable := RefreshCache(now, io.findAll);
      if !usable {
        var row := if io.findByKey then RowOf(rows, apiKey) else None;
        if row.None? {
          return false;
        }
        granted := HasScope(row.value.scopes, required);
        return;
      }
      if apiKey !in cache {
        return false;
      }
      var scopes := cache[apiKey].scopes;
      for i := 0 to |scopes|
        invariant forall j :: 0 <= j < i ==> scopes[j] != required && scopes[j] != "admin"
      {
        if scopes[i] == required || scopes[i] == "admin" {
          return true;
        }
      }
      return false;
    }

    method CreateKey(name: string, key: string, scopes: seq<string>, ok: bool) returns (created: bool)
      requires Valid()
      modifies this`rows, this`cache
      ensures Valid() && View() == Step(old(View()), Event.CreateKey(name, key, scopes, ok))
      ensures created == (ok && CanCreate(old(rows), name, key))
    {
      created := ok && CanCreate(rows, name, key);
      if created {
        rows := rows + [Row(name, key, Join(scopes, ','))];
        cache := cache[key := Entry(name, scopes)];
      }
    }

    /** The search of the cache stops at the first entry of that name: there is no other. */
    method DropEntry(name: string)
      requires Valid()
      modifies this`cache
      ensures cache == WithoutEntry(old(cache), name)
    {
      var keys := cache.Keys;
      while keys != {}
        invariant cache == old(cache) && keys <= cache.Keys
        invariant forall k :: k in cache && k !in keys ==> cache[k].name != name
        decreases |keys|
      {
        var key :| key in keys;
        if cache[key].name == name {
          cache := cache - {key};
          return;
        }
        keys := keys - {key};
      }
    }

    method DeleteKey(name: string, now: int, deleted: bool, ok: bool) returns (done: bool)
      requires Valid()
      modifies this
      ensures Valid() && View() == Step(old(View()), Event.DeleteKey(name, now, deleted, ok))
      ensures done == deleted
    {
      if !deleted {
        return false;
      }
      RemovalKeeps(View(), name);
      DropEntry(name);
      rows := WithoutName(rows, name);
      var _ := RefreshCache(now, ok);
      return true;
    }
  }

}
