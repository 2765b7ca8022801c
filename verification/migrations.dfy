/** The schema migration runner: plan validation, applying, rolling back. */
module Migrations {
  import opened Wrappers
  import opened Collections
  import opened Text

  /** A step of the plan, over any type of schema. A missing Down leaves the schema alone. */
  datatype Migration<!S> = Migration(id: string, up: Option<S -> S>, down: Option<S -> S>)

  /** The schema, and the rows of the migration table in the order of their insertion. */
  datatype Db<S> = Db(schema: S, applied: seq<string>)

  datatype Error =
    | EmptyPlan
    | EmptyId
    | NoUp(id: string)
    | DuplicateId(id: string)
    | NotOrdered
    | StepsNotPositive
    | UnknownMigration(id: string)
    | TableFailed
    | QueryFailed(id: string)
    | StepFailed(id: string)

  /**
   The failing accesses of a call: whether the migration table cannot be set up or, for a
   rollback, listed; the steps for which asking the table fails; and the steps that fail, be
   it in the Up or Down, the row or the commit, whose transaction then leaves no trace.
   */
  datatype Faults = Faults(table: bool, queries: set<string>, steps: set<string>)

  const NO_FAULTS := Faults(false, {}, {})

  // ---------- the plan ----------

  function Ids<S>(plan: seq<Migration<S>>): (ids: seq<string>)
    ensures |ids| == |plan|
    ensures forall i :: 0 <= i < |plan| ==> ids[i] == plan[i].id
  {
    seq(|plan|, i requires 0 <= i < |plan| => plan[i].id)
  }

  ghost predicate StrictlyAscending(ids: seq<string>) {
    forall i, j :: 0 <= i < j < |ids| ==> Less(ids[i], ids[j])
  }

  /** A plan that may be run. */
  ghost predicate ValidPlan<S>(plan: seq<Migration<S>>) {
    && plan != []
    && (forall i :: 0 <= i < |plan| ==> plan[i].id != "" && plan[i].up.Some?)
    && StrictlyAscending(Ids(plan))
  }

  lemma {:induction false} AscendingIsSortedAndDistinct(ids: seq<string>)
    ensures StrictlyAscending(ids) <==>
            Sort(ids) == ids && Distinct(ids)
  {
    SortSorts(ids);
    if StrictlyAscending(ids) {
      forall i, j | 0 <= i < j < |ids| ensures ids[i] != ids[j] && !Less(ids[j], ids[i]) {
        LessIsTotal(ids[i], ids[j]);
      }
      SortedIsUnique(Sort(ids), ids);
    } else if Sort(ids) == ids {
      var i, j :| 0 <= i < j < |ids| && !Less(ids[i], ids[j]);
      LessIsTotal(ids[i], ids[j]);
    }
  }

  /** The step has an id and an Up, and no step before it has its id. */
  ghost predicate StepIsFine<S>(plan: seq<Migration<S>>, i: nat)
    requires i < |plan|
  {
    plan[i].id != "" && plan[i].up.Some? && forall j :: 0 <= j < i ==> plan[j].id != plan[i].id
  }

  /** The first step that is not fine, and what is wrong with it first. */
  ghost predicate FirstBadStep<S>(plan: seq<Migration<S>>, i: nat, error: Error) {
    && i < |plan| && !StepIsFine(plan, i) && (forall j: nat :: j < i ==> StepIsFine(plan, j))
    && error == if plan[i].id == "" then EmptyId
                else if plan[i].up.None? then NoUp(plan[i].id) else DuplicateId(plan[i].id)
  }

  /** Why a plan is refused. */
  ghost predicate Refuses<S>(plan: seq<Migration<S>>, error: Error) {
    if plan == [] then error == EmptyPlan
    else
      || (exists i: nat :: FirstBadStep(plan, i, error))
      || (error == NotOrdered && (forall i: nat :: i < |plan| ==> StepIsFine(plan, i)) && Sort(Ids(plan)) != Ids(plan))
  }

  /** Every step has an id and an Up, and no id comes twice. */
  method CheckSteps<S>(plan: seq<Migration<S>>) returns (r: Option<Error>)
    ensures match r
            case None => forall i: nat :: i < |plan| ==> StepIsFine(plan, i)
            case Some(error) => exists i: nat :: FirstBadStep(plan, i, error)
    ensures r == None <==>
            (forall i :: 0 <= i < |plan| ==> plan[i].id != "" && plan[i].up.Some?) && Distinct(Ids(plan))
  {
    var seen: set<string> := {};
    for i := 0 to |plan|
      invariant forall id :: id in seen <==> exists j :: 0 <= j < i && plan[j].id == id
      invariant forall j :: 0 <= j < i ==> plan[j].id != "" && plan[j].up.Some?
      invariant forall j, k :: 0 <= j < k < i ==> plan[j].id != plan[k].id
    {
      if plan[i].id == "" {
        assert FirstBadStep(plan, i, EmptyId);
        return Some(EmptyId);
      }
      if plan[i].up.None? {
        assert FirstBadStep(plan, i, NoUp(plan[i].id));
        return Some(NoUp(plan[i].id));
      }
      if plan[i].id in seen {
        var j :| 0 <= j < i && plan[j].id == plan[i].id;
        assert Ids(plan)[j] == Ids(plan)[i];
        assert FirstBadStep(plan, i, DuplicateId(plan[i].id));
        return Some(DuplicateId(plan[i].id));
      }
      seen := seen + {plan[i].id};
    }
    return None;
  }

  /** Comparing a list with its sorted copy, entry by entry. */
  method IsSorted(ids: seq<string>) returns (ordered: bool)
    ensures ordered <==> Sort(ids) == ids
  {
    var sorted := Sort(ids);
    SortSorts(ids);
    assert |sorted| == |multiset(sorted)| == |multiset(ids)| == |ids|;
    for i := 0 to |sorted|
      invariant forall j :: 0 <= j < i ==> sorted[j] == ids[j]
    {
      if sorted[i] != ids[i] {
        return false;
      }
    }
    return true;
  }

  method ValidateMigrationPlan<S>(plan: seq<Migration<S>>) returns (r: Option<Error>)
    ensures r == None <==> ValidPlan(plan)
    ensures r.Some? ==> Refuses(plan, r.value)
  {
    if |plan| == 0 {
      return Some(EmptyPlan);
    }
    AscendingIsSortedAndDistinct(Ids(plan));
    r := CheckSteps(plan);
    if r == None {
      var ordered := IsSorted(Ids(plan));
      if !ordered {
        r := Some(NotOrdered);
      }
    }
  }

  // ---------- running and rolling back ----------

  function UpOf<S>(m: Migration<S>): S -> S {
    if m.up.Some? then m.up.value else s => s
  }

  function DownOf<S>(m: Migration<S>): S -> S {
    if m.down.Some? then m.down.value else s => s
  }

  /** Running the plan from its i-th step. */
  function RunFrom<S>(plan: seq<Migration<S>>, i: nat, db: Db<S>, faults: Faults): (Db<S>, Option<Error>)
    requires i <= |plan|
    decreases |plan| - i
  {
    if i == |plan| then (db, None)
    else if plan[i].id in faults.queries then (db, Some(QueryFailed(plan[i].id)))
    else if plan[i].id in db.applied then RunFrom(plan, i + 1, db, faults)
    else if plan[i].id in faults.steps then (db, Some(StepFailed(plan[i].id)))
    else RunFrom(plan, i + 1, Db(UpOf(plan[i])(db.schema), db.applied + [plan[i].id]), faults)
  }

  function Find<S>(plan: seq<Migration<S>>, id: string): Option<Migration<S>> {
    if plan == [] then None
    else if plan[0].id == id then Some(plan[0])
    else Find(plan[1..], id)
  }

  function WithoutId(applied: seq<string>, id: string): seq<string> {
    if applied == [] then []
    else
      var n := |applied| - 1;
      WithoutId(applied[..n], id) + if applied[n] == id then [] else [applied[n]]
  }

  /** Deleting an id deletes all its rows, and leaves the others as often as they were there. */
  lemma {:induction false} WithoutIdExactly(applied: seq<string>, id: string, other: string)
    ensures multiset(WithoutId(applied, id))[other] == if other == id then 0 else multiset(applied)[other]
  {
    if applied != [] {
      var n := |applied| - 1;
      WithoutIdExactly(applied[..n], id, other);
      assert applied == applied[..n] + [applied[n]];
      OneMore(applied[..n], applied[n], other);
      OneMore(WithoutId(applied[..n], id), applied[n], other);
    }
  }

  /** Undoing count of the listed rows, from the last one back. */
  function RollbackRows<S>(plan: seq<Migration<S>>, rows: seq<string>, count: nat, db: Db<S>, faults: Faults)
    : (Db<S>, Option<Error>)
    requires count <= |rows|
    decreases count
  {
    if count == 0 then (db, None)
    else
      var id := rows[|rows| - 1];
      match Find(plan, id)
      case None => (db, Some(UnknownMigration(id)))
      case Some(m) =>
        if id in faults.steps then (db, Some(StepFailed(id)))
        else
          var left := Db(DownOf(m)(db.schema), WithoutId(db.applied, id));
          RollbackRows(plan, rows[..|rows| - 1], count - 1, left, faults)
  }

  lemma {:induction false} UnknownIsNotFound<S>(plan: seq<Migration<S>>, id: string)
    requires id !in Ids(plan)
    ensures Find(plan, id) == None
  {
    if plan != [] {
      assert Ids(plan)[0] == plan[0].id;
      assert forall x :: x in Ids(plan[1..]) ==> x in Ids(plan) by {
        forall i | 0 <= i < |plan| - 1 ensures Ids(plan[1..])[i] in Ids(plan) {
          assert Ids(plan[1..])[i] == Ids(plan)[i + 1];
        }
      }
      UnknownIsNotFound(plan[1..], id);
    }
  }

  /** A rollback stops at a row whose step the plan does not have, and leaves that row. */
  lemma {:induction false} UnknownStopsRollback<S>(plan: seq<Migration<S>>, rows: seq<string>, count: nat, db: Db<S>,
                                                   faults: Faults)
    requires 0 < count <= |rows| && rows[|rows| - 1] !in Ids(plan)
    ensures RollbackRows(plan, rows, count, db, faults) == (db, Some(UnknownMigration(rows[|rows| - 1])))
  {
    UnknownIsNotFound(plan, rows[|rows| - 1]);
  }

  /** The steps of the plan, from the i-th on, that are not among these ids. */
  function Missing<S>(plan: seq<Migration<S>>, i: nat, applied: seq<string>): seq<Migration<S>>
    requires i <= |plan|
    decreases |plan| - i
  {
    if i == |plan| then []
    else if plan[i].id in applied then Missing(plan, i + 1, applied)
    else [plan[i]] + Missing(plan, i + 1, applied)
  }

  /** The schema after the Ups of these steps. */
  function AfterUps<S>(steps: seq<Migration<S>>, schema: S): S {
    if steps == [] then schema else AfterUps(steps[1..], UpOf(steps[0])(schema))
  }

  lemma {:induction false} MissingIgnoresEarlier<S>(plan: seq<Migration<S>>, i: nat, applied: seq<string>, id: string)
    requires i <= |plan| && forall j :: i <= j < |plan| ==> plan[j].id != id
    ensures Missing(plan, i, applied + [id]) == Missing(plan, i, applied)
    decreases |plan| - i
  {
    if i < |plan| {
      MissingIgnoresEarlier(plan, i + 1, applied, id);
    }
  }

  lemma {:induction false} OneMoreMissing<S>(m: Migration<S>, rest: seq<Migration<S>>, schema: S)
    ensures Ids([m] + rest) == [m.id] + Ids(rest)
    ensures AfterUps([m] + rest, schema) == AfterUps(rest, UpOf(m)(schema))
  {
    assert ([m] + rest)[1..] == rest;
  }

  /** What a run without failures has done in the end. */
  ghost predicate Applies<S>(plan: seq<Migration<S>>, i: nat, schema: S, applied: seq<string>,
                             missing: seq<Migration<S>>)
    requires i <= |plan|
  {
    RunFrom(plan, i, Db(schema, applied), NO_FAULTS) == (Db(AfterUps(missing, schema), applied + Ids(missing)), None)
  }

  lemma {:induction false} NothingMissing<S>(plan: seq<Migration<S>>, schema: S, applied: seq<string>)
    ensures Applies(plan, |plan|, schema, applied, [])
  {
    assert Ids<S>([]) == [] && applied + [] == applied;
  }

  lemma {:induction false} OneIsMissing<S>(plan: seq<Migration<S>>, i: nat, schema: S, applied: seq<string>,
                                           rest: seq<Migration<S>>)
    requires i < |plan| && plan[i].id !in applied
    requires Applies(plan, i + 1, UpOf(plan[i])(schema), applied + [plan[i].id], rest)
    ensures Applies(plan, i, schema, applied, [plan[i]] + rest)
  {
    OneMoreMissing(plan[i], rest, schema);
    assert applied + ([plan[i].id] + Ids(rest)) == applied + [plan[i].id] + Ids(rest);
  }

  /** From any rows, a run without failures applies exactly the missing steps, in the order of the plan. */
  lemma {:induction false} RunAppliesMissing<S>(plan: seq<Migration<S>>, i: nat, schema: S, applied: seq<string>)
    requires i <= |plan| && Distinct(Ids(plan))
    ensures Applies(plan, i, schema, applied, Missing(plan, i, applied))
    decreases |plan| - i
  {
    if i == |plan| {
      NothingMissing(plan, schema, applied);
    } else if plan[i].id in applied {
      RunAppliesMissing(plan, i + 1, schema, applied);
    } else {
      assert forall j :: i < j < |plan| ==> Ids(plan)[j] != Ids(plan)[i];
      MissingIgnoresEarlier(plan, i + 1, applied, plan[i].id);
      RunAppliesMissing(plan, i + 1, UpOf(plan[i])(schema), applied + [plan[i].id]);
      OneIsMissing(plan, i, schema, applied, Missing(plan, i + 1, applied));
    }
  }

  /** An id is left as often as it was there, or not at all if it is one of those undone. */
  ghost predicate IsWithout(left: seq<string>, applied: seq<string>, undone: seq<string>, id: string) {
    multiset(left)[id] == if id in undone then 0 else multiset(applied)[id]
  }

  lemma {:induction false} WithoutOneMore(left: seq<string>, applied: seq<string>, undone: seq<string>, last: string,
                                          id: string)
    requires IsWithout(left, WithoutId(applied, last), undone, id)
    ensures IsWithout(left, applied, undone + [last], id)
  {
    WithoutIdExactly(applied, last, id);
  }

  /** And a rollback of rows the plan knows takes off exactly the last of them. */
  lemma {:induction false} RollbackRemovesLast<S>(plan: seq<Migration<S>>, kept: seq<string>, undone: seq<string>,
                                                  db: Db<S>, id: string)
    requires forall i :: 0 <= i < |undone| ==> Find(plan, undone[i]).Some?
    ensures var (left, r) := RollbackRows(plan, kept + undone, |undone|, db, NO_FAULTS);
            r == None && IsWithout(left.applied, db.applied, undone, id)
    decreases |undone|
  {
    if undone != [] {
      var n := |undone| - 1;
      var last := undone[n];
      var next := Db(DownOf(Find(plan, last).value)(db.schema), WithoutId(db.applied, last));
      assert (kept + undone)[..|kept| + n] == kept + undone[..n] && undone == undone[..n] + [last];
      RollbackRemovesLast(plan, kept, undone[..n], next, id);
      var left := RollbackRows(plan, kept + undone[..n], n, next, NO_FAULTS).0;
      WithoutOneMore(left.applied, db.applied, undone[..n], last, id);
    }
  }

  class MigrationRunner<S> {
    const plan: seq<Migration<S>>
    var schema: S
    var applied: seq<string>

    constructor (plan: seq<Migration<S>>, schema: S, applied: seq<string>)
      ensures this.plan == plan && View() == Db(schema, applied)
    {
      this.plan, this.schema, this.applied := plan, schema, applied;
    }

    ghost function View(): Db<S>
      reads this
    {
      Db(schema, applied)
    }

    method RunMigrations(faults: Faults) returns (r: Option<Error>)
      modifies this
      ensures ValidPlan(plan) && !faults.table ==> (View(), r) == RunFrom(plan, 0, old(View()), faults)
      ensures !ValidPlan(plan) ==> r.Some? && Refuses(plan, r.value) && View() == old(View())
      ensures ValidPlan(plan) && faults.table ==> r == Some(TableFailed) && View() == old(View())
    {
      r := ValidateMigrationPlan(plan);
      if r.Some? {
        return;
      }
      if faults.table {
        return Some(TableFailed);
      }
      for i := 0 to |plan|
        invariant RunFrom(plan, 0, old(View()), faults) == RunFrom(plan, i, View(), faults)
      {
        if plan[i].id in faults.queries {
          return Some(QueryFailed(plan[i].id));
        }
        if plan[i].id in applied {
          continue;
        }
        if plan[i].id in faults.steps {
          return Some(StepFailed(plan[i].id));
        }
        schema := UpOf(plan[i])(schema);
        applied := applied + [plan[i].id];
      }
    }

    method FindMigrationByID(id: string) returns (m: Option<Migration<S>>)
      ensures m == Find(plan, id)
    {
      for i := 0 to |plan|
        invariant Find(plan, id) == Find(plan[i..], id)
      {
        if plan[i].id == id {
          return Some(plan[i]);
        }
      }
      m := None;
    }

    method RollbackMigrations(steps: int, faults: Faults) returns (r: Option<Error>)
      modifies this
      ensures steps > 0 && ValidPlan(plan) && !faults.table ==>
                var rows := Sort(old(applied));
                (View(), r) == RollbackRows(plan, rows, Least(steps, |rows|), old(View()), faults)
      ensures steps <= 0 ==> r == Some(StepsNotPositive) && View() == old(View())
      ensures steps > 0 && !ValidPlan(plan) ==> r.Some? && Refuses(plan, r.value) && View() == old(View())
      ensures steps > 0 && ValidPlan(plan) && faults.table ==> r == Some(TableFailed) && View() == old(View())
    {
      if steps <= 0 {
        return Some(StepsNotPositive);
      }
      r := ValidateMigrationPlan(plan);
      if r.Some? {
        return;
      }
      if faults.table {
        return Some(TableFailed);
      }
      var rows := Sort(applied);
      if |rows| == 0 {
        return None;
      }
      var rollbackCount := steps;
      if rollbackCount > |rows| {
        rollbackCount := |rows|;
      }
      r := UndoRows(rows, rollbackCount, faults);
    }

    /** The rollback loop, from the last row back. */
    method UndoRows(rows: seq<string>, count: nat, faults: Faults) returns (r: Option<Error>)
      requires count <= |rows|
      modifies this
      ensures (View(), r) == RollbackRows(plan, rows, count, old(View()), faults)
    {
      var i := |rows| - 1;
      assert rows[..|rows|] == rows;
      while i >= |rows| - count
        invariant |rows| - count - 1 <= i < |rows|
        invariant RollbackRows(plan, rows, count, old(View()), faults) ==
                  RollbackRows(plan, rows[..i + 1], i + 1 - (|rows| - count), View(), faults)
      {
        var m := FindMigrationByID(rows[i]);
        assert rows[..i + 1][..i] == rows[..i];
        if m.None? {
          return Some(UnknownMigration(rows[i]));
        }
        if rows[i] in faults.steps {
          return Some(StepFailed(rows[i]));
        }
        schema := DownOf(m.value)(schema);
        DeleteRow(rows[i]);
        i := i - 1;
      }
      return None;
    }

    method DeleteRow(id: string)
      modifies this`applied
      ensures applied == WithoutId(old(applied), id)
    {
      var kept := [];
      for i := 0 to |applied|
        invariant kept == WithoutId(applied[..i], id)
      {
        if applied[i] != id {
          kept := kept + [applied[i]];
        }
        assert applied[..i + 1][..i] == applied[..i];
      }
      assert applied[..|applied|] == applied;
      applied := kept;
    }
  }
}
