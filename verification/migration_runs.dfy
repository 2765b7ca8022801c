/** Histories of migration runs and rollbacks, with any accesses failing. */
module MigrationRuns {
  import opened Wrappers
  import opened Collections
  import opened Text
  import opened Migrations

  datatype Call = Up(faults: Faults) | Down(steps: int, faults: Faults)

  function Perform<S>(plan: seq<Migration<S>>, db: Db<S>, c: Call): Db<S> {
    match c
    case Up(faults) => if faults.table then db else RunFrom(plan, 0, db, faults).0
    case Down(steps, faults) =>
      if steps <= 0 || faults.table then db
      else RollbackRows(plan, Sort(db.applied), Least(steps, |Sort(db.applied)|), db, faults).0
  }

  function History<S>(plan: seq<Migration<S>>, db: Db<S>, calls: seq<Call>): Db<S> {
    if calls == [] then db
    else Perform(plan, History(plan, db, calls[..|calls| - 1]), calls[|calls| - 1])
  }

  /** The schema after the first k Ups. */
  function Fold<S>(plan: seq<Migration<S>>, schema: S, k: nat): S
    requires k <= |plan|
  {
    if k == 0 then schema else UpOf(plan[k - 1])(Fold(plan, schema, k - 1))
  }

  /** On the schema that the first i + 1 Ups lead to, the Down of step i undoes its Up. */
  ghost predicate Undoes<S>(plan: seq<Migration<S>>, schema: S, i: nat) {
    i < |plan| ==> DownOf(plan[i])(Fold(plan, schema, i + 1)) == Fold(plan, schema, i)
  }

  ghost predicate AllUndo<S>(plan: seq<Migration<S>>, schema: S) {
    forall i :: 0 <= i < |plan| ==> Undoes(plan, schema, i)
  }

  /** The applied steps are the first k of the plan. */
  ghost predicate IsPrefix<S>(plan: seq<Migration<S>>, applied: seq<string>, k: nat) {
    k <= |plan| && applied == Ids(plan)[..k]
  }

  lemma {:induction false} IdsDistinct<S>(plan: seq<Migration<S>>, i: nat, j: nat)
    requires ValidPlan(plan) && i < |plan| && j < |plan| && i != j
    ensures plan[i].id != plan[j].id
  {
    var a, b := if i < j then i else j, if i < j then j else i;
    assert Less(Ids(plan)[a], Ids(plan)[b]);
    LessIsTotal(plan[a].id, plan[a].id);
  }

  lemma {:induction false} InPrefix<S>(plan: seq<Migration<S>>, k: nat, i: nat)
    requires ValidPlan(plan) && k <= |plan| && i < |plan|
    ensures plan[i].id in Ids(plan)[..k] <==> i < k
  {
    if i < k {
      assert Ids(plan)[..k][i] == plan[i].id;
    } else if plan[i].id in Ids(plan)[..k] {
      var j :| 0 <= j < k && Ids(plan)[..k][j] == plan[i].id;
      IdsDistinct(plan, i, j);
    }
  }

  lemma {:induction false} PrefixIsSorted<S>(plan: seq<Migration<S>>, k: nat)
    requires ValidPlan(plan) && k <= |plan|
    ensures Sort(Ids(plan)[..k]) == Ids(plan)[..k]
  {
    AscendingIsSortedAndDistinct(Ids(plan)[..k]);
  }

  /** The database and the error that are left, when so many steps of the plan are. */
  function Done<S>(plan: seq<Migration<S>>, end: (nat, S, Option<Error>)): (Db<S>, Option<Error>)
    requires end.0 <= |plan|
  {
    (Db(end.1, Ids(plan)[..end.0]), end.2)
  }

  /** Running the plan from its i-th step with k steps applied, counting steps instead of searching for ids. */
  function Ahead<S>(plan: seq<Migration<S>>, i: nat, k: nat, schema: S, faults: Faults)
    : (end: (nat, S, Option<Error>))
    requires i <= k <= |plan|
    ensures k <= end.0 <= |plan|
    decreases |plan| - i
  {
    if i == |plan| then (k, schema, None)
    else if plan[i].id in faults.queries then (k, schema, Some(QueryFailed(plan[i].id)))
    else if i < k then Ahead(plan, i + 1, k, schema, faults)
    else if plan[i].id in faults.steps then (k, schema, Some(StepFailed(plan[i].id)))
    else Ahead(plan, i + 1, k + 1, UpOf(plan[i])(schema), faults)
  }

  /** Where a run ends: with the whole plan, at a step that fails or whose query fails, or where it was. */
  ghost predicate EndsAt<S>(plan: seq<Migration<S>>, k: nat, m: nat, r: Option<Error>, faults: Faults) {
    && k <= m <= |plan|
    && match r
       case None => m == |plan|
       case Some(StepFailed(id)) => m < |plan| && id == plan[m].id && id in faults.steps
       case Some(QueryFailed(id)) => id in faults.queries && (m == k || (m < |plan| && id == plan[m].id))
       case Some(_) => false
  }

  lemma {:induction false} AheadExtends<S>(plan: seq<Migration<S>>, i: nat, k: nat, schema: S, faults: Faults)
    requires i <= k <= |plan|
    ensures var end := Ahead(plan, i, k, schema, faults);
            && EndsAt(plan, k, end.0, end.2, faults) && (end.0 == k ==> end.1 == schema)
            && (i == k && end.2.Some? && end.2.value.QueryFailed? ==>
                  end.0 < |plan| && end.2.value.id == plan[end.0].id)
    decreases |plan| - i
  {
    if i < |plan| && plan[i].id !in faults.queries {
      if i < k {
        AheadExtends(plan, i + 1, k, schema, faults);
      } else if plan[i].id !in faults.steps {
        AheadExtends(plan, i + 1, k + 1, UpOf(plan[i])(schema), faults);
      }
    }
  }

  /** Asking for the step fails, or the step is still to be applied and fails. */
  predicate Faulty<S>(plan: seq<Migration<S>>, k: nat, j: nat, faults: Faults)
    requires j < |plan|
  {
    plan[j].id in faults.queries || (k <= j && plan[j].id in faults.steps)
  }

  /** A run from k applied steps stops exactly at the first step that fails, having applied what came before it. */
  lemma {:induction false} AheadStopsExactly<S>(plan: seq<Migration<S>>, i: nat, k: nat, schema: S, faults: Faults,
                                                j: nat)
    requires i <= k <= |plan| && i <= j <= |plan|
    requires forall l: nat :: i <= l < j ==> !Faulty(plan, k, l, faults)
    requires j < |plan| ==> Faulty(plan, k, j, faults)
    ensures var end := Ahead(plan, i, k, schema, faults);
            && end.0 == (if j < k then k else j)
            && end.2 == if j == |plan| then None
                        else if plan[j].id in faults.queries then Some(QueryFailed(plan[j].id))
                        else Some(StepFailed(plan[j].id))
    decreases |plan| - i
  {
    if i < j {
      assert !Faulty(plan, k, i, faults);
      if i < k {
        AheadStopsExactly(plan, i + 1, k, schema, faults, j);
      } else {
        var next := k + 1;
        forall l: nat | i < l < j ensures !Faulty(plan, next, l, faults) {
          assert !Faulty(plan, k, l, faults);
        }
        AheadStopsExactly(plan, i + 1, next, UpOf(plan[i])(schema), faults, j);
      }
    }
  }

  /** It applies exactly the Ups between. */
  lemma {:induction false} AheadFolds<S>(plan: seq<Migration<S>>, schema: S, i: nat, k: nat, faults: Faults)
    requires i <= k <= |plan|
    ensures var end := Ahead(plan, i, k, Fold(plan, schema, k), faults);
            end.1 == Fold(plan, schema, end.0)
    decreases |plan| - i
  {
    if i < |plan| && plan[i].id !in faults.queries {
      if i < k {
        AheadFolds(plan, schema, i + 1, k, faults);
      } else if plan[i].id !in faults.steps {
        AheadFolds(plan, schema, i + 1, k + 1, faults);
      }
    }
  }

  /** One turn of the run: an applied step is passed over, the next one applied. */
  lemma {:induction false} RunStep<S>(plan: seq<Migration<S>>, i: nat, k: nat, schema: S, faults: Faults)
    requires ValidPlan(plan) && i <= k <= |plan| && i < |plan| && plan[i].id !in faults.queries
    ensures var db := Db(schema, Ids(plan)[..k]);
            RunFrom(plan, i, db, faults) ==
            if i < k then RunFrom(plan, i + 1, db, faults)
            else if plan[i].id in faults.steps then (db, Some(StepFailed(plan[i].id)))
            else RunFrom(plan, i + 1, Db(UpOf(plan[i])(schema), Ids(plan)[..k + 1]), faults)
  {
    InPrefix(plan, k, i);
    if i == k {
      assert Ids(plan)[..k] + [plan[i].id] == Ids(plan)[..k + 1];
    }
  }

  /** From a prefix of the plan, a run leaves a longer prefix. */
  lemma {:induction false} RunIsAhead<S>(plan: seq<Migration<S>>, i: nat, k: nat, schema: S, faults: Faults)
    requires ValidPlan(plan) && i <= k <= |plan|
    ensures RunFrom(plan, i, Db(schema, Ids(plan)[..k]), faults) == Done(plan, Ahead(plan, i, k, schema, faults))
    decreases |plan| - i
  {
    if i < |plan| && plan[i].id !in faults.queries {
      RunStep(plan, i, k, schema, faults);
      if i < k {
        RunIsAhead(plan, i + 1, k, schema, faults);
      } else if plan[i].id !in faults.steps {
        RunIsAhead(plan, i + 1, k + 1, UpOf(plan[i])(schema), faults);
      }
    }
  }

  lemma {:induction false} FindStep<S>(plan: seq<Migration<S>>, i: nat)
    requires i < |plan| && forall j :: 0 <= j < i ==> plan[j].id != plan[i].id
    ensures Find(plan, plan[i].id) == Some(plan[i])
  {
    if i > 0 {
      FindStep(plan[1..], i - 1);
    }
  }

  lemma {:induction false} WithoutAbsent(applied: seq<string>, id: string)
    requires id !in applied
    ensures WithoutId(applied, id) == applied
  {
    if applied != [] {
      var n := |applied| - 1;
      assert applied[n] in applied;
      WithoutAbsent(applied[..n], id);
      assert applied == applied[..n] + [applied[n]];
    }
  }

  lemma {:induction false} WithoutLast<S>(plan: seq<Migration<S>>, k: nat)
    requires ValidPlan(plan) && 0 < k <= |plan|
    ensures WithoutId(Ids(plan)[..k], plan[k - 1].id) == Ids(plan)[..k - 1]
  {
    var applied := Ids(plan)[..k];
    assert applied[..k - 1] == Ids(plan)[..k - 1];
    InPrefix(plan, k - 1, k - 1);
    WithoutAbsent(applied[..k - 1], plan[k - 1].id);
  }

  /** The last of k applied steps is found in the plan, and its row is the one deleted. */
  lemma {:induction false} LastOfPrefix<S>(plan: seq<Migration<S>>, k: nat, applied: seq<string>)
    requires ValidPlan(plan) && IsPrefix(plan, applied, k) && k > 0
    ensures applied[k - 1] == plan[k - 1].id && Find(plan, applied[k - 1]) == Some(plan[k - 1])
    ensures applied[..k - 1] == Ids(plan)[..k - 1] == WithoutId(applied, applied[k - 1])
  {
    forall j | 0 <= j < k - 1 ensures plan[j].id != plan[k - 1].id {
      IdsDistinct(plan, j, k - 1);
    }
    FindStep(plan, k - 1);
    WithoutLast(plan, k);
  }

  /** Rolling back count of the first k steps, counting steps instead of searching for ids. */
  function Back<S>(plan: seq<Migration<S>>, count: nat, k: nat, schema: S, faults: Faults)
    : (end: (nat, S, Option<Error>))
    requires count <= k <= |plan|
    ensures k - count <= end.0 <= k
    decreases count
  {
    if count == 0 then (k, schema, None)
    else if plan[k - 1].id in faults.steps then (k, schema, Some(StepFailed(plan[k - 1].id)))
    else Back(plan, count - 1, k - 1, DownOf(plan[k - 1])(schema), faults)
  }

  lemma {:induction false} BackShrinks<S>(plan: seq<Migration<S>>, count: nat, k: nat, schema: S, faults: Faults)
    requires count <= k <= |plan|
    ensures var end := Back(plan, count, k, schema, faults);
            (if end.2 == None then end.0 == k - count else end.0 > 0 && plan[end.0 - 1].id in faults.steps)
    decreases count
  {
    if count > 0 && plan[k - 1].id !in faults.steps {
      BackShrinks(plan, count - 1, k - 1, DownOf(plan[k - 1])(schema), faults);
    }
  }

  /** It stops exactly at the first step, from the last applied one back, that fails. */
  lemma {:induction false} BackStopsExactly<S>(plan: seq<Migration<S>>, count: nat, k: nat, schema: S, faults: Faults,
                                               m: nat)
    requires count <= k <= |plan| && k - count <= m <= k
    requires forall l: nat :: m <= l < k ==> plan[l].id !in faults.steps
    requires k - count < m ==> plan[m - 1].id in faults.steps
    ensures var end := Back(plan, count, k, schema, faults);
            && end.0 == m
            && end.2 == if m == k - count then None else Some(StepFailed(plan[m - 1].id))
    decreases count
  {
    if m < k {
      BackStopsExactly(plan, count - 1, k - 1, DownOf(plan[k - 1])(schema), faults, m);
    }
  }

  lemma {:induction false} BackRestores<S>(plan: seq<Migration<S>>, schema: S, count: nat, k: nat, faults: Faults)
    requires count <= k <= |plan| && AllUndo(plan, schema)
    ensures var end := Back(plan, count, k, Fold(plan, schema, k), faults);
            end.1 == Fold(plan, schema, end.0)
    decreases count
  {
    if count > 0 && plan[k - 1].id !in faults.steps {
      assert Undoes(plan, schema, k - 1);
      BackRestores(plan, schema, count - 1, k - 1, faults);
    }
  }

  lemma {:induction false} RollbackStep<S>(plan: seq<Migration<S>>, count: nat, k: nat, schema: S, faults: Faults)
    requires ValidPlan(plan) && 0 < count <= k <= |plan|
    ensures var applied, id := Ids(plan)[..k], plan[k - 1].id;
            RollbackRows(plan, applied, count, Db(schema, applied), faults) ==
            if id in faults.steps then (Db(schema, applied), Some(StepFailed(id)))
            else
              var left := Ids(plan)[..k - 1];
              RollbackRows(plan, left, count - 1, Db(DownOf(plan[k - 1])(schema), left), faults)
  {
    LastOfPrefix(plan, k, Ids(plan)[..k]);
  }

  /** From a prefix of the plan, a rollback leaves a shorter prefix, applying exactly the Downs between. */
  lemma {:induction false} RollbackIsBack<S>(plan: seq<Migration<S>>, count: nat, k: nat, schema: S, faults: Faults)
    requires ValidPlan(plan) && count <= k <= |plan|
    ensures RollbackRows(plan, Ids(plan)[..k], count, Db(schema, Ids(plan)[..k]), faults) ==
            Done(plan, Back(plan, count, k, schema, faults))
    decreases count
  {
    if count > 0 {
      RollbackStep(plan, count, k, schema, faults);
      if plan[k - 1].id !in faults.steps {
        RollbackIsBack(plan, count - 1, k - 1, DownOf(plan[k - 1])(schema), faults);
      }
    }
  }

  /** The applied steps are a prefix of the plan, and the schema is what their Ups lead to. */
  ghost predicate Agrees<S>(plan: seq<Migration<S>>, schema: S, db: Db<S>) {
    IsPrefix(plan, db.applied, |db.applied|) && db.schema == Fold(plan, schema, |db.applied|)
  }

  lemma {:induction false} UpIsAhead<S>(plan: seq<Migration<S>>, db: Db<S>, faults: Faults)
    requires ValidPlan(plan) && IsPrefix(plan, db.applied, |db.applied|) && !faults.table
    ensures Perform(plan, db, Up(faults)) == Done(plan, Ahead(plan, 0, |db.applied|, db.schema, faults)).0
  {
    RunIsAhead(plan, 0, |db.applied|, db.schema, faults);
  }

  lemma {:induction false} DownIsBack<S>(plan: seq<Migration<S>>, db: Db<S>, steps: int, faults: Faults)
    requires ValidPlan(plan) && IsPrefix(plan, db.applied, |db.applied|) && steps > 0 && !faults.table
    ensures Perform(plan, db, Down(steps, faults)) ==
            Done(plan, Back(plan, Least(steps, |db.applied|), |db.applied|, db.schema, faults)).0
  {
    var k := |db.applied|;
    PrefixIsSorted(plan, k);
    RollbackIsBack(plan, Least(steps, k), k, db.schema, faults);
  }

  /** What every call keeps; the schema only where each Down undoes its Up. */
  ghost predicate Keeps<S>(plan: seq<Migration<S>>, schema: S, db: Db<S>, d: Db<S>) {
    && IsPrefix(plan, d.applied, |d.applied|)
    && (Agrees(plan, schema, db) && AllUndo(plan, schema) ==> Agrees(plan, schema, d))
  }

  lemma {:induction false} RunKeepsPrefix<S>(plan: seq<Migration<S>>, schema: S, db: Db<S>, faults: Faults)
    requires ValidPlan(plan) && IsPrefix(plan, db.applied, |db.applied|) && !faults.table
    ensures Keeps(plan, schema, db, Perform(plan, db, Up(faults)))
  {
    UpIsAhead(plan, db, faults);
    var m := Ahead(plan, 0, |db.applied|, db.schema, faults).0;
    assert |Ids(plan)[..m]| == m;
    if Agrees(plan, schema, db) {
      AheadFolds(plan, schema, 0, |db.applied|, faults);
    }
  }

  lemma {:induction false} RollbackKeepsPrefix<S>(plan: seq<Migration<S>>, schema: S, db: Db<S>, steps: int,
                                                  faults: Faults)
    requires ValidPlan(plan) && IsPrefix(plan, db.applied, |db.applied|) && steps > 0 && !faults.table
    ensures Keeps(plan, schema, db, Perform(plan, db, Down(steps, faults)))
  {
    var k := |db.applied|;
    DownIsBack(plan, db, steps, faults);
    var m := Back(plan, Least(steps, k), k, db.schema, faults).0;
    assert |Ids(plan)[..m]| == m;
    if Agrees(plan, schema, db) && AllUndo(plan, schema) {
      BackRestores(plan, schema, Least(steps, k), k, faults);
    }
  }

  lemma {:induction false} CallKeepsPrefix<S>(plan: seq<Migration<S>>, schema: S, db: Db<S>, c: Call)
    requires ValidPlan(plan) && IsPrefix(plan, db.applied, |db.applied|)
    ensures Keeps(plan, schema, db, Perform(plan, db, c))
  {
    if !c.faults.table {
      match c
      case Up(faults) => RunKeepsPrefix(plan, schema, db, faults);
      case Down(steps, faults) => if steps > 0 { RollbackKeepsPrefix(plan, schema, db, steps, faults); }
    }
  }

  /**
   Over every history of runs and rollbacks, whichever accesses fail, the applied steps stay a
   prefix of the plan; if on the schemas of the plan each Down undoes its Up, the schema
   always is what the Ups of that prefix lead to.
   */
  lemma {:induction false} AppliedStaysPrefix<S>(plan: seq<Migration<S>>, schema: S, calls: seq<Call>)
    requires ValidPlan(plan)
    ensures var d := History(plan, Db(schema, []), calls);
            && IsPrefix(plan, d.applied, |d.applied|)
            && (AllUndo(plan, schema) ==> Agrees(plan, schema, d))
  {
    if calls != [] {
      var n := |calls| - 1;
      AppliedStaysPrefix(plan, schema, calls[..n]);
      CallKeepsPrefix(plan, schema, History(plan, Db(schema, []), calls[..n]), calls[n]);
    }
  }

  /** A run without failures applies everything. */
  lemma {:induction false} RunCompletes<S>(plan: seq<Migration<S>>, schema: S, db: Db<S>)
    requires ValidPlan(plan) && IsPrefix(plan, db.applied, |db.applied|)
    ensures var d := Perform(plan, db, Up(NO_FAULTS));
            && d.applied == Ids(plan)
            && (Agrees(plan, schema, db) ==> d.schema == Fold(plan, schema, |plan|))
            && (db.applied == Ids(plan) ==> d == db)
  {
    UpIsAhead(plan, db, NO_FAULTS);
    AheadExtends(plan, 0, |db.applied|, db.schema, NO_FAULTS);
    assert Ids(plan)[..|plan|] == Ids(plan);
    if Agrees(plan, schema, db) {
      AheadFolds(plan, schema, 0, |db.applied|, NO_FAULTS);
    }
  }

  /** A rollback without failures takes off exactly the asked number of steps, or all. */
  lemma {:induction false} RollbackCompletes<S>(plan: seq<Migration<S>>, db: Db<S>, steps: int)
    requires ValidPlan(plan) && IsPrefix(plan, db.applied, |db.applied|)
    ensures var d := Perform(plan, db, Down(steps, NO_FAULTS));
            var left := if steps <= 0 then |db.applied| else |db.applied| - Least(steps, |db.applied|);
            && d.applied == Ids(plan)[..left]
            && (steps <= 0 ==> d == db)
            && (steps == 1 && db.applied != [] ==> d.schema == DownOf(plan[left])(db.schema))
  {
    if steps > 0 {
      DownIsBack(plan, db, steps, NO_FAULTS);
      BackShrinks(plan, Least(steps, |db.applied|), |db.applied|, db.schema, NO_FAULTS);
    }
  }

  /** The database agrees with the plan after these calls, from an empty migration table. */
  ghost predicate AgreesAfter<S>(plan: seq<Migration<S>>, schema: S, calls: seq<Call>) {
    Agrees(plan, schema, History(plan, Db(schema, []), calls))
  }

  lemma {:induction false} HistoryOfAppend<S>(plan: seq<Migration<S>>, db: Db<S>, calls: seq<Call>, c: Call)
    ensures History(plan, db, calls + [c]) == Perform(plan, History(plan, db, calls), c)
  {
    assert (calls + [c])[..|calls|] == calls;
  }

  /** A full run, and then a rollback to the first k steps. */
  function DownTo(n: nat, k: nat): seq<Call>
    requires k <= n
  {
    [Up(NO_FAULTS), Down(n - k, NO_FAULTS)]
  }

  lemma {:induction false} HistoryOfTwo<S>(plan: seq<Migration<S>>, db: Db<S>, a: Call, b: Call)
    ensures History(plan, db, [a, b]) == Perform(plan, Perform(plan, db, a), b)
  {
    HistoryOfAppend(plan, db, [], a);
    HistoryOfAppend(plan, db, [] + [a], b);
    assert [] + [a] + [b] == [a, b];
  }

  lemma {:induction false} AppliedAfterDownTo<S>(plan: seq<Migration<S>>, schema: S, k: nat)
    requires ValidPlan(plan) && k <= |plan|
    ensures History(plan, Db(schema, []), DownTo(|plan|, k)).applied == Ids(plan)[..k]
  {
    var start := Db(schema, []);
    HistoryOfTwo(plan, start, Up(NO_FAULTS), Down(|plan| - k, NO_FAULTS));
    RunCompletes(plan, schema, start);
    RollbackFromAll(plan, Perform(plan, start, Up(NO_FAULTS)), k);
  }

  lemma {:induction false} RollbackFromAll<S>(plan: seq<Migration<S>>, full: Db<S>, k: nat)
    requires ValidPlan(plan) && k <= |plan| && full.applied == Ids(plan)
    ensures Perform(plan, full, Down(|plan| - k, NO_FAULTS)).applied == Ids(plan)[..k]
  {
    assert Ids(plan)[..|plan|] == Ids(plan);
    RollbackCompletes(plan, full, |plan| - k);
  }

  /** Rolling back one of k steps runs its Down and takes its row off. */
  lemma {:induction false} OneStepBack<S>(plan: seq<Migration<S>>, db: Db<S>, k: nat)
    requires ValidPlan(plan) && IsPrefix(plan, db.applied, k) && k > 0
    ensures Perform(plan, db, Down(1, NO_FAULTS)) == Db(DownOf(plan[k - 1])(db.schema), Ids(plan)[..k - 1])
  {
    assert |db.applied| == k;
    DownIsBack(plan, db, 1, NO_FAULTS);
    assert Back(plan, 1, k, db.schema, NO_FAULTS) == (k - 1, DownOf(plan[k - 1])(db.schema), None);
  }

  /** Going down to just above step i and then past it tells whether its Down undoes its Up. */
  lemma {:induction false} DisagreementShows<S>(plan: seq<Migration<S>>, schema: S, i: nat)
    requires ValidPlan(plan) && i < |plan|
    ensures var above := DownTo(|plan|, i + 1);
            AgreesAfter(plan, schema, above) && AgreesAfter(plan, schema, above + [Down(1, NO_FAULTS)]) ==>
              Undoes(plan, schema, i)
  {
    AppliedAfterDownTo(plan, schema, i + 1);
    ShowsAfter(plan, schema, i, DownTo(|plan|, i + 1));
  }

  lemma {:induction false} ShowsAfter<S>(plan: seq<Migration<S>>, schema: S, i: nat, above: seq<Call>)
    requires ValidPlan(plan) && i < |plan| && History(plan, Db(schema, []), above).applied == Ids(plan)[..i + 1]
    ensures AgreesAfter(plan, schema, above) && AgreesAfter(plan, schema, above + [Down(1, NO_FAULTS)]) ==>
              Undoes(plan, schema, i)
  {
    if AgreesAfter(plan, schema, above) && AgreesAfter(plan, schema, above + [Down(1, NO_FAULTS)]) {
      HistoryOfAppend(plan, Db(schema, []), above, Down(1, NO_FAULTS));
      StepBackShows(plan, schema, i, History(plan, Db(schema, []), above));
    }
  }

  lemma {:induction false} StepBackShows<S>(plan: seq<Migration<S>>, schema: S, i: nat, above: Db<S>)
    requires ValidPlan(plan) && i < |plan| && above.applied == Ids(plan)[..i + 1]
    requires Agrees(plan, schema, above) && Agrees(plan, schema, Perform(plan, above, Down(1, NO_FAULTS)))
    ensures Undoes(plan, schema, i)
  {
    OneStepBack(plan, above, i + 1);
  }

  /**
   Exactly when the schema always is what the Ups of the applied steps lead to: when on the
   schemas of the plan each Down undoes its Up.
   */
  lemma {:induction false} SchemaAgreesExactly<S>(plan: seq<Migration<S>>, schema: S)
    requires ValidPlan(plan)
    ensures (forall calls :: AgreesAfter(plan, schema, calls)) <==>
            AllUndo(plan, schema)
  {
    if AllUndo(plan, schema) {
      forall calls ensures AgreesAfter(plan, schema, calls) {
        AppliedStaysPrefix(plan, schema, calls);
      }
    }
    if forall calls :: AgreesAfter(plan, schema, calls) {
      forall i | 0 <= i < |plan| ensures Undoes(plan, schema, i) {
        assert AgreesAfter(plan, schema, DownTo(|plan|, i + 1));
        assert AgreesAfter(plan, schema, DownTo(|plan|, i + 1) + [Down(1, NO_FAULTS)]);
        DisagreementShows(plan, schema, i);
      }
    }
  }

  /** Rolling back any number of steps and running again restores a fully migrated database. */
  lemma {:induction false} RollbackThenRunRestores<S>(plan: seq<Migration<S>>, schema: S, steps: int)
    requires ValidPlan(plan)
    requires AllUndo(plan, schema)
    ensures var full := Db(Fold(plan, schema, |plan|), Ids(plan));
            Perform(plan, Perform(plan, full, Down(steps, NO_FAULTS)), Up(NO_FAULTS)) == full
  {
    var full := Db(Fold(plan, schema, |plan|), Ids(plan));
    assert Ids(plan)[..|plan|] == Ids(plan);
    CallKeepsPrefix(plan, schema, full, Down(steps, NO_FAULTS));
    RunCompletes(plan, schema, Perform(plan, full, Down(steps, NO_FAULTS)));
  }
}
