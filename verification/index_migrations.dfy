/** The migrations in use: each creates indexes that do not exist, and drops them again. */
module IndexMigrations {
  import opened Wrappers
  import opened Collections
  import opened Text
  import opened Migrations
  import opened MigrationRuns

  datatype IndexName =
    | RequestLogsTimestamp
    | RequestLogsClientIp
    | RequestLogsDomain
    | ClientGroupAssignmentLookup
    | ClientGroupsDefaultUnique
    | GroupBlockedDomainsGroupId
    | GroupAllowedDomainsGroupId
    | StaticDhcpLeasesMac
    | StaticDhcpLeasesIp
    | RequestLogsDnssecStatus

  /** The indexes that exist. */
  type Schema = set<IndexName>

  datatype IndexStep = IndexStep(id: string, names: set<IndexName>)

  function IndexMigration(step: IndexStep): Migration<Schema> {
    Migration(step.id, Some((s: Schema) => s + step.names), Some((s: Schema) => s - step.names))
  }

  function IndexPlan(steps: seq<IndexStep>): (plan: seq<Migration<Schema>>)
    ensures |plan| == |steps|
  {
    seq(|steps|, i requires 0 <= i < |steps| => IndexMigration(steps[i]))
  }

  /** The ids are written in two parts, since only the sixth character tells them apart. */
  const SHIPPED: seq<IndexStep> := [
    IndexStep("00000" + "1_bootstrap_schema_migrations", {}),
    IndexStep("00000" + "2_request_log_indexes", {RequestLogsTimestamp, RequestLogsClientIp, RequestLogsDomain}),
    IndexStep("00000" + "3_group_management_indexes",
              {ClientGroupAssignmentLookup, ClientGroupsDefaultUnique,
               GroupBlockedDomainsGroupId, GroupAllowedDomainsGroupId}),
    IndexStep("00000" + "4_static_dhcp_lease_indexes", {StaticDhcpLeasesMac, StaticDhcpLeasesIp}),
    IndexStep("00000" + "5_dnssec_status_index", {RequestLogsDnssecStatus})
  ]

  /** The indexes of the steps from i up to k. */
  function Names(steps: seq<IndexStep>, i: nat, k: nat): set<IndexName>
    requires i <= k <= |steps|
  {
    if i == k then {} else Names(steps, i, k - 1) + steps[k - 1].names
  }

  ghost predicate NamesApart(steps: seq<IndexStep>) {
    forall i, j :: 0 <= i < j < |steps| ==> steps[i].names !! steps[j].names
  }

  lemma {:induction false} FoldOfIndexPlan(steps: seq<IndexStep>, schema: Schema, k: nat)
    requires k <= |steps|
    ensures Fold(IndexPlan(steps), schema, k) == schema + Names(steps, 0, k)
  {
    if k > 0 {
      FoldOfIndexPlan(steps, schema, k - 1);
    }
  }

  lemma {:induction false} WhoseName(steps: seq<IndexStep>, i: nat, k: nat, x: IndexName)
    requires i <= k <= |steps|
    ensures x in Names(steps, i, k) <==> exists j :: i <= j < k && x in steps[j].names
  {
    if i < k {
      WhoseName(steps, i, k - 1, x);
    }
  }

  /** A Down undoes its Up exactly when none of its indexes was there to begin with. */
  lemma {:induction false} UndoesExactly(steps: seq<IndexStep>, schema: Schema, i: nat)
    requires NamesApart(steps) && i < |steps|
    ensures Undoes(IndexPlan(steps), schema, i) <==> schema !! steps[i].names
  {
    FoldOfIndexPlan(steps, schema, i);
    FoldOfIndexPlan(steps, schema, i + 1);
    var names := steps[i].names;
    var before := schema + Names(steps, 0, i);
    assert DownOf(IndexPlan(steps)[i])(before + names) == (before + names) - names;
    assert Names(steps, 0, i) !! names by {
      forall x | x in Names(steps, 0, i) ensures x !in names {
        WhoseName(steps, 0, i, x);
      }
    }
    if schema !! names {
      assert (before + names) - names == before;
    } else {
      var x :| x in schema && x in names;
      assert x in before && x !in (before + names) - names;
    }
  }

  /**
   So the schema follows the applied steps through every history exactly when the database
   starts without any of the plan's indexes.
   */
  lemma {:induction false} SchemaFollowsExactly(steps: seq<IndexStep>, schema: Schema)
    requires ValidPlan(IndexPlan(steps)) && NamesApart(steps)
    ensures (forall calls :: AgreesAfter(IndexPlan(steps), schema, calls)) <==> schema !! Names(steps, 0, |steps|)
  {
    SchemaAgreesExactly(IndexPlan(steps), schema);
    forall i | 0 <= i < |steps| ensures Undoes(IndexPlan(steps), schema, i) <==> schema !! steps[i].names {
      UndoesExactly(steps, schema, i);
    }
    if schema !! Names(steps, 0, |steps|) {
      forall i, x | 0 <= i < |steps| && x in steps[i].names ensures x !in schema {
        WhoseName(steps, 0, |steps|, x);
      }
    } else {
      var x :| x in schema && x in Names(steps, 0, |steps|);
      WhoseName(steps, 0, |steps|, x);
    }
  }

  // ---------- rolling back and running again ----------

  lemma {:induction false} SplitNames(steps: seq<IndexStep>, i: nat, k: nat)
    requires i < k <= |steps|
    ensures Names(steps, i, k) == steps[i].names + Names(steps, i + 1, k)
  {
    if i + 1 < k {
      SplitNames(steps, i, k - 1);
    }
  }

  lemma {:induction false} AheadAddsNames(steps: seq<IndexStep>, i: nat, k: nat, schema: Schema)
    requires i <= k <= |steps|
    ensures Ahead(IndexPlan(steps), i, k, schema, NO_FAULTS) == (|steps|, schema + Names(steps, k, |steps|), None)
    decreases |steps| - i
  {
    if i == |steps| {
      assert schema + {} == schema;
    } else if i < k {
      AheadAddsNames(steps, i + 1, k, schema);
    } else {
      SplitNames(steps, k, |steps|);
      AheadAddsNames(steps, i + 1, k + 1, schema + steps[k].names);
      assert schema + steps[k].names + Names(steps, k + 1, |steps|) == schema + Names(steps, k, |steps|);
    }
  }

  lemma {:induction false} BackDropsNames(steps: seq<IndexStep>, count: nat, k: nat, schema: Schema)
    requires count <= k <= |steps|
    ensures Back(IndexPlan(steps), count, k, schema, NO_FAULTS) ==
            (k - count, schema - Names(steps, k - count, k), None)
    decreases count
  {
    if count == 0 {
      assert schema - {} == schema;
    } else {
      var rest := Names(steps, k - count, k - 1);
      BackDropsNames(steps, count - 1, k - 1, schema - steps[k - 1].names);
      assert schema - steps[k - 1].names - rest == schema - (rest + steps[k - 1].names);
    }
  }

  /** The database with exactly the first k steps of a full run left, on top of the given schema. */
  function Rolled(steps: seq<IndexStep>, schema: Schema, k: nat): Db<Schema>
    requires k <= |steps|
  {
    Db(schema + Names(steps, 0, |steps|) - Names(steps, k, |steps|), Ids(IndexPlan(steps))[..k])
  }

  lemma {:induction false} FullyApplied(steps: seq<IndexStep>, schema: Schema)
    ensures Rolled(steps, schema, |steps|) == Db(schema + Names(steps, 0, |steps|), Ids(IndexPlan(steps)))
  {
    var n := |steps|;
    assert Ids(IndexPlan(steps))[..n] == Ids(IndexPlan(steps));
    assert Names(steps, n, n) == {};
    assert schema + Names(steps, 0, n) - {} == schema + Names(steps, 0, n);
  }

  lemma {:induction false} BackIsRolled(steps: seq<IndexStep>, schema: Schema, count: nat)
    requires count <= |steps|
    ensures var full := Rolled(steps, schema, |steps|);
            Done(IndexPlan(steps), Back(IndexPlan(steps), count, |steps|, full.schema, NO_FAULTS)).0 ==
            Rolled(steps, schema, |steps| - count)
  {
    FullyApplied(steps, schema);
    BackDropsNames(steps, count, |steps|, Rolled(steps, schema, |steps|).schema);
  }

  lemma {:induction false} RolledBack(steps: seq<IndexStep>, schema: Schema, count: int) returns (k: nat)
    requires ValidPlan(IndexPlan(steps))
    ensures k <= |steps|
    ensures Perform(IndexPlan(steps), Rolled(steps, schema, |steps|), Down(count, NO_FAULTS)) ==
            Rolled(steps, schema, k)
  {
    var n := |steps|;
    k := n;
    if count > 0 {
      k := n - Least(count, n);
      assert |Rolled(steps, schema, n).applied| == n;
      DownIsBack(IndexPlan(steps), Rolled(steps, schema, n), count, NO_FAULTS);
      BackIsRolled(steps, schema, Least(count, n));
    }
  }

  lemma {:induction false} NamesWithin(steps: seq<IndexStep>, k: nat)
    requires k <= |steps|
    ensures Names(steps, k, |steps|) <= Names(steps, 0, |steps|)
  {
    forall x | x in Names(steps, k, |steps|) ensures x in Names(steps, 0, |steps|) {
      WhoseName(steps, k, |steps|, x);
      WhoseName(steps, 0, |steps|, x);
    }
  }

  lemma {:induction false} RunRestores(steps: seq<IndexStep>, schema: Schema, k: nat)
    requires ValidPlan(IndexPlan(steps)) && k <= |steps|
    ensures Perform(IndexPlan(steps), Rolled(steps, schema, k), Up(NO_FAULTS)) == Rolled(steps, schema, |steps|)
  {
    var plan := IndexPlan(steps);
    UpIsAhead(plan, Rolled(steps, schema, k), NO_FAULTS);
    AheadAddsNames(steps, 0, k, Rolled(steps, schema, k).schema);
    FullyApplied(steps, schema);
    NamesWithin(steps, k);
    var all, late := schema + Names(steps, 0, |steps|), Names(steps, k, |steps|);
    assert all - late + late == all;
  }

  /** A fully migrated database is restored by any rollback and a run, whatever it started with. */
  lemma {:induction false} RollbackThenRunRestoresIndexes(steps: seq<IndexStep>, schema: Schema, count: int)
    requires ValidPlan(IndexPlan(steps))
    ensures var plan := IndexPlan(steps);
            var full := Db(schema + Names(steps, 0, |steps|), Ids(plan));
            Perform(plan, Perform(plan, full, Down(count, NO_FAULTS)), Up(NO_FAULTS)) == full
  {
    FullyApplied(steps, schema);
    var k := RolledBack(steps, schema, count);
    RunRestores(steps, schema, k);
  }

  lemma {:induction false} ShippedIds(i: nat)
    requires i < 5
    ensures |SHIPPED[i].id| > 5 && SHIPPED[i].id[..5] == "00000" && SHIPPED[i].id[5] == ['1', '2', '3', '4', '5'][i]
  {
  }

  lemma {:induction false} ShippedNamesApart()
    ensures NamesApart(SHIPPED)
  {
  }

  lemma {:induction false} ShippedNamesAll(x: IndexName)
    ensures exists i :: 0 <= i < |SHIPPED| && x in SHIPPED[i].names
  {
    var i := match x
             case RequestLogsTimestamp => 1
             case RequestLogsClientIp => 1
             case RequestLogsDomain => 1
             case StaticDhcpLeasesMac => 3
             case StaticDhcpLeasesIp => 3
             case RequestLogsDnssecStatus => 4
             case _ => 2;
    assert x in SHIPPED[i].names;
  }

  /** The plan in use is valid, and each index belongs to exactly one of its steps. */
  lemma {:induction false} ShippedPlanIsValid()
    ensures ValidPlan(IndexPlan(SHIPPED)) && NamesApart(SHIPPED)
    ensures forall x :: x in Names(SHIPPED, 0, |SHIPPED|)
  {
    forall x ensures x in Names(SHIPPED, 0, |SHIPPED|) {
      ShippedNamesAll(x);
      WhoseName(SHIPPED, 0, |SHIPPED|, x);
    }
    ShippedNamesApart();
    var ids := Ids(IndexPlan(SHIPPED));
    forall i | 0 <= i < 5 ensures |ids[i]| > 5 && ids[i][..5] == "00000" && ids[i][5] == ['1', '2', '3', '4', '5'][i] {
      ShippedIds(i);
    }
    forall i, j | 0 <= i < j < |ids| ensures Less(ids[i], ids[j]) {
      LessAt(ids[i], ids[j], 5);
    }
  }

  /**
   The models already index the MAC and the address of static leases, under the same names by
   default; a database that starts with these does not follow the applied steps.
   */
  lemma {:induction false} ModelIndexesAreDropped()
    ensures !(forall calls :: AgreesAfter(IndexPlan(SHIPPED), {StaticDhcpLeasesMac, StaticDhcpLeasesIp}, calls))
  {
    var start: Schema := {StaticDhcpLeasesMac, StaticDhcpLeasesIp};
    ShippedPlanIsValid();
    SchemaFollowsExactly(SHIPPED, start);
    WhoseName(SHIPPED, 0, |SHIPPED|, StaticDhcpLeasesMac);
    assert StaticDhcpLeasesMac in SHIPPED[3].names;
  }
}
