/** QueuesadillaCallbacks: the job a queue worker runs for one dispatched
    record. It executes the record named in the job and reports success
    unless some record the execution yielded was marked failed; a name
    with no record is a failed job. */
module QueuesadillaCallbacks {

  import opened Wrappers
  import Values
  import opened CachedVariable
  import opened Forest
  import opened DatabaseCacheProvider
  import opened CachedVariableUtility
  import opened ExecuteProperties

  /** The verdict of `executeJob` on a table: false for an unknown name,
      otherwise whether no record yielded by executing the named one was
      marked failed. */
  ghost function JobSucceeds(t: Table, name: string, now: int, compute: Computation): bool
    requires StoreValid(t)
  {
    match FindByName(t, name)
    case None => false
    case Some(r) =>
      FoundIsStored(t, name);
      NoneFailed(Run(t, r, now, compute).yielded)
  }

  /** The table after `executeJob`: unchanged for an unknown name,
      otherwise what executing the named record leaves. */
  ghost function JobTable(t: Table, name: string, now: int, compute: Computation): Table
    requires StoreValid(t)
  {
    match FindByName(t, name)
    case None => t
    case Some(r) =>
      FoundIsStored(t, name);
      Run(t, r, now, compute).table
  }

  /** `executeJob`: get the record, execute it, and fold the statuses of
      the records yielded. A missing record makes `execute` throw on its
      null argument, which the job turns into a failure. */
  method ExecuteJob(store: Store, name: string, now: int, compute: Computation) returns (ok: bool)
    requires store.Valid()
    modifies store
    ensures store.Valid()
    ensures ok == JobSucceeds(old(store.table), name, now, compute)
    ensures store.table == JobTable(old(store.table), name, now, compute)
  {
    ghost var t0 := store.table;
    var found := Get(store, name);
    if found.None? {
      return false;
    }
    var variable := found.value;
    FoundIsStored(t0, name);
    var results := Execute(store, variable, now, compute);
    ok := NoneReportedFailed(results);
  }

  /** The `foreach` of `executeJob` over the records yielded: false as
      soon as one of them is marked failed. */
  method NoneReportedFailed(results: seq<Row>) returns (ok: bool)
    ensures ok <==> forall i :: 0 <= i < |results| ==> results[i].status != Failed
  {
    ok := true;
    var i := 0;
    while i < |results|
      invariant 0 <= i <= |results|
      invariant ok <==> forall j :: 0 <= j < i ==> results[j].status != Failed
    {
      if results[i].status == Failed {
        ok := false;
      }
      i := i + 1;
    }
  }

  /** A job whose name has no record fails and changes nothing. */
  lemma UnknownJobFails(t: Table, name: string, now: int, compute: Computation)
    requires StoreValid(t) && forall k :: 0 <= k < |t| ==> t[k].name != name
    ensures !JobSucceeds(t, name, now, compute) && JobTable(t, name, now, compute) == t
  {
  }

  /** A job whose record's own computation fails fails, and leaves that
      record failed. */
  lemma FailingComputationFailsJob(t: Table, name: string, k: nat, now: int, compute: Computation)
    requires StoreValid(t) && k < |t| && t[k].name == name
    requires Evaluate(t[k], compute).Failure?
    ensures !JobSucceeds(t, name, now, compute)
    ensures JobTable(t, name, now, compute)[k].status == Failed
  {
    FoundByName(t, name, k);
    FailureStopsAtRecord(t, t[k], now, compute);
  }

  /** A job over a subtree whose computations all succeed succeeds, and
      leaves every record of the subtree complete. */
  lemma SucceedingSubtreeSucceedsJob(t: Table, name: string, k: nat, now: int, compute: Computation)
    requires StoreValid(t) && k < |t| && t[k].name == name
    requires SubtreeSucceeds(t, k, compute)
    ensures JobSucceeds(t, name, now, compute)
    ensures forall j :: 0 <= j < |t| && Descends(Links(t), j, k) ==>
      JobTable(t, name, now, compute)[j].status == Complete
  {
    FoundByName(t, name, k);
    RunReportsNoFailure(t, t[k], now, compute);
    RunCompletesSubtree(t, t[k], now, compute);
  }

  /** A job succeeds exactly when every computation in the subtree of its
      record succeeds. */
  lemma JobSucceedsExactly(t: Table, name: string, k: nat, now: int, compute: Computation)
    requires StoreValid(t) && k < |t| && t[k].name == name
    ensures JobSucceeds(t, name, now, compute) <==> SubtreeSucceeds(t, k, compute)
  {
    FoundByName(t, name, k);
    RunReportsFailureExactly(t, t[k], now, compute);
  }

  /** Whatever the computations do, a job leaves the records `execute`
      reaches from its record executed, complete or failed, and every
      other record as it was. */
  lemma JobTableReached(t: Table, name: string, k: nat, now: int, compute: Computation)
    requires StoreValid(t) && k < |t| && t[k].name == name
    ensures forall j :: 0 <= j < |t| ==>
      JobTable(t, name, now, compute)[j]
        == if RunsFrom(t, j, k, compute) then Executed(t[j], now, compute) else t[j]
  {
    FoundByName(t, name, k);
    RunTable(t, t[k], now, compute);
  }

  /** A job in which `execute` reaches a dependent whose computation fails
      fails, and leaves that dependent failed with no content. */
  lemma FailingDependentFailsJob(t: Table, name: string, k: nat, j: nat, now: int, compute: Computation)
    requires StoreValid(t) && k < |t| && t[k].name == name && j < |t|
    requires RunsFrom(t, j, k, compute) && Evaluate(t[j], compute).Failure?
    ensures !JobSucceeds(t, name, now, compute)
    ensures JobTable(t, name, now, compute)[j].status == Failed
    ensures JobTable(t, name, now, compute)[j].content == Values.Null
  {
    RunsFromIsBelow(t, j, k, compute);
    JobSucceedsExactly(t, name, k, now, compute);
    JobTableReached(t, name, k, now, compute);
  }
}
