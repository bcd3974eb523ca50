/** CachedVariableUtility: adding records, the queue pass, execution of a
    record and its whole subtree, and resets. Each operation is a method
    over the store and entity objects, proved equal to a function over the
    table (`AddSpec`, `QueueAll`, `Run`, `ResetEach`); the modules
    UtilityProperties, QueueProperties and ExecuteProperties state what
    those functions promise. */
module CachedVariableUtility {

  import opened Wrappers
  import opened Values
  import opened CachedVariable
  import opened CachedVariablesTable
  import opened Forest
  import opened DatabaseCacheProvider

  /** The configuration `add` merges the given one over: '10 Minutes'. */
  const DefaultConfig: Config := map["interval" := Duration(600)]

  /** `Hash::merge` of two configurations: the keys of `over` win. The
      default configuration holds no array, so Hash::merge's recursive case
      never applies here. */
  function Merge(base: Config, over: Config): (c: Config)
    ensures c.Keys == base.Keys + over.Keys
    ensures forall k :: k in over ==> c[k] == over[k]
    ensures forall k :: k in base && k !in over ==> c[k] == base[k]
  {
    base + over
  }

  /** The fields of `new CachedVariable()`. */
  function NewRow(): Row
  {
    Row(None, None, "", Null, "", map[], 0, 0)
  }

  /** The entity `add(name, config, parent)` hands to the store: the record
      of that name (a new one when there is none), reset to initial with no
      content and the merged configuration, and linked to the parent's id
      when a parent is given (`parent` holds that id, itself None for an
      unsaved parent). */
  function Draft(t: Table, name: string, config: Config, parent: Option<Option<Id>>): Row
  {
    var base := match FindByName(t, name) case Some(r) => r case None => NewRow();
    base.(
      name := name,
      status := Initial,
      config := Merge(DefaultConfig, config),
      content := Null,
      parent := if parent.Some? then parent.value else base.parent)
  }

  /** `add(name, config, parent)`: the draft handed to the store. */
  function AddSpec(t: Table, name: string, config: Config, parent: Option<Option<Id>>, now: int)
    : Result<(Table, Row), Error>
  {
    ProviderAdd(t, Draft(t, name, config, parent), now)
  }

  /** The dispatch callback of the configuration: None when it is not
      callable. */
  type Dispatch = Option<Row -> bool>

  /** `_addToQueue`: hand the record to the dispatch callback, or throw
      when there is no callable one. */
  function AddToQueue(dispatch: Dispatch, r: Row): Result<bool, string>
  {
    match dispatch
    case None => Failure("Queue callback not valid")
    case Some(accept) => Success(accept(r))
  }

  /** The outcome of a queue pass: the new table, the records yielded
      (those set to pending), the records handed to the dispatch callback,
      and whether the pass stopped on a missing callback. */
  datatype QueueResult = QueueResult(table: Table, yielded: seq<Row>, dispatched: seq<Row>, aborted: bool)

  /** The new table and the records yielded, in yield order. */
  datatype Outcome = Outcome(table: Table, yielded: seq<Row>)

  /** Termination measure of a pass over the children of `parent` (over
      the roots when `parent` is None). */
  function Level(t: Table, parent: Option<Id>): nat
    requires StoreValid(t) && (parent.Some? ==> parent.value < |t|)
  {
    if parent.Some? then Height(Links(t), parent.value) else |t| + 1
  }

  /** `rows` are entity values of records in `t` whose parent is `parent`. */
  predicate ChildrenOf(t: Table, parent: Option<Id>, rows: seq<Row>)
  {
    && StoreValid(t)
    && (parent.Some? ==> parent.value < |t|)
    && forall i :: 0 <= i < |rows| ==> Matches(t, rows[i]) && rows[i].parent == parent
  }

  lemma ChildIsBelow(t: Table, parent: Option<Id>, r: Row)
    requires StoreValid(t) && (parent.Some? ==> parent.value < |t|)
    requires Matches(t, r) && r.parent == parent
    ensures Height(Links(t), r.id.value) < Level(t, parent)
  {
    if parent.Some? {
      ChildIsLower(Links(t), parent.value, r.id.value);
    }
  }

  /** One step of `queue` on a record: skip it, dispatch it, or descend
      into its dependents. */
  function QueueOne(t: Table, r: Row, now: int, dispatch: Dispatch): (res: QueueResult)
    requires StoreValid(t) && Matches(t, r)
    ensures SameShape(t, res.table)
    decreases Height(Links(t), r.id.value), 1
  {
    if IsSkippable(r.status) then
      QueueResult(t, [], [], false)
    else if RequiresExecution(r, now) then
      match AddToQueue(dispatch, r)
      case Failure(_) => QueueResult(t, [], [], true)
      case Success(accepted) =>
        if accepted then
          var pending := r.(status := Pending, modified := now);
          QueueResult(Put(t, pending), [pending], [r], false)
        else
          QueueResult(t, [], [r], false)
    else
      QueueAll(t, r.id, Children(t, r.id), now, dispatch)
  }

  /** `queue(rows)`: the steps for each record in turn, stopping when one
      throws. */
  function QueueAll(t: Table, parent: Option<Id>, rows: seq<Row>, now: int, dispatch: Dispatch)
    : (res: QueueResult)
    requires ChildrenOf(t, parent, rows)
    ensures SameShape(t, res.table)
    decreases Level(t, parent), 0, |rows|
  {
    if |rows| == 0 then
      QueueResult(t, [], [], false)
    else
      var pre := QueueAll(t, parent, rows[..|rows| - 1], now, dispatch);
      if pre.aborted then
        pre
      else
        SameShapeKeepsValid(t, pre.table);
        var r := rows[|rows| - 1];
        ChildIsBelow(t, parent, r);
        var step := QueueOne(pre.table, r, now, dispatch);
        QueueResult(step.table, pre.yielded + step.yielded, pre.dispatched + step.dispatched, step.aborted)
  }

  /** `execute(r)`: mark it ongoing, compute, then either mark it complete
      and execute every dependent, or clear its content and mark it failed. */
  function Run(t: Table, r: Row, now: int, compute: Computation): (res: Outcome)
    requires StoreValid(t) && Matches(t, r)
    ensures SameShape(t, res.table)
    decreases Height(Links(t), r.id.value), 1
  {
    var ongoing := r.(status := Ongoing, modified := now);
    var t1 := Put(t, ongoing);
    match Evaluate(ongoing, compute)
    case Failure(_) =>
      var failed := ongoing.(content := Null, status := Failed);
      Outcome(Put(t1, failed), [ongoing, failed])
    case Success(value) =>
      var complete := ongoing.(content := value, status := Complete);
      var t2 := Put(t1, complete);
      SameShapeKeepsValid(t, t2);
      var rest := RunAll(t2, r.id.value, Children(t2, r.id), now, compute);
      Outcome(rest.table, [ongoing, complete] + rest.yielded)
  }

  /** The dependents of one record executed in turn. */
  function RunAll(t: Table, parent: Id, rows: seq<Row>, now: int, compute: Computation): (res: Outcome)
    requires ChildrenOf(t, Some(parent), rows)
    ensures SameShape(t, res.table)
    decreases Height(Links(t), parent), 0, |rows|
  {
    if |rows| == 0 then
      Outcome(t, [])
    else
      var pre := RunAll(t, parent, rows[..|rows| - 1], now, compute);
      SameShapeKeepsValid(t, pre.table);
      var r := rows[|rows| - 1];
      ChildIsBelow(t, Some(parent), r);
      var last := Run(pre.table, r, now, compute);
      Outcome(last.table, pre.yielded + last.yielded)
  }

  /** `reset` applied to each of `rows` in turn. */
  function ResetEach(t: Table, rows: seq<Row>, now: int): (res: Outcome)
    requires forall i :: 0 <= i < |rows| ==> Matches(t, rows[i])
    ensures SameShape(t, res.table)
  {
    if |rows| == 0 then
      Outcome(t, [])
    else
      var pre := ResetEach(t, rows[..|rows| - 1], now);
      var reset := rows[|rows| - 1].(status := Initial, modified := now);
      MatchesAcross(t, pre.table, rows[|rows| - 1]);
      Outcome(Put(pre.table, reset), pre.yielded + [reset])
  }

  /** `getAsKeyValue`: name => content; a later record wins over an
      earlier one of the same name. */
  function AsKeyValue(rows: seq<Row>): (m: map<string, Value>)
    ensures m.Keys == set i | 0 <= i < |rows| :: rows[i].name
  {
    if |rows| == 0 then map[]
    else
      var pre := AsKeyValue(rows[..|rows| - 1]);
      var m := pre[rows[|rows| - 1].name := rows[|rows| - 1].content];
      assert m.Keys == set i | 0 <= i < |rows| :: rows[i].name by {
        forall n ensures n in m.Keys <==> n in set i | 0 <= i < |rows| :: rows[i].name {
          if n in pre.Keys {
            var j :| 0 <= j < |rows| - 1 && rows[..|rows| - 1][j].name == n;
            assert rows[j].name == n;
          }
        }
      }
      m
  }

  // ---------------------------------------------------------------------
  // Steps of the specification functions, one element at a time

  lemma ResetEachStep(t: Table, rows: seq<Row>, n: nat, now: int)
    requires forall i :: 0 <= i < |rows| ==> Matches(t, rows[i])
    requires n < |rows|
    ensures var pre := ResetEach(t, rows[..n], now);
      var reset := rows[n].(status := Initial, modified := now);
      Matches(pre.table, reset) &&
      ResetEach(t, rows[..n + 1], now) == Outcome(Put(pre.table, reset), pre.yielded + [reset])
  {
    assert rows[..n + 1][..n] == rows[..n];
    MatchesAcross(t, ResetEach(t, rows[..n], now).table, rows[n]);
  }

  lemma RunAllStep(t: Table, parent: Id, rows: seq<Row>, n: nat, now: int, compute: Computation)
    requires ChildrenOf(t, Some(parent), rows) && n < |rows|
    ensures var pre := RunAll(t, parent, rows[..n], now, compute);
      && StoreValid(pre.table) && Matches(pre.table, rows[n])
      && Height(Links(pre.table), rows[n].id.value) < Height(Links(t), parent)
      && RunAll(t, parent, rows[..n + 1], now, compute)
         == var last := Run(pre.table, rows[n], now, compute);
            Outcome(last.table, pre.yielded + last.yielded)
  {
    assert rows[..n + 1][..n] == rows[..n];
    var pre := RunAll(t, parent, rows[..n], now, compute);
    SameShapeKeepsValid(t, pre.table);
    MatchesAcross(t, pre.table, rows[n]);
    ChildIsBelow(t, Some(parent), rows[n]);
  }

  lemma QueueAllStep(t: Table, parent: Option<Id>, rows: seq<Row>, n: nat, now: int, dispatch: Dispatch)
    requires ChildrenOf(t, parent, rows) && n < |rows|
    requires !QueueAll(t, parent, rows[..n], now, dispatch).aborted
    ensures var pre := QueueAll(t, parent, rows[..n], now, dispatch);
      && StoreValid(pre.table) && Matches(pre.table, rows[n])
      && Height(Links(pre.table), rows[n].id.value) < Level(t, parent)
      && QueueAll(t, parent, rows[..n + 1], now, dispatch)
         == var step := QueueOne(pre.table, rows[n], now, dispatch);
            QueueResult(step.table, pre.yielded + step.yielded, pre.dispatched + step.dispatched, step.aborted)
  {
    assert rows[..n + 1][..n] == rows[..n];
    var pre := QueueAll(t, parent, rows[..n], now, dispatch);
    SameShapeKeepsValid(t, pre.table);
    MatchesAcross(t, pre.table, rows[n]);
    ChildIsBelow(t, parent, rows[n]);
  }

  lemma RunFails(t: Table, r: Row, now: int, compute: Computation)
    requires StoreValid(t) && Matches(t, r)
    requires Evaluate(r.(status := Ongoing, modified := now), compute).Failure?
    ensures var ongoing := r.(status := Ongoing, modified := now);
      var failed := ongoing.(content := Null, status := Failed);
      Run(t, r, now, compute) == Outcome(Put(Put(t, ongoing), failed), [ongoing, failed])
  {
  }

  lemma RunSucceeds(t: Table, r: Row, now: int, compute: Computation, complete: Row, t2: Table)
    requires StoreValid(t) && Matches(t, r)
    requires Evaluate(r.(status := Ongoing, modified := now), compute).Success?
    requires complete == r.(status := Complete, modified := now,
                            content := Evaluate(r.(status := Ongoing, modified := now), compute).value)
    requires t2 == Put(Put(t, r.(status := Ongoing, modified := now)), complete)
    ensures StoreValid(t2) && Matches(t2, complete) && Links(t2) == Links(t)
    ensures var rest := RunAll(t2, r.id.value, Children(t2, r.id), now, compute);
      Run(t, r, now, compute) == Outcome(rest.table, [r.(status := Ongoing, modified := now), complete] + rest.yielded)
  {
    SameShapeKeepsValid(t, t2);
  }

  /** A pass that stopped stays stopped: later records are not looked at
      (and a pass over all of `rows` is the pass over all of them). */
  lemma {:induction false} AbortStops(t: Table, parent: Option<Id>, rows: seq<Row>, k: nat, now: int, dispatch: Dispatch)
    requires ChildrenOf(t, parent, rows) && k <= |rows|
    requires k == |rows| || QueueAll(t, parent, rows[..k], now, dispatch).aborted
    ensures QueueAll(t, parent, rows, now, dispatch) == QueueAll(t, parent, rows[..k], now, dispatch)
    decreases |rows| - k
  {
    if k < |rows| {
      assert rows[..k + 1][..k] == rows[..k];
      AbortStops(t, parent, rows, k + 1, now, dispatch);
    } else {
      assert rows[..k] == rows;
    }
  }

  // ---------------------------------------------------------------------
  // The operations over the store and entity objects

  /** `add`: the record named `name`, (re)set to initial. */
  method Add(store: Store, name: string, config: Config, parent: Option<Variable>, now: int)
    returns (res: Result<Variable, Error>)
    requires store.Valid()
    modifies store
    ensures store.Valid()
    ensures match AddSpec(old(store.table), name, config,
                          if parent.Some? then Some(parent.value.id) else None, now)
            case Failure(e) => res == Failure(e) && store.table == old(store.table)
            case Success((u, saved)) =>
              store.table == u && res.Success? && fresh(res.value) && res.value.Snapshot() == saved
  {
    var variable := Prepare(store, name, config, parent);
    res := store.Add(variable, now);
  }

  /** The part of `add` before the store is called: find or create the
      entity and set its fields. */
  method Prepare(store: Store, name: string, config: Config, parent: Option<Variable>)
    returns (variable: Variable)
    ensures fresh(variable)
    ensures variable.Snapshot() == Draft(store.table, name, config, if parent.Some? then Some(parent.value.id) else None)
  {
    var found := store.GetVariable(name);
    if found.None? {
      variable := new Variable();
    } else {
      variable := found.value;
    }
    variable.name := name;
    variable.status := Initial;
    variable.config := Merge(DefaultConfig, config);
    variable.content := Null;
    if parent.Some? {
      variable.parentId := parent.value.id;
    }
  }

  /** `get`: the record with that name, or null. */
  method Get(store: Store, name: string) returns (v: Option<Variable>)
    ensures match FindByName(store.table, name)
            case None => v.None?
            case Some(r) => v.Some? && fresh(v.value) && v.value.Snapshot() == r
  {
    v := store.GetVariable(name);
  }

  /** `getMultiple`: the records whose name is in `names`. */
  method GetMultiple(store: Store, names: seq<string>) returns (res: Result<seq<Variable>, Error>)
    ensures |names| == 0 <==> res == Failure(EmptyList)
    ensures res.Success? ==>
      && |res.value| == |Named(store.table, names)|
      && forall i :: 0 <= i < |res.value| ==>
           fresh(res.value[i]) && res.value[i].Snapshot() == Named(store.table, names)[i]
  {
    res := store.GetVariables(names);
  }

  /** `_update`: persist an entity the engine loaded and changed. Its
      status is always a recognised one, so the save cannot fail; only the
      modification time is stamped. */
  method Update(store: Store, v: Variable, now: int)
    requires store.Valid() && Matches(store.table, v.Snapshot()) && v.status in TypeDescriptions()
    modifies store, v
    ensures store.Valid()
    ensures v.Snapshot() == old(v.Snapshot()).(modified := now)
    ensures store.table == Put(old(store.table), v.Snapshot())
  {
    SaveLoaded(store.table, v.Snapshot(), now);
    var saved := store.UpdateVariable(v, now);
  }

  /** `reset`: back to initial from any status, persisted. */
  method Reset(store: Store, v: Variable, now: int) returns (r: Variable)
    requires store.Valid() && Matches(store.table, v.Snapshot())
    modifies store, v
    ensures store.Valid() && r == v
    ensures v.Snapshot() == old(v.Snapshot()).(status := Initial, modified := now)
    ensures store.table == Put(old(store.table), v.Snapshot())
  {
    v.status := Initial;
    Update(store, v, now);
    r := v;
  }

  /** `resetAll`: reset every root, yielding each. */
  method ResetAll(store: Store, now: int) returns (yielded: seq<Row>)
    requires store.Valid()
    modifies store
    ensures store.Valid()
    ensures ResetEach(old(store.table), Children(old(store.table), None), now) == Outcome(store.table, yielded)
  {
    ghost var t0 := store.table;
    var roots := store.GetMainVariables();
    yielded := [];
    var i := 0;
    while i < |roots|
      invariant 0 <= i <= |roots|
      invariant store.Valid() && SameShape(t0, store.table)
      invariant ResetEach(t0, roots[..i], now) == Outcome(store.table, yielded)
    {
      ResetEachStep(t0, roots, i, now);
      MatchesAcross(t0, store.table, roots[i]);
      var variable := new Variable.Load(roots[i]);
      var reset := Reset(store, variable, now);
      yielded := yielded + [reset.Snapshot()];
      i := i + 1;
    }
    assert roots[..i] == roots;
  }

  /** `execute`: the record and then, on success, its whole subtree. The
      values yielded are the entity's value after each save. */
  method Execute(store: Store, v: Variable, now: int, compute: Computation) returns (trace: seq<Row>)
    requires store.Valid() && Matches(store.table, v.Snapshot())
    modifies store, v
    ensures store.Valid()
    ensures Run(old(store.table), old(v.Snapshot()), now, compute) == Outcome(store.table, trace)
    ensures |trace| >= 2 && v.Snapshot() == trace[1]
    decreases Height(Links(store.table), v.id.value), 3
  {
    ghost var t0, r0 := store.table, v.Snapshot();
    v.status := Ongoing;
    Update(store, v, now);
    var ongoing := v.Snapshot();

    var outcome := v.Execute(compute);
    if outcome.Failure? {
      RunFails(t0, r0, now, compute);
      var failed := MarkFailed(store, v, now);
      trace := [ongoing, failed];
      return;
    }

    SameShapeKeepsValid(t0, store.table);
    var complete, rest := MarkComplete(store, v, now, compute);
    RunSucceeds(t0, r0, now, compute, complete, Put(Put(t0, ongoing), complete));
    trace := [ongoing, complete] + rest;
  }

  /** The rest of the `try` block of `execute` once the computation
      succeeded: mark the record complete, persist it, and execute its
      dependents. */
  method MarkComplete(store: Store, v: Variable, now: int, compute: Computation)
    returns (complete: Row, rest: seq<Row>)
    requires store.Valid() && Matches(store.table, v.Snapshot())
    modifies store, v
    ensures store.Valid()
    ensures complete == old(v.Snapshot()).(status := Complete, modified := now) && v.Snapshot() == complete
    ensures StoreValid(Put(old(store.table), complete))
    ensures RunAll(Put(old(store.table), complete), complete.id.value,
                   Children(Put(old(store.table), complete), complete.id), now, compute)
         == Outcome(store.table, rest)
    decreases Height(Links(store.table), v.id.value), 2
  {
    ghost var t0 := store.table;
    v.status := Complete;
    Update(store, v, now);
    complete := v.Snapshot();
    SameShapeKeepsValid(t0, store.table);
    rest := ExecuteDependents(store, v, now, compute);
  }

  /** The `catch` block of `execute`: clear the content, mark the record
      failed and persist it. */
  method MarkFailed(store: Store, v: Variable, now: int) returns (failed: Row)
    requires store.Valid() && Matches(store.table, v.Snapshot())
    modifies store, v
    ensures store.Valid()
    ensures failed == old(v.Snapshot()).(content := Null, status := Failed, modified := now)
    ensures v.Snapshot() == failed && store.table == Put(old(store.table), failed)
  {
    v.content := Null;
    v.status := Failed;
    Update(store, v, now);
    failed := v.Snapshot();
  }

  /** The dependents of `v` fetched in `execute`, then each executed in
      turn. */
  method ExecuteDependents(store: Store, v: Variable, now: int, compute: Computation)
    returns (trace: seq<Row>)
    requires store.Valid() && Matches(store.table, v.Snapshot())
    modifies store
    ensures store.Valid()
    ensures RunAll(old(store.table), v.id.value, Children(old(store.table), v.id), now, compute)
         == Outcome(store.table, trace)
    decreases Height(Links(store.table), v.id.value), 1
  {
    var dependents := store.GetDependentVariables(v);
    trace := ExecuteEach(store, v.id.value, dependents, now, compute);
  }

  /** The `foreach` over the dependents in `execute`. */
  method ExecuteEach(store: Store, parent: Id, dependents: seq<Row>, now: int, compute: Computation)
    returns (trace: seq<Row>)
    requires store.Valid() && ChildrenOf(store.table, Some(parent), dependents)
    modifies store
    ensures store.Valid()
    ensures RunAll(old(store.table), parent, dependents, now, compute) == Outcome(store.table, trace)
    decreases Height(Links(store.table), parent), 0
  {
    ghost var t0 := store.table;
    trace := [];
    var i := 0;
    while i < |dependents|
      invariant 0 <= i <= |dependents|
      invariant store.Valid()
      invariant RunAll(t0, parent, dependents[..i], now, compute) == Outcome(store.table, trace)
    {
      RunAllStep(t0, parent, dependents, i, now, compute);
      SameShapeKeepsValid(t0, store.table);
      var sub := ExecuteRow(store, dependents[i], now, compute);
      trace := trace + sub;
      i := i + 1;
    }
    assert dependents[..i] == dependents;
  }

  /** One record of a result set, hydrated as the loop reaches it, then
      executed. */
  method ExecuteRow(store: Store, row: Row, now: int, compute: Computation) returns (trace: seq<Row>)
    requires store.Valid() && Matches(store.table, row)
    modifies store
    ensures store.Valid()
    ensures Run(old(store.table), row, now, compute) == Outcome(store.table, trace)
    decreases Height(Links(store.table), row.id.value), 4
  {
    var dependent := new Variable.Load(row);
    trace := Execute(store, dependent, now, compute);
  }

  /** `queue()`: the pass from the roots. */
  method Queue(store: Store, now: int, dispatch: Dispatch)
    returns (yielded: seq<Row>, dispatched: seq<Row>, aborted: bool)
    requires store.Valid()
    modifies store
    ensures store.Valid()
    ensures QueueAll(old(store.table), None, Children(old(store.table), None), now, dispatch)
         == QueueResult(store.table, yielded, dispatched, aborted)
  {
    var roots := store.GetMainVariables();
    yielded, dispatched, aborted := QueueEach(store, roots, None, now, dispatch);
  }

  /** `queue(variables)`: the pass over a result set of records, all
      children of `parent` (roots when it is None). */
  method QueueEach(store: Store, rows: seq<Row>, ghost parent: Option<Id>, now: int, dispatch: Dispatch)
    returns (yielded: seq<Row>, dispatched: seq<Row>, aborted: bool)
    requires ChildrenOf(store.table, parent, rows) && store.Valid()
    modifies store
    ensures store.Valid()
    ensures QueueAll(old(store.table), parent, rows, now, dispatch) == QueueResult(store.table, yielded, dispatched, aborted)
    decreases Level(store.table, parent), 0
  {
    ghost var t0 := store.table;
    yielded, dispatched, aborted := [], [], false;
    var i := 0;
    while i < |rows| && !aborted
      invariant 0 <= i <= |rows|
      invariant store.Valid()
      invariant QueueAll(t0, parent, rows[..i], now, dispatch) == QueueResult(store.table, yielded, dispatched, aborted)
    {
      QueueAllStep(t0, parent, rows, i, now, dispatch);
      SameShapeKeepsValid(t0, store.table);
      var y, d, a := QueueVariable(store, rows[i], now, dispatch);
      yielded, dispatched, aborted := yielded + y, dispatched + d, a;
      i := i + 1;
    }
    AbortStops(t0, parent, rows, i, now, dispatch);
  }

  /** The body of the `foreach` in `queue`, for one record of the result
      set, hydrated as the loop reaches it. */
  method QueueVariable(store: Store, row: Row, now: int, dispatch: Dispatch)
    returns (yielded: seq<Row>, dispatched: seq<Row>, aborted: bool)
    requires store.Valid() && Matches(store.table, row)
    modifies store
    ensures store.Valid()
    ensures QueueOne(old(store.table), row, now, dispatch) == QueueResult(store.table, yielded, dispatched, aborted)
    decreases Height(Links(store.table), row.id.value), 1
  {
    var variable := new Variable.Load(row);
    yielded, dispatched, aborted := [], [], false;
    if IsSkippable(variable.status) {
      return;
    }
    if RequiresExecution(variable.Snapshot(), now) {
      var accepted := AddToQueue(dispatch, variable.Snapshot());
      if accepted.Failure? {
        aborted := true;
        return;
      }
      dispatched := [variable.Snapshot()];
      if accepted.value {
        variable.status := Pending;
        Update(store, variable, now);
        yielded := [variable.Snapshot()];
      }
    } else {
      var dependents := store.GetDependentVariables(variable);
      yielded, dispatched, aborted := QueueEach(store, dependents, variable.id, now, dispatch);
    }
  }
}
