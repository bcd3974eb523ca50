/** The `update` command of CachedVariablesShell: `_update` walks the nested
    configuration `name => config`, where a config may hold a `variables`
    key with the configurations of the records that depend on it. Each
    entry is added, parent first, then its own `variables` are walked with
    the entry as parent. The walk is a generator: the records added are
    yielded one by one, and an exception (a value that is not an array, a
    failed `add`) ends it with the records added so far kept. */
module CachedVariablesShell {

  import opened Wrappers
  import opened Values
  import opened CachedVariable
  import opened Forest
  import opened DatabaseCacheProvider
  import opened CachedVariableUtility
  import opened UtilityProperties

  /** Why a walk stopped early: a configuration that is not an array (the
      TypeError of an `array` parameter), or an exception thrown by `add`. */
  datatype WalkError = NotAnArray | AddFailed(error: Error)

  /** The store after a walk, the records it yielded, and how it ended. */
  datatype Walk = Walk(table: Table, added: seq<Row>, error: Option<WalkError>)

  /** A value passed as `array $varConfig`: its entries, or None when PHP
      refuses it. A list's items are keyed 0, 1, ... */
  function Entries(v: Value): (r: Option<seq<(string, Value)>>)
    ensures r.Some? <==> v.Dict? || v.List?
    ensures v.Dict? ==> r == Some(v.entries)
    ensures v.List? ==> r == Some(ListEntries(v.items))
  {
    match v
    case Dict(es) => Some(es)
    case List(items) => Some(ListEntries(items))
    case _ => None
  }

  /** A configuration `variables` is not set in: absent or null. */
  predicate Clean(config: Config)
  {
    "variables" !in config || config["variables"] == Null
  }

  /** One entry's value split into the configuration handed to `add` and
      the nested `variables`, when they are set; None when `add` refuses
      the value (it is not an array). */
  function Split(x: Value): (r: Option<(Config, Option<Value>)>)
    ensures r.Some? <==> x.Dict? || x.List?
    ensures r.Some? ==> Clean(r.value.0)
    ensures r.Some? && r.value.1.Some? ==>
      x.Dict? && Values.Get(x.entries, "variables") == r.value.1 &&
      ("variables", r.value.1.value) in x.entries
  {
    match x
    case Dict(es) =>
      var sub := Values.Get(es, "variables");
      var kept := if sub.Some? then Remove(es, "variables") else es;
      GetAgreesWithConfig(es, "variables");
      assert "variables" !in ToConfig(kept) || sub.None?;
      Some((ToConfig(kept), sub))
    case List(items) =>
      var es := ListEntries(items);
      assert forall i :: 0 <= i < |es| ==> es[i].0 != "variables" by {
        forall i | 0 <= i < |es| ensures es[i].0 != "variables" {
          assert es[i].0[0] != 'v';
        }
      }
      Some((ToConfig(es), None))
    case _ => None
  }

  // ---------------------------------------------------------------------
  // The walk over the store

  /** `_update(varConfig, parent)`: nothing for an empty array; otherwise
      the parent is looked up by name (a name not found passes no parent)
      and the entries are added in order. */
  function LevelWalk(t: Table, v: Value, parent: Option<string>, now: int): Walk
    decreases v, 3
  {
    match Entries(v)
    case None => Walk(t, [], Some(NotAnArray))
    case Some(es) =>
      if |es| == 0 then Walk(t, [], None)
      else
        var p := if parent.None? then None
                 else match FindByName(t, parent.value) case Some(r) => Some(r.id) case None => None;
        EntriesWalk(t, v, p, 0, [], now)
  }

  /** The entries of `v` from the `i`-th on, each added with the parent
      argument `p`, after the records `done` were yielded; the walk stops
      at the first error. */
  function EntriesWalk(t: Table, v: Value, p: Option<Option<Id>>, i: nat, done: seq<Row>, now: int): Walk
    requires Entries(v).Some? && i <= |Entries(v).value|
    decreases v, 2, |Entries(v).value| - i
  {
    var es := Entries(v).value;
    if i == |es| then Walk(t, done, None)
    else
      assert v.Dict? ==> es[i] in v.entries;
      assert v.List? ==> es[i].1 == v.items[i];
      var step := EntryWalk(t, es[i].0, es[i].1, p, now);
      if step.error.Some? then Walk(step.table, done + step.added, step.error)
      else EntriesWalk(step.table, v, p, i + 1, done + step.added, now)
  }

  /** One iteration of the `foreach`: split off `variables`, then add. */
  function EntryWalk(t: Table, name: string, x: Value, p: Option<Option<Id>>, now: int): Walk
    decreases x, 1
  {
    match Split(x)
    case None => Walk(t, [], Some(NotAnArray))
    case Some((config, sub)) => AddWalk(t, name, x, config, sub, p, now)
  }

  /** Yield the record `add` returns, then walk the nested entries with
      this one as parent. */
  function AddWalk(t: Table, name: string, x: Value, config: Config, sub: Option<Value>,
                   p: Option<Option<Id>>, now: int): Walk
    requires Split(x) == Some((config, sub))
    decreases x, 0
  {
    match AddSpec(t, name, config, p, now)
    case Failure(e) => Walk(t, [], Some(AddFailed(e)))
    case Success((u, saved)) =>
      if sub.None? then Walk(u, [saved], None)
      else
        var rest := LevelWalk(u, sub.value, Some(name), now);
        Walk(rest.table, [saved] + rest.added, rest.error)
  }

  // ---------------------------------------------------------------------
  // The plan: which `add` calls the walk makes, independent of the store

  /** One `add` call of the walk: the name, the configuration passed (its
      `variables` removed) and, for a nested entry, the position in the
      plan of the entry it is nested in. */
  datatype Step = Step(name: string, config: Config, up: Option<nat>)

  /** The `add` calls of `_update(v)` in the order they are made, after
      those in `done`; None when some configuration in `v` is not an
      array. Entries nested in the step at position `up` point at it. */
  function LevelPlan(v: Value, up: Option<nat>, done: seq<Step>): Option<seq<Step>>
    decreases v, 3
  {
    if Entries(v).None? then None else EntriesPlan(v, up, 0, done)
  }

  function EntriesPlan(v: Value, up: Option<nat>, i: nat, done: seq<Step>): Option<seq<Step>>
    requires Entries(v).Some? && i <= |Entries(v).value|
    decreases v, 2, |Entries(v).value| - i
  {
    var es := Entries(v).value;
    if i == |es| then Some(done)
    else
      assert v.Dict? ==> es[i] in v.entries;
      assert v.List? ==> es[i].1 == v.items[i];
      match EntryPlan(es[i].0, es[i].1, up, done)
      case None => None
      case Some(more) => EntriesPlan(v, up, i + 1, more)
  }

  /** One entry: its own `add`, then those of its `variables`, which
      point at it. */
  function EntryPlan(name: string, x: Value, up: Option<nat>, done: seq<Step>): Option<seq<Step>>
    decreases x, 1
  {
    match Split(x)
    case None => None
    case Some((config, sub)) =>
      var more := done + [Step(name, config, up)];
      if sub.None? then Some(more) else LevelPlan(sub.value, Some(|done|), more)
  }

  /** The plan of the `update` command: `_update(config)` with no parent. */
  function Plan(v: Value): Option<seq<Step>>
  {
    LevelPlan(v, None, [])
  }

  /** A plan only ever grows. */
  lemma {:induction false} LevelPlanExtends(v: Value, up: Option<nat>, done: seq<Step>)
    requires LevelPlan(v, up, done).Some?
    ensures var plan := LevelPlan(v, up, done).value;
      |plan| >= |done| && plan[..|done|] == done
    decreases v, 3
  {
    EntriesPlanExtends(v, up, 0, done);
  }

  lemma {:induction false} EntriesPlanExtends(v: Value, up: Option<nat>, i: nat, done: seq<Step>)
    requires Entries(v).Some? && i <= |Entries(v).value|
    requires EntriesPlan(v, up, i, done).Some?
    ensures var plan := EntriesPlan(v, up, i, done).value;
      |plan| >= |done| && plan[..|done|] == done
    decreases v, 2, |Entries(v).value| - i
  {
    var es := Entries(v).value;
    if i < |es| {
      assert v.Dict? ==> es[i] in v.entries;
      assert v.List? ==> es[i].1 == v.items[i];
      var more := EntryPlan(es[i].0, es[i].1, up, done).value;
      EntryPlanExtends(es[i].0, es[i].1, up, done);
      EntriesPlanExtends(v, up, i + 1, more);
      var plan := EntriesPlan(v, up, i + 1, more).value;
      assert plan[..|done|] == plan[..|more|][..|done|];
    }
  }

  /** An entry adds at least its own step. */
  lemma {:induction false} EntryPlanExtends(name: string, x: Value, up: Option<nat>, done: seq<Step>)
    requires EntryPlan(name, x, up, done).Some?
    ensures var plan := EntryPlan(name, x, up, done).value;
      |plan| > |done| && plan[..|done|] == done && plan[|done|] == Step(name, Split(x).value.0, up)
    decreases x, 1
  {
    var (config, sub) := Split(x).value;
    var more := done + [Step(name, config, up)];
    if sub.Some? {
      LevelPlanExtends(sub.value, Some(|done|), more);
      var plan := LevelPlan(sub.value, Some(|done|), more).value;
      assert plan[..|done|] == plan[..|more|][..|done|];
      assert plan[|done|] == plan[..|more|][|done|];
    }
  }

  // ---------------------------------------------------------------------
  // The walk follows the plan

  /** Record `i` is what `add` made of step `i`: the name, the merged
      configuration, status `initial` and no content, and the parent: the
      record of the enclosing entry for a nested step, the parent argument
      `top` (when given) for a top-level one. */
  predicate StepAgrees(steps: seq<Step>, rows: seq<Row>, top: Option<Option<Id>>, i: nat)
    requires i < |steps| && i < |rows|
  {
    var s := steps[i];
    var r := rows[i];
    && r.name == s.name && Clean(s.config)
    && r.config == Merge(DefaultConfig, s.config)
    && r.status == Initial && r.content == Null
    && match s.up
       case Some(j) => j < i && r.parent == rows[j].id
       case None => top.Some? ==> r.parent == top.value
  }

  /** One record per step, each agreeing with its step. */
  predicate Follows(steps: seq<Step>, rows: seq<Row>, top: Option<Option<Id>>)
  {
    |steps| == |rows| && forall i :: 0 <= i < |rows| ==> StepAgrees(steps, rows, top, i)
  }

  /** The parent argument `p` passed at a level: the record of the step
      `up` for a nested level, `top` for the top one. */
  predicate Linked(up: Option<nat>, p: Option<Option<Id>>, rows: seq<Row>, top: Option<Option<Id>>)
  {
    match up
    case Some(j) => j < |rows| && p == Some(rows[j].id)
    case None => p == top
  }

  lemma FollowsAppend(steps: seq<Step>, rows: seq<Row>, top: Option<Option<Id>>, s: Step, r: Row)
    requires Follows(steps, rows, top)
    requires r.name == s.name && Clean(s.config) && r.config == Merge(DefaultConfig, s.config)
    requires r.status == Initial && r.content == Null
    requires match s.up
             case Some(j) => j < |rows| && r.parent == rows[j].id
             case None => top.Some? ==> r.parent == top.value
    ensures Follows(steps + [s], rows + [r], top)
  {
    var steps', rows' := steps + [s], rows + [r];
    forall i | 0 <= i < |rows'|
      ensures StepAgrees(steps', rows', top, i)
    {
      if i < |rows| {
        assert StepAgrees(steps, rows, top, i);
        assert steps'[i] == steps[i] && rows'[i] == rows[i];
        if steps[i].up.Some? {
          assert rows'[steps[i].up.value] == rows[steps[i].up.value];
        }
      } else {
        assert steps'[i] == s && rows'[i] == r;
        if s.up.Some? {
          assert rows'[s.up.value] == rows[s.up.value];
        }
      }
    }
  }

  /** What a walk from `rows` towards the plan `plan` achieved: the store
      stays valid, no configuration was refused, the records yielded
      follow the plan as far as they go, and the walk ends without error
      exactly when it has made every call of the plan. */
  predicate Progress(w: Walk, rows: seq<Row>, plan: seq<Step>, top: Option<Option<Id>>)
  {
    && StoreValid(w.table)
    && w.error != Some(NotAnArray)
    && |rows| + |w.added| <= |plan|
    && Follows(plan[..|rows| + |w.added|], rows + w.added, top)
    && (w.error.None? <==> |rows| + |w.added| == |plan|)
  }

  lemma {:induction false} LevelFollows(t: Table, v: Value, parent: Option<string>, up: Option<nat>,
                                        top: Option<Option<Id>>, steps: seq<Step>, rows: seq<Row>, now: int)
    requires StoreValid(t) && Follows(steps, rows, top) && LevelPlan(v, up, steps).Some?
    requires parent.None? ==> up.None? && top.None?
    requires parent.Some? ==>
      up.Some? && up.value < |rows| && FindByName(t, parent.value) == Some(rows[up.value])
    ensures Progress(LevelWalk(t, v, parent, now), rows, LevelPlan(v, up, steps).value, top)
    decreases v, 3
  {
    var es := Entries(v).value;
    if |es| == 0 {
      assert LevelPlan(v, up, steps).value == steps;
      AppendNothing(rows);
      TakeAll(steps);
    } else {
      var p := if parent.None? then None
               else match FindByName(t, parent.value) case Some(r) => Some(r.id) case None => None;
      AppendNothing(rows);
      EntriesFollow(t, v, p, 0, [], up, top, steps, rows, now);
    }
  }

  lemma {:induction false} EntriesFollow(t: Table, v: Value, p: Option<Option<Id>>, i: nat, done: seq<Row>,
                                         up: Option<nat>, top: Option<Option<Id>>,
                                         steps: seq<Step>, rows: seq<Row>, now: int)
    requires Entries(v).Some? && i <= |Entries(v).value|
    requires StoreValid(t) && Follows(steps, rows + done, top) && EntriesPlan(v, up, i, steps).Some?
    requires Linked(up, p, rows, top)
    ensures Progress(EntriesWalk(t, v, p, i, done, now), rows, EntriesPlan(v, up, i, steps).value, top)
    decreases v, 2, |Entries(v).value| - i, 2
  {
    if i == |Entries(v).value| {
      TakeAll(steps);
    } else {
      var es := Entries(v).value;
      assert v.Dict? ==> es[i] in v.entries;
      assert v.List? ==> es[i].1 == v.items[i];
      LinkedAppend(up, p, rows, done, top);
      EntryFollows(t, es[i].0, es[i].1, p, up, top, steps, rows + done, now);
      var more := EntryPlan(es[i].0, es[i].1, up, steps).value;
      var step := EntryWalk(t, es[i].0, es[i].1, p, now);
      if step.error.Some? {
        EntryStops(t, v, p, i, done, up, top, steps, rows, now);
      } else {
        RestFollows(t, v, p, i, done, up, top, steps, rows, now);
      }
    }
  }

  /** Entry `i` failed: the walk ends there. */
  lemma EntryStops(t: Table, v: Value, p: Option<Option<Id>>, i: nat, done: seq<Row>,
                   up: Option<nat>, top: Option<Option<Id>>, steps: seq<Step>, rows: seq<Row>, now: int)
    requires Entries(v).Some? && i < |Entries(v).value|
    requires EntriesPlan(v, up, i, steps).Some?
    requires var e := Entries(v).value[i];
      && EntryPlan(e.0, e.1, up, steps).Some?
      && EntryWalk(t, e.0, e.1, p, now).error.Some?
      && Progress(EntryWalk(t, e.0, e.1, p, now), rows + done, EntryPlan(e.0, e.1, up, steps).value, top)
    ensures Progress(EntriesWalk(t, v, p, i, done, now), rows, EntriesPlan(v, up, i, steps).value, top)
  {
    var e := Entries(v).value[i];
    var more := EntryPlan(e.0, e.1, up, steps).value;
    var step := EntryWalk(t, e.0, e.1, p, now);
    var plan := EntriesPlan(v, up, i, steps).value;
    assert plan == EntriesPlan(v, up, i + 1, more).value;
    assert EntriesWalk(t, v, p, i, done, now) == Walk(step.table, done + step.added, step.error);
    EntriesPlanExtends(v, up, i + 1, more);
    ProgressStops(step, rows, done, more, plan, top);
  }

  /** Entry `i` completed: the walk goes on with entry `i + 1`. */
  lemma {:induction false} RestFollows(t: Table, v: Value, p: Option<Option<Id>>, i: nat, done: seq<Row>,
                                       up: Option<nat>, top: Option<Option<Id>>,
                                       steps: seq<Step>, rows: seq<Row>, now: int)
    requires Entries(v).Some? && i < |Entries(v).value|
    requires EntriesPlan(v, up, i, steps).Some? && Linked(up, p, rows, top)
    requires var e := Entries(v).value[i];
      && EntryPlan(e.0, e.1, up, steps).Some?
      && EntryWalk(t, e.0, e.1, p, now).error.None?
      && Progress(EntryWalk(t, e.0, e.1, p, now), rows + done, EntryPlan(e.0, e.1, up, steps).value, top)
    ensures Progress(EntriesWalk(t, v, p, i, done, now), rows, EntriesPlan(v, up, i, steps).value, top)
    decreases v, 2, |Entries(v).value| - i, 1
  {
    var e := Entries(v).value[i];
    var more := EntryPlan(e.0, e.1, up, steps).value;
    var step := EntryWalk(t, e.0, e.1, p, now);
    assert EntriesPlan(v, up, i, steps) == EntriesPlan(v, up, i + 1, more);
    assert EntriesWalk(t, v, p, i, done, now) == EntriesWalk(step.table, v, p, i + 1, done + step.added, now);
    ProgressGoesOn(step, rows, done, more, top);
    EntriesFollow(step.table, v, p, i + 1, done + step.added, up, top, more, rows, now);
  }

  lemma {:induction false} EntryFollows(t: Table, name: string, x: Value, p: Option<Option<Id>>,
                                        up: Option<nat>, top: Option<Option<Id>>,
                                        steps: seq<Step>, rows: seq<Row>, now: int)
    requires StoreValid(t) && Follows(steps, rows, top) && EntryPlan(name, x, up, steps).Some?
    requires Linked(up, p, rows, top)
    ensures Progress(EntryWalk(t, name, x, p, now), rows, EntryPlan(name, x, up, steps).value, top)
    decreases x, 1
  {
    var (config, sub) := Split(x).value;
    AddFollows(t, name, x, config, sub, p, up, top, steps, rows, now);
  }

  lemma {:induction false} AddFollows(t: Table, name: string, x: Value, config: Config, sub: Option<Value>,
                                      p: Option<Option<Id>>, up: Option<nat>, top: Option<Option<Id>>,
                                      steps: seq<Step>, rows: seq<Row>, now: int)
    requires Split(x) == Some((config, sub))
    requires StoreValid(t) && Follows(steps, rows, top) && EntryPlan(name, x, up, steps).Some?
    requires Linked(up, p, rows, top)
    ensures Progress(AddWalk(t, name, x, config, sub, p, now), rows, EntryPlan(name, x, up, steps).value, top)
    decreases x, 0
  {
    var plan := EntryPlan(name, x, up, steps).value;
    var s := Step(name, config, up);
    EntryPlanExtends(name, x, up, steps);
    match AddSpec(t, name, config, p, now)
    case Failure(e) =>
      assert AddWalk(t, name, x, config, sub, p, now) == Walk(t, [], Some(AddFailed(e)));
      ProgressFailed(t, e, rows, steps, plan, top);
    case Success((u, saved)) =>
      AddStores(t, name, config, p, now);
      FollowsAppend(steps, rows, top, s, saved);
      if sub.Some? {
        LevelFollows(u, sub.value, Some(name), Some(|steps|), top, steps + [s], rows + [saved], now);
        var rest := LevelWalk(u, sub.value, Some(name), now);
        assert AddWalk(t, name, x, config, sub, p, now) == Walk(rest.table, [saved] + rest.added, rest.error);
        ProgressNested(rest, saved, rows, plan, top);
      } else {
        assert AddWalk(t, name, x, config, sub, p, now) == Walk(u, [saved], None);
        ProgressLeaf(u, saved, rows, plan, top);
      }
  }

  /** An `add` that failed has made no call of the plan. */
  lemma ProgressFailed(t: Table, e: Error, rows: seq<Row>, steps: seq<Step>, plan: seq<Step>,
                       top: Option<Option<Id>>)
    requires StoreValid(t) && Follows(steps, rows, top)
    requires |plan| > |steps| && plan[..|steps|] == steps
    ensures Progress(Walk(t, [], Some(AddFailed(e))), rows, plan, top)
  {
    AppendNothing(rows);
  }

  /** An entry with no `variables` has made its one call. */
  lemma ProgressLeaf(u: Table, saved: Row, rows: seq<Row>, plan: seq<Step>, top: Option<Option<Id>>)
    requires StoreValid(u) && Follows(plan, rows + [saved], top)
    ensures Progress(Walk(u, [saved], None), rows, plan, top)
  {
    TakeAll(plan);
  }

  /** An entry's record followed by its nested walk. */
  lemma ProgressNested(rest: Walk, saved: Row, rows: seq<Row>, plan: seq<Step>, top: Option<Option<Id>>)
    requires Progress(rest, rows + [saved], plan, top)
    ensures Progress(Walk(rest.table, [saved] + rest.added, rest.error), rows, plan, top)
  {
    Reassociate(rows, [saved], rest.added);
  }

  lemma LinkedAppend(up: Option<nat>, p: Option<Option<Id>>, rows: seq<Row>, more: seq<Row>,
                     top: Option<Option<Id>>)
    requires Linked(up, p, rows, top)
    ensures Linked(up, p, rows + more, top)
  {
    if up.Some? {
      assert (rows + more)[up.value] == rows[up.value];
    }
  }

  /** An entry that completed has made all its calls. */
  lemma ProgressGoesOn(step: Walk, rows: seq<Row>, done: seq<Row>, more: seq<Step>, top: Option<Option<Id>>)
    requires Progress(step, rows + done, more, top) && step.error.None?
    ensures StoreValid(step.table) && Follows(more, rows + (done + step.added), top)
  {
    Reassociate(rows, done, step.added);
    TakeAll(more);
  }

  /** A walk that stopped inside an entry stopped inside the whole plan. */
  lemma ProgressStops(step: Walk, rows: seq<Row>, done: seq<Row>, more: seq<Step>, plan: seq<Step>,
                      top: Option<Option<Id>>)
    requires Progress(step, rows + done, more, top) && step.error.Some?
    requires |more| <= |plan| && plan[..|more|] == more
    ensures Progress(Walk(step.table, done + step.added, step.error), rows, plan, top)
  {
    var n := |rows| + |done| + |step.added|;
    Reassociate(rows, done, step.added);
    TakeOfPrefix(plan, more, n);
  }

  lemma AppendNothing<T>(a: seq<T>)
    ensures a + [] == a
  {
  }

  lemma TakeAll<T>(a: seq<T>)
    ensures a[..|a|] == a
  {
  }

  lemma Reassociate<T>(a: seq<T>, b: seq<T>, c: seq<T>)
    ensures (a + b) + c == a + (b + c)
  {
  }

  lemma TakeOfPrefix<T>(a: seq<T>, b: seq<T>, n: nat)
    requires |b| <= |a| && a[..|b|] == b && n <= |b|
    ensures a[..n] == b[..n]
  {
  }

  // ---------------------------------------------------------------------
  // A configuration that is not an array at some level stops the walk

  lemma {:induction false} LevelRefused(t: Table, v: Value, parent: Option<string>, up: Option<nat>,
                                        steps: seq<Step>, now: int)
    requires LevelPlan(v, up, steps).None?
    ensures LevelWalk(t, v, parent, now).error.Some?
    decreases v, 3
  {
    if Entries(v).Some? {
      var p := if parent.None? then None
               else match FindByName(t, parent.value) case Some(r) => Some(r.id) case None => None;
      EntriesRefused(t, v, p, 0, [], up, steps, now);
    }
  }

  lemma {:induction false} EntriesRefused(t: Table, v: Value, p: Option<Option<Id>>, i: nat, done: seq<Row>,
                                          up: Option<nat>, steps: seq<Step>, now: int)
    requires Entries(v).Some? && i <= |Entries(v).value|
    requires EntriesPlan(v, up, i, steps).None?
    ensures EntriesWalk(t, v, p, i, done, now).error.Some?
    decreases v, 2, |Entries(v).value| - i
  {
    var es := Entries(v).value;
    assert v.Dict? ==> es[i] in v.entries;
    assert v.List? ==> es[i].1 == v.items[i];
    var step := EntryWalk(t, es[i].0, es[i].1, p, now);
    match EntryPlan(es[i].0, es[i].1, up, steps)
    case None =>
      EntryRefused(t, es[i].0, es[i].1, p, up, steps, now);
    case Some(more) =>
      if step.error.None? {
        EntriesRefused(step.table, v, p, i + 1, done + step.added, up, more, now);
      }
  }

  lemma {:induction false} EntryRefused(t: Table, name: string, x: Value, p: Option<Option<Id>>,
                                        up: Option<nat>, steps: seq<Step>, now: int)
    requires EntryPlan(name, x, up, steps).None?
    ensures EntryWalk(t, name, x, p, now).error.Some?
    decreases x, 1
  {
    if Split(x).Some? {
      var (config, sub) := Split(x).value;
      AddRefused(t, name, x, config, sub, p, up, steps, now);
    }
  }

  lemma {:induction false} AddRefused(t: Table, name: string, x: Value, config: Config, sub: Option<Value>,
                                      p: Option<Option<Id>>, up: Option<nat>, steps: seq<Step>, now: int)
    requires Split(x) == Some((config, sub)) && EntryPlan(name, x, up, steps).None?
    ensures AddWalk(t, name, x, config, sub, p, now).error.Some?
    decreases x, 0
  {
    var added := AddSpec(t, name, config, p, now);
    if added.Success? {
      LevelRefused(added.value.0, sub.value, Some(name), Some(|steps|), steps + [Step(name, config, up)], now);
    }
  }

  /** `update` ends with an error whenever some configuration in `v` is not
      an array: either that one is refused or an earlier `add` failed. */
  lemma RefusedConfigFails(t: Table, v: Value, now: int)
    requires Plan(v).None?
    ensures LevelWalk(t, v, None, now).error.Some?
  {
    LevelRefused(t, v, None, None, [], now);
  }

  /** `update`: the records yielded follow the plan of the configuration
      as far as they go, and all of them were added exactly when no error
      ended the walk. */
  lemma UpdateFollowsPlan(t: Table, v: Value, now: int)
    requires StoreValid(t) && Plan(v).Some?
    ensures Progress(LevelWalk(t, v, None, now), [], Plan(v).value, None)
  {
    LevelFollows(t, v, None, None, None, [], [], now);
  }

  /** A configuration whose every level is an array adds nothing, without
      error, exactly when it has no entries. */
  lemma EmptyConfigAddsNothing(t: Table, v: Value, now: int)
    requires StoreValid(t) && Plan(v).Some?
    ensures var w := LevelWalk(t, v, None, now);
      w.error.None? && w.added == [] <==> |Entries(v).value| == 0
  {
    UpdateFollowsPlan(t, v, now);
    var es := Entries(v).value;
    if |es| > 0 {
      assert v.Dict? ==> es[0] in v.entries;
      assert v.List? ==> es[0].1 == v.items[0];
      assert Plan(v) == EntriesPlan(v, None, 0, []);
      EntryPlanExtends(es[0].0, es[0].1, None, []);
      EntriesPlanExtends(v, None, 1, EntryPlan(es[0].0, es[0].1, None, []).value);
    }
  }

  // ---------------------------------------------------------------------
  // The walk as the shell runs it

  /** The parent argument `add` receives for a parent object (or null). */
  function ParentArg(parent: Option<Variable>): Option<Option<Id>>
    reads if parent.Some? then {parent.value} else {}
  {
    if parent.Some? then Some(parent.value.id) else None
  }

  /** `_update`: the records added, in the order they were yielded, and
      the error that ended the walk, if any. */
  method Update(store: Store, varConfig: Value, parent: Option<string>, now: int)
    returns (added: seq<Row>, error: Option<WalkError>)
    requires store.Valid()
    modifies store
    ensures store.Valid()
    ensures LevelWalk(old(store.table), varConfig, parent, now) == Walk(store.table, added, error)
    decreases varConfig, 3
  {
    var entries := Entries(varConfig);
    if entries.None? {
      return [], Some(NotAnArray);
    }
    if |entries.value| == 0 {
      return [], None;
    }
    var parentVar: Option<Variable> := None;
    if parent.Some? {
      parentVar := CachedVariableUtility.Get(store, parent.value);
    }
    added, error := UpdateEntries(store, varConfig, parentVar, now);
  }

  /** The `foreach` of `_update` over the entries of `v`. */
  method UpdateEntries(store: Store, v: Value, parent: Option<Variable>, now: int)
    returns (added: seq<Row>, error: Option<WalkError>)
    requires store.Valid() && Entries(v).Some?
    modifies store
    ensures store.Valid()
    ensures EntriesWalk(old(store.table), v, ParentArg(parent), 0, [], now) == Walk(store.table, added, error)
    decreases v, 2
  {
    ghost var whole := EntriesWalk(store.table, v, ParentArg(parent), 0, [], now);
    var es := Entries(v).value;
    added, error := [], None;
    for i := 0 to |es|
      invariant store.Valid()
      invariant whole == EntriesWalk(store.table, v, ParentArg(parent), i, added, now)
    {
      var more, err := UpdateAt(store, v, i, parent, added, now);
      added := added + more;
      if err.Some? {
        return added, err;
      }
    }
  }

  /** The `i`-th iteration of the `foreach` of `_update`. */
  method UpdateAt(store: Store, v: Value, i: nat, parent: Option<Variable>, ghost done: seq<Row>, now: int)
    returns (added: seq<Row>, error: Option<WalkError>)
    requires store.Valid() && Entries(v).Some? && i < |Entries(v).value|
    modifies store
    ensures store.Valid()
    ensures old(EntriesWalk(store.table, v, ParentArg(parent), i, done, now)) ==
      if error.Some? then Walk(store.table, done + added, error)
      else EntriesWalk(store.table, v, ParentArg(parent), i + 1, done + added, now)
    decreases v, 1
  {
    var e := Entries(v).value[i];
    assert v.Dict? ==> e in v.entries;
    assert v.List? ==> e.1 == v.items[i];
    added, error := UpdateEntry(store, e.0, e.1, parent, now);
  }

  /** One iteration of the `foreach`: split off `variables`, then add. */
  method UpdateEntry(store: Store, name: string, x: Value, parent: Option<Variable>, now: int)
    returns (added: seq<Row>, error: Option<WalkError>)
    requires store.Valid()
    modifies store
    ensures store.Valid()
    ensures EntryWalk(old(store.table), name, x, ParentArg(parent), now) == Walk(store.table, added, error)
    decreases x, 1
  {
    var split := Split(x);
    if split.None? {
      return [], Some(NotAnArray);
    }
    added, error := AddEntry(store, name, x, split.value.0, split.value.1, parent, now);
  }

  /** `add`, then `_update` over the nested entries with the record added
      as parent. */
  method AddEntry(store: Store, name: string, x: Value, config: Config, sub: Option<Value>,
                  parent: Option<Variable>, now: int)
    returns (added: seq<Row>, error: Option<WalkError>)
    requires store.Valid() && Split(x) == Some((config, sub))
    modifies store
    ensures store.Valid()
    ensures AddWalk(old(store.table), name, x, config, sub, ParentArg(parent), now) == Walk(store.table, added, error)
    decreases x, 0
  {
    var res := Add(store, name, config, parent, now);
    if res.Failure? {
      return [], Some(AddFailed(res.error));
    }
    added, error := [res.value.Snapshot()], None;
    if sub.Some? {
      var more, err := Update(store, sub.value, Some(name), now);
      added, error := added + more, err;
    }
  }
}
