/** What `execute()` promises about the subtree it runs over: records
    outside the subtree are left alone, every record it yields lies in the
    subtree, a record whose computation fails stops the descent below it,
    and when every computation in the subtree succeeds the whole subtree
    ends complete with fresh content and nothing is reported failed. */
module ExecuteProperties {

  import opened Wrappers
  import opened Values
  import opened CachedVariable
  import opened Forest
  import opened DatabaseCacheProvider
  import opened CachedVariableUtility

  /** The state `execute` leaves one record in: complete with the
      callback's value, or failed with no content; stamped `now` either
      way. */
  function Executed(x: Row, now: int, compute: Computation): Row
  {
    match Evaluate(x, compute)
    case Success(value) => x.(status := Complete, modified := now, content := value)
    case Failure(_) => x.(content := Null, status := Failed, modified := now)
  }

  /** `k` lies in the subtree of `a` and is not `a` itself. */
  ghost predicate StrictlyBelow(t: Table, k: nat, a: Id)
    requires Acyclic(Links(t)) && k < |t|
  {
    k != a && Descends(Links(t), k, a)
  }

  /** `k` lies in the subtree of one of `rows`. */
  ghost predicate BelowAny(t: Table, k: nat, rows: seq<Row>)
    requires Acyclic(Links(t)) && k < |t|
  {
    exists i :: 0 <= i < |rows| && rows[i].id.Some? && Descends(Links(t), k, rows[i].id.value)
  }

  /** Every computation in the subtree of `a` succeeds. */
  ghost predicate SubtreeSucceeds(t: Table, a: Id, compute: Computation)
    requires Acyclic(Links(t))
  {
    forall k :: 0 <= k < |t| && Descends(Links(t), k, a) ==> Evaluate(t[k], compute).Success?
  }

  /** No record of `rows` is reported failed. */
  predicate NoneFailed(rows: seq<Row>)
  {
    forall i :: 0 <= i < |rows| ==> rows[i].status != Failed
  }

  /** Every record of `rows` lies strictly below `parent`. */
  ghost predicate AllBelow(t: Table, rows: seq<Row>, parent: Id)
    requires Acyclic(Links(t))
  {
    forall i :: 0 <= i < |rows| ==>
      rows[i].id.Some? && rows[i].id.value < |t| && StrictlyBelow(t, rows[i].id.value, parent)
  }

  // ---------------------------------------------------------------------
  // Small facts

  lemma NoneFailedAppend(xs: seq<Row>, ys: seq<Row>)
    requires NoneFailed(xs) && NoneFailed(ys)
    ensures NoneFailed(xs + ys)
  {
    forall i | 0 <= i < |xs + ys| ensures (xs + ys)[i].status != Failed {
      if i >= |xs| { assert (xs + ys)[i] == ys[i - |xs|]; }
    }
  }

  lemma AllBelowAppend(t: Table, xs: seq<Row>, ys: seq<Row>, parent: Id)
    requires Acyclic(Links(t)) && AllBelow(t, xs, parent) && AllBelow(t, ys, parent)
    ensures AllBelow(t, xs + ys, parent)
  {
    var zs := xs + ys;
    forall i | 0 <= i < |zs|
      ensures zs[i].id.Some? && zs[i].id.value < |t| && StrictlyBelow(t, zs[i].id.value, parent)
    {
      if i >= |xs| { assert zs[i] == ys[i - |xs|]; }
    }
  }

  /** The computation sees only the name and the configuration. */
  lemma EvaluateByShape(x: Row, y: Row, compute: Computation)
    requires x.name == y.name && x.config == y.config
    ensures Evaluate(x, compute) == Evaluate(y, compute)
    ensures forall now :: Executed(x, now, compute).status == Executed(y, now, compute).status
  {
  }

  /** Executing a record twice leaves it as executing it once. */
  lemma ExecutedTwice(x: Row, now: int, compute: Computation)
    ensures Executed(Executed(x, now, compute), now, compute) == Executed(x, now, compute)
  {
    EvaluateByShape(x, Executed(x, now, compute), compute);
  }

  /** Outside the subtree of its parent, a record is outside the subtree of
      the child. */
  lemma OutsideParentOutsideChild(t: Table, j: nat, c: nat, parent: Id)
    requires Acyclic(Links(t)) && j < |t| && c < |t| && t[c].parent == Some(parent)
    requires !StrictlyBelow(t, j, parent)
    ensures !Descends(Links(t), j, c)
  {
    if Descends(Links(t), j, c) {
      DescendsThroughParent(Links(t), j, c, parent);
      ParentNotBelowChild(Links(t), parent, c);
    }
  }

  /** The subtree of a child lies strictly below its parent. */
  lemma ChildSubtreeBelow(t: Table, j: nat, c: nat, parent: Id)
    requires Acyclic(Links(t)) && j < |t| && c < |t| && t[c].parent == Some(parent)
    requires Descends(Links(t), j, c)
    ensures StrictlyBelow(t, j, parent)
  {
    DescendsThroughParent(Links(t), j, c, parent);
    ParentNotBelowChild(Links(t), parent, c);
  }

  /** The subtrees of the children of `a` cover what lies strictly below
      `a`. */
  lemma ChildrenCover(t: Table, a: Id, k: nat)
    requires StoreValid(t) && a < |t| && k < |t|
    ensures BelowAny(t, k, Children(t, Some(a))) <==> StrictlyBelow(t, k, a)
  {
    var rows := Children(t, Some(a));
    if BelowAny(t, k, rows) {
      BelowAnySound(t, a, k, rows);
    }
    if StrictlyBelow(t, k, a) {
      BelowSomeChild(Links(t), k, a);
      var c :| 0 <= c < |t| && Links(t)[c] == Some(a) && Descends(Links(t), k, c);
      assert ParentAt(t, c) == Some(a);
      BelowAnyFromOne(t, k, c, rows);
    }
  }

  /** What lies below some children of `parent` lies strictly below it. */
  lemma BelowAnySound(t: Table, parent: Id, k: nat, rows: seq<Row>)
    requires Acyclic(Links(t)) && k < |t|
    requires forall i :: 0 <= i < |rows| ==>
      rows[i].id.Some? && rows[i].id.value < |t| && t[rows[i].id.value].parent == Some(parent)
    requires BelowAny(t, k, rows)
    ensures StrictlyBelow(t, k, parent)
  {
    var i :| 0 <= i < |rows| && rows[i].id.Some? && Descends(Links(t), k, rows[i].id.value);
    ChildSubtreeBelow(t, k, rows[i].id.value, parent);
  }

  /** What lies below one of `rows` lies below some of them. */
  lemma BelowAnyFromOne(t: Table, k: nat, c: nat, rows: seq<Row>)
    requires Acyclic(Links(t)) && k < |t| && c < |t| && Descends(Links(t), k, c)
    requires t[c].id == Some(c) && t[c] in rows
    ensures BelowAny(t, k, rows)
  {
    var i :| 0 <= i < |rows| && rows[i] == t[c];
    assert rows[i].id == Some(c);
  }

  lemma BelowAnySplit(t: Table, k: nat, rows: seq<Row>)
    requires Acyclic(Links(t)) && k < |t| && |rows| > 0 && rows[|rows| - 1].id.Some?
    ensures var n := |rows| - 1;
      BelowAny(t, k, rows) <==> BelowAny(t, k, rows[..n]) || Descends(Links(t), k, rows[n].id.value)
  {
    var n := |rows| - 1;
    if BelowAny(t, k, rows) {
      var i :| 0 <= i < |rows| && rows[i].id.Some? && Descends(Links(t), k, rows[i].id.value);
      if i < n { assert rows[..n][i] == rows[i]; }
    }
    if BelowAny(t, k, rows[..n]) {
      var i :| 0 <= i < n && rows[..n][i].id.Some? && Descends(Links(t), k, rows[..n][i].id.value);
      assert rows[i] == rows[..n][i];
    }
  }

  /** What the dependents of `parent` need to all succeed carries over to
      the subtree of one child, in any table of the same shape. */
  lemma ChildSubtreeSucceeds(t: Table, u: Table, c: nat, parent: Id, compute: Computation)
    requires StoreValid(t) && SameShape(t, u) && c < |t| && t[c].parent == Some(parent)
    requires forall k :: 0 <= k < |t| && StrictlyBelow(t, k, parent) ==> Evaluate(t[k], compute).Success?
    ensures StoreValid(u) && Links(u) == Links(t) && SubtreeSucceeds(u, c, compute)
  {
    SameShapeKeepsValid(t, u);
    forall k | 0 <= k < |u| && Descends(Links(u), k, c)
      ensures Evaluate(u[k], compute).Success?
    {
      ChildSubtreeBelow(t, k, c, parent);
      EvaluateByShape(t[k], u[k], compute);
    }
  }

  // ---------------------------------------------------------------------
  // Frame: records outside the subtree are left alone

  lemma {:induction false} RunFrame(t: Table, r: Row, now: int, compute: Computation)
    requires StoreValid(t) && Matches(t, r)
    ensures forall j :: 0 <= j < |t| && !Descends(Links(t), j, r.id.value) ==>
      Run(t, r, now, compute).table[j] == t[j]
    decreases Height(Links(t), r.id.value), 1
  {
    var ongoing := r.(status := Ongoing, modified := now);
    if Evaluate(ongoing, compute).Success? {
      var complete := r.(status := Complete, modified := now, content := Evaluate(ongoing, compute).value);
      var t2 := Put(Put(t, ongoing), complete);
      RunSucceeds(t, r, now, compute, complete, t2);
      RunAllFrame(t2, r.id.value, Children(t2, r.id), now, compute);
    }
  }

  lemma {:induction false} RunAllFrame(t: Table, parent: Id, rows: seq<Row>, now: int, compute: Computation)
    requires ChildrenOf(t, Some(parent), rows)
    ensures forall j :: 0 <= j < |t| && !StrictlyBelow(t, j, parent) ==>
      RunAll(t, parent, rows, now, compute).table[j] == t[j]
    decreases Height(Links(t), parent), 0, |rows|
  {
    if |rows| > 0 {
      var n := |rows| - 1;
      assert ChildrenOf(t, Some(parent), rows[..n]);
      RunAllFrame(t, parent, rows[..n], now, compute);
      var pre := RunAll(t, parent, rows[..n], now, compute);
      SameShapeKeepsValid(t, pre.table);
      ChildIsBelow(t, Some(parent), rows[n]);
      MatchesAcross(t, pre.table, rows[n]);
      RunFrame(pre.table, rows[n], now, compute);
      forall j | 0 <= j < |t| && !StrictlyBelow(t, j, parent)
        ensures !Descends(Links(t), j, rows[n].id.value)
      {
        OutsideParentOutsideChild(t, j, rows[n].id.value, parent);
      }
    }
  }

  /** Whatever the computations do, the record itself ends executed: its
      dependents never write to it. */
  lemma RunRecordOutcome(t: Table, r: Row, now: int, compute: Computation)
    requires StoreValid(t) && Matches(t, r)
    ensures Run(t, r, now, compute).table[r.id.value] == Executed(t[r.id.value], now, compute)
  {
    var a := r.id.value;
    var ongoing := r.(status := Ongoing, modified := now);
    EvaluateByShape(ongoing, t[a], compute);
    if Evaluate(ongoing, compute).Success? {
      var complete := r.(status := Complete, modified := now, content := Evaluate(ongoing, compute).value);
      var t2 := Put(Put(t, ongoing), complete);
      RunSucceeds(t, r, now, compute, complete, t2);
      RunAllFrame(t2, a, Children(t2, r.id), now, compute);
    }
  }

  // ---------------------------------------------------------------------
  // What is yielded lies in the subtree

  lemma {:induction false} RunYieldsSubtree(t: Table, r: Row, now: int, compute: Computation)
    requires StoreValid(t) && Matches(t, r)
    ensures var res := Run(t, r, now, compute);
      && |res.yielded| >= 2
      && res.yielded[0] == r.(status := Ongoing, modified := now)
      && res.yielded[1].id == r.id
      && forall i :: 0 <= i < |res.yielded| ==>
           res.yielded[i].id.Some? && res.yielded[i].id.value < |t| &&
           Descends(Links(t), res.yielded[i].id.value, r.id.value)
    decreases Height(Links(t), r.id.value), 1
  {
    var ongoing := r.(status := Ongoing, modified := now);
    if Evaluate(ongoing, compute).Success? {
      var complete := r.(status := Complete, modified := now, content := Evaluate(ongoing, compute).value);
      var t2 := Put(Put(t, ongoing), complete);
      RunSucceeds(t, r, now, compute, complete, t2);
      RunAllYieldsSubtree(t2, r.id.value, Children(t2, r.id), now, compute);
    }
  }

  lemma {:induction false} RunAllYieldsSubtree(t: Table, parent: Id, rows: seq<Row>, now: int, compute: Computation)
    requires ChildrenOf(t, Some(parent), rows)
    ensures AllBelow(t, RunAll(t, parent, rows, now, compute).yielded, parent)
    decreases Height(Links(t), parent), 0, |rows|
  {
    if |rows| > 0 {
      var n := |rows| - 1;
      var c := rows[n].id.value;
      assert ChildrenOf(t, Some(parent), rows[..n]);
      RunAllYieldsSubtree(t, parent, rows[..n], now, compute);
      var pre := RunAll(t, parent, rows[..n], now, compute);
      SameShapeKeepsValid(t, pre.table);
      ChildIsBelow(t, Some(parent), rows[n]);
      MatchesAcross(t, pre.table, rows[n]);
      RunYieldsSubtree(pre.table, rows[n], now, compute);
      var last := Run(pre.table, rows[n], now, compute);
      forall i | 0 <= i < |last.yielded|
        ensures StrictlyBelow(t, last.yielded[i].id.value, parent)
      {
        ChildSubtreeBelow(t, last.yielded[i].id.value, c, parent);
      }
      AllBelowAppend(t, pre.yielded, last.yielded, parent);
    }
  }

  // ---------------------------------------------------------------------
  // A failing computation stops the descent

  /** When the computation of the record fails, the record is the only one
      written: it ends failed, and none of its dependents is executed. */
  lemma FailureStopsAtRecord(t: Table, r: Row, now: int, compute: Computation)
    requires StoreValid(t) && Matches(t, r)
    requires Evaluate(r, compute).Failure?
    ensures var res := Run(t, r, now, compute);
      && res.table == t[r.id.value := Executed(t[r.id.value], now, compute)]
      && res.table[r.id.value].status == Failed
      && |res.yielded| == 2 && res.yielded[1].status == Failed
  {
    var a := r.id.value;
    var ongoing := r.(status := Ongoing, modified := now);
    EvaluateByShape(ongoing, r, compute);
    EvaluateByShape(ongoing, t[a], compute);
    RunFails(t, r, now, compute);
  }

  // ---------------------------------------------------------------------
  // When every computation succeeds

  lemma {:induction false} RunCompletesSubtree(t: Table, r: Row, now: int, compute: Computation)
    requires StoreValid(t) && Matches(t, r) && SubtreeSucceeds(t, r.id.value, compute)
    ensures forall k :: 0 <= k < |t| ==>
      Run(t, r, now, compute).table[k]
        == if Descends(Links(t), k, r.id.value) then Executed(t[k], now, compute) else t[k]
    decreases Height(Links(t), r.id.value), 1
  {
    var a := r.id.value;
    var ongoing := r.(status := Ongoing, modified := now);
    EvaluateByShape(ongoing, t[a], compute);
    var complete := r.(status := Complete, modified := now, content := Evaluate(ongoing, compute).value);
    var t2 := Put(Put(t, ongoing), complete);
    RunSucceeds(t, r, now, compute, complete, t2);
    assert forall k :: 0 <= k < |t| && StrictlyBelow(t2, k, a) ==> Evaluate(t2[k], compute).Success?;
    RunAllCompletes(t2, a, Children(t2, r.id), now, compute);
    forall k | 0 <= k < |t|
      ensures Run(t, r, now, compute).table[k]
           == if Descends(Links(t), k, a) then Executed(t[k], now, compute) else t[k]
    {
      ChildrenCover(t2, a, k);
    }
  }

  lemma {:induction false} RunAllCompletes(t: Table, parent: Id, rows: seq<Row>, now: int, compute: Computation)
    requires ChildrenOf(t, Some(parent), rows)
    requires forall k :: 0 <= k < |t| && StrictlyBelow(t, k, parent) ==> Evaluate(t[k], compute).Success?
    ensures forall k :: 0 <= k < |t| ==>
      RunAll(t, parent, rows, now, compute).table[k]
        == if BelowAny(t, k, rows) then Executed(t[k], now, compute) else t[k]
    decreases Height(Links(t), parent), 0, |rows|
  {
    if |rows| > 0 {
      var n := |rows| - 1;
      var c := rows[n].id.value;
      assert ChildrenOf(t, Some(parent), rows[..n]);
      RunAllCompletes(t, parent, rows[..n], now, compute);
      var pre := RunAll(t, parent, rows[..n], now, compute);
      ChildIsBelow(t, Some(parent), rows[n]);
      MatchesAcross(t, pre.table, rows[n]);
      ChildSubtreeSucceeds(t, pre.table, c, parent, compute);
      RunCompletesSubtree(pre.table, rows[n], now, compute);
      forall k | 0 <= k < |t|
        ensures RunAll(t, parent, rows, now, compute).table[k]
             == if BelowAny(t, k, rows) then Executed(t[k], now, compute) else t[k]
      {
        BelowAnySplit(t, k, rows);
        ExecutedTwice(t[k], now, compute);
      }
    }
  }

  lemma {:induction false} RunReportsNoFailure(t: Table, r: Row, now: int, compute: Computation)
    requires StoreValid(t) && Matches(t, r) && SubtreeSucceeds(t, r.id.value, compute)
    ensures NoneFailed(Run(t, r, now, compute).yielded)
    decreases Height(Links(t), r.id.value), 1
  {
    var a := r.id.value;
    var ongoing := r.(status := Ongoing, modified := now);
    EvaluateByShape(ongoing, t[a], compute);
    var complete := r.(status := Complete, modified := now, content := Evaluate(ongoing, compute).value);
    var t2 := Put(Put(t, ongoing), complete);
    RunSucceeds(t, r, now, compute, complete, t2);
    assert forall k :: 0 <= k < |t| && StrictlyBelow(t2, k, a) ==> Evaluate(t2[k], compute).Success?;
    RunAllReportsNoFailure(t2, a, Children(t2, r.id), now, compute);
  }

  lemma {:induction false} RunAllReportsNoFailure(t: Table, parent: Id, rows: seq<Row>, now: int, compute: Computation)
    requires ChildrenOf(t, Some(parent), rows)
    requires forall k :: 0 <= k < |t| && StrictlyBelow(t, k, parent) ==> Evaluate(t[k], compute).Success?
    ensures NoneFailed(RunAll(t, parent, rows, now, compute).yielded)
    decreases Height(Links(t), parent), 0, |rows|
  {
    if |rows| > 0 {
      var n := |rows| - 1;
      var c := rows[n].id.value;
      assert ChildrenOf(t, Some(parent), rows[..n]);
      RunAllReportsNoFailure(t, parent, rows[..n], now, compute);
      var pre := RunAll(t, parent, rows[..n], now, compute);
      ChildIsBelow(t, Some(parent), rows[n]);
      MatchesAcross(t, pre.table, rows[n]);
      ChildSubtreeSucceeds(t, pre.table, c, parent, compute);
      RunReportsNoFailure(pre.table, rows[n], now, compute);
      NoneFailedAppend(pre.yielded, Run(pre.table, rows[n], now, compute).yielded);
    }
  }

  // ---------------------------------------------------------------------
  // Any mix of outcomes

  /** `execute` started at `a` reaches `k`: `k` is `a`, or the computation
      of the parent of `k` succeeds and `execute` reaches that parent, so
      the parent's dependents are executed. */
  ghost predicate RunsFrom(t: Table, k: nat, a: nat, compute: Computation)
    requires Acyclic(Links(t)) && k < |t|
    decreases DepthOf(Links(t), k)
  {
    k == a ||
    (t[k].parent.Some? &&
     (ChildDepth(Links(t), t[k].parent.value, k);
      Evaluate(t[t[k].parent.value], compute).Success? && RunsFrom(t, t[k].parent.value, a, compute)))
  }

  /** `execute` over `rows` in turn reaches `k` from one of them. */
  ghost predicate RunsBelow(t: Table, k: nat, rows: seq<Row>, compute: Computation)
    requires Acyclic(Links(t)) && k < |t|
  {
    exists i :: 0 <= i < |rows| && rows[i].id.Some? && RunsFrom(t, k, rows[i].id.value, compute)
  }

  /** Some record of `rows` is the record `k` with status `status`. */
  predicate Reported(rows: seq<Row>, k: nat, status: string)
  {
    exists i :: 0 <= i < |rows| && rows[i].id == Some(k) && rows[i].status == status
  }

  lemma {:induction false} RunsFromIsBelow(t: Table, k: nat, a: nat, compute: Computation)
    requires Acyclic(Links(t)) && k < |t| && RunsFrom(t, k, a, compute)
    ensures a < |t| && Descends(Links(t), k, a)
    decreases DepthOf(Links(t), k)
  {
    if k != a {
      var p := t[k].parent.value;
      ChildDepth(Links(t), p, k);
      RunsFromIsBelow(t, p, a, compute);
    }
  }

  /** Whether `execute` reaches a record depends only on the shape of the
      table: the links, names and configurations. */
  lemma {:induction false} RunsFromByShape(t: Table, u: Table, k: nat, a: nat, compute: Computation)
    requires Acyclic(Links(t)) && SameShape(t, u) && k < |t|
    ensures Links(u) == Links(t) && RunsFrom(u, k, a, compute) == RunsFrom(t, k, a, compute)
    decreases DepthOf(Links(t), k)
  {
    SameShapeKeepsValid(t, u);
    if k != a && t[k].parent.Some? {
      var p := t[k].parent.value;
      ChildDepth(Links(t), p, k);
      EvaluateByShape(t[p], u[p], compute);
      RunsFromByShape(t, u, p, a, compute);
    }
  }

  /** Below its start, `execute` reaches a record from one of the start's
      dependents, once the start's own computation has succeeded. */
  lemma {:induction false} RunsFromViaChild(t: Table, k: nat, a: nat, compute: Computation)
    requires Acyclic(Links(t)) && k < |t| && a < |t| && k != a && RunsFrom(t, k, a, compute)
    ensures Evaluate(t[a], compute).Success?
    ensures exists c :: 0 <= c < |t| && t[c].parent == Some(a) && RunsFrom(t, k, c, compute)
    decreases DepthOf(Links(t), k)
  {
    var p := t[k].parent.value;
    ChildDepth(Links(t), p, k);
    if p == a {
      assert RunsFrom(t, k, k, compute);
    } else {
      RunsFromViaChild(t, p, a, compute);
      var c :| 0 <= c < |t| && t[c].parent == Some(a) && RunsFrom(t, p, c, compute);
      assert RunsFrom(t, k, c, compute);
    }
  }

  /** What `execute` reaches from a dependent, it reaches from the parent
      when the parent's computation succeeds. */
  lemma {:induction false} RunsExtends(t: Table, k: nat, c: nat, a: nat, compute: Computation)
    requires Acyclic(Links(t)) && k < |t| && c < |t| && a < |t|
    requires t[c].parent == Some(a) && Evaluate(t[a], compute).Success? && RunsFrom(t, k, c, compute)
    ensures RunsFrom(t, k, a, compute)
    decreases DepthOf(Links(t), k)
  {
    if k != c {
      var p := t[k].parent.value;
      ChildDepth(Links(t), p, k);
      RunsExtends(t, p, c, a, compute);
    } else {
      ChildDepth(Links(t), a, c);
      assert RunsFrom(t, a, a, compute);
    }
  }

  /** After a record completed, executing its dependents reaches exactly
      what `execute` from the record reaches below it. */
  lemma RunsBelowChildren(t: Table, a: nat, k: nat, compute: Computation)
    requires StoreValid(t) && a < |t| && k < |t| && Evaluate(t[a], compute).Success?
    ensures RunsBelow(t, k, Children(t, Some(a)), compute) <==> k != a && RunsFrom(t, k, a, compute)
  {
    var rows := Children(t, Some(a));
    if RunsBelow(t, k, rows, compute) {
      RunsBelowSound(t, a, k, rows, compute);
    }
    if k != a && RunsFrom(t, k, a, compute) {
      RunsFromViaChild(t, k, a, compute);
      var c :| 0 <= c < |t| && t[c].parent == Some(a) && RunsFrom(t, k, c, compute);
      assert ParentAt(t, c) == Some(a);
      RunsBelowFromOne(t, k, c, rows, compute);
    }
  }

  /** What executing some dependents of `a` reaches lies strictly below
      `a`, and `execute` from `a` reaches it. */
  lemma RunsBelowSound(t: Table, a: nat, k: nat, rows: seq<Row>, compute: Computation)
    requires Acyclic(Links(t)) && a < |t| && k < |t| && Evaluate(t[a], compute).Success?
    requires forall i :: 0 <= i < |rows| ==>
      rows[i].id.Some? && rows[i].id.value < |t| && t[rows[i].id.value].parent == Some(a)
    requires RunsBelow(t, k, rows, compute)
    ensures k != a && RunsFrom(t, k, a, compute)
  {
    var i :| 0 <= i < |rows| && rows[i].id.Some? && RunsFrom(t, k, rows[i].id.value, compute);
    var c := rows[i].id.value;
    RunsExtends(t, k, c, a, compute);
    RunsFromIsBelow(t, k, c, compute);
    if k == a {
      ParentNotBelowChild(Links(t), a, c);
    }
  }

  lemma RunsBelowFromOne(t: Table, k: nat, c: nat, rows: seq<Row>, compute: Computation)
    requires Acyclic(Links(t)) && k < |t| && c < |t| && RunsFrom(t, k, c, compute)
    requires t[c].id == Some(c) && t[c] in rows
    ensures RunsBelow(t, k, rows, compute)
  {
    var i :| 0 <= i < |rows| && rows[i] == t[c];
    assert rows[i].id == Some(c);
  }

  lemma RunsBelowSplit(t: Table, k: nat, rows: seq<Row>, compute: Computation)
    requires Acyclic(Links(t)) && k < |t| && |rows| > 0 && rows[|rows| - 1].id.Some?
    ensures var n := |rows| - 1;
      RunsBelow(t, k, rows, compute) <==>
        RunsBelow(t, k, rows[..n], compute) || RunsFrom(t, k, rows[n].id.value, compute)
  {
    var n := |rows| - 1;
    if RunsBelow(t, k, rows, compute) {
      var i :| 0 <= i < |rows| && rows[i].id.Some? && RunsFrom(t, k, rows[i].id.value, compute);
      if i < n { assert rows[..n][i] == rows[i]; }
    }
    if RunsBelow(t, k, rows[..n], compute) {
      var i :| 0 <= i < n && rows[..n][i].id.Some? && RunsFrom(t, k, rows[..n][i].id.value, compute);
      assert rows[i] == rows[..n][i];
    }
  }

  /** Whatever the computations do, `execute` from `r` leaves exactly the
      records it reaches executed (complete or failed), and every other
      record as it was. */
  lemma {:induction false} RunTable(t: Table, r: Row, now: int, compute: Computation)
    requires StoreValid(t) && Matches(t, r)
    ensures forall k :: 0 <= k < |t| ==>
      Run(t, r, now, compute).table[k]
        == if RunsFrom(t, k, r.id.value, compute) then Executed(t[k], now, compute) else t[k]
    decreases Height(Links(t), r.id.value), 1
  {
    var a := r.id.value;
    var ongoing := r.(status := Ongoing, modified := now);
    EvaluateByShape(ongoing, t[a], compute);
    if Evaluate(ongoing, compute).Failure? {
      EvaluateByShape(ongoing, r, compute);
      FailureStopsAtRecord(t, r, now, compute);
      forall k | 0 <= k < |t| && k != a
        ensures !RunsFrom(t, k, a, compute)
      {
        if RunsFrom(t, k, a, compute) {
          RunsFromViaChild(t, k, a, compute);
        }
      }
    } else {
      var complete := r.(status := Complete, modified := now, content := Evaluate(ongoing, compute).value);
      var t2 := Put(Put(t, ongoing), complete);
      RunSucceeds(t, r, now, compute, complete, t2);
      EvaluateByShape(complete, t[a], compute);
      RunAllTable(t2, a, Children(t2, r.id), now, compute);
      forall k | 0 <= k < |t|
        ensures Run(t, r, now, compute).table[k]
             == if RunsFrom(t, k, a, compute) then Executed(t[k], now, compute) else t[k]
      {
        RunsFromByShape(t, t2, k, a, compute);
        RunsBelowChildren(t2, a, k, compute);
      }
    }
  }

  /** Executing the dependents in turn leaves exactly the records reached
      from one of them executed, and every other record as it was. */
  lemma {:induction false} RunAllTable(t: Table, parent: Id, rows: seq<Row>, now: int, compute: Computation)
    requires ChildrenOf(t, Some(parent), rows)
    ensures forall k :: 0 <= k < |t| ==>
      RunAll(t, parent, rows, now, compute).table[k]
        == if RunsBelow(t, k, rows, compute) then Executed(t[k], now, compute) else t[k]
    decreases Height(Links(t), parent), 0, |rows|
  {
    if |rows| > 0 {
      var n := |rows| - 1;
      var c := rows[n].id.value;
      assert ChildrenOf(t, Some(parent), rows[..n]);
      RunAllTable(t, parent, rows[..n], now, compute);
      var pre := RunAll(t, parent, rows[..n], now, compute);
      SameShapeKeepsValid(t, pre.table);
      ChildIsBelow(t, Some(parent), rows[n]);
      MatchesAcross(t, pre.table, rows[n]);
      RunTable(pre.table, rows[n], now, compute);
      forall k | 0 <= k < |t|
        ensures RunAll(t, parent, rows, now, compute).table[k]
             == if RunsBelow(t, k, rows, compute) then Executed(t[k], now, compute) else t[k]
      {
        RunsBelowSplit(t, k, rows, compute);
        RunsFromByShape(t, pre.table, k, c, compute);
        ExecutedTwice(t[k], now, compute);
      }
    }
  }

  /** `execute` from `r` reports every record it reaches, with the status
      it leaves that record in. */
  lemma {:induction false} RunReportsReached(t: Table, r: Row, now: int, compute: Computation)
    requires StoreValid(t) && Matches(t, r)
    ensures forall k :: 0 <= k < |t| && RunsFrom(t, k, r.id.value, compute) ==>
      Reported(Run(t, r, now, compute).yielded, k, Executed(t[k], now, compute).status)
    decreases Height(Links(t), r.id.value), 1
  {
    var a := r.id.value;
    var ongoing := r.(status := Ongoing, modified := now);
    EvaluateByShape(ongoing, t[a], compute);
    if Evaluate(ongoing, compute).Failure? {
      var ys := Run(t, r, now, compute).yielded;
      forall k | 0 <= k < |t| && RunsFrom(t, k, a, compute)
        ensures Reported(ys, k, Executed(t[k], now, compute).status)
      {
        if k != a {
          RunsFromViaChild(t, k, a, compute);
        }
        assert ys[1].id == Some(a);
      }
    } else {
      var complete := r.(status := Complete, modified := now, content := Evaluate(ongoing, compute).value);
      var t2 := Put(Put(t, ongoing), complete);
      RunSucceeds(t, r, now, compute, complete, t2);
      EvaluateByShape(complete, t[a], compute);
      RunAllReportsReached(t2, a, Children(t2, r.id), now, compute);
      CompletedReportsReached(t, t2, a, ongoing, complete, RunAll(t2, a, Children(t2, r.id), now, compute).yielded, now, compute);
    }
  }

  /** The step of `RunReportsReached` for a record whose computation
      succeeded: what its dependents report, `execute` reports after the
      record's own two records. */
  lemma CompletedReportsReached(t: Table, t2: Table, a: nat, ongoing: Row, complete: Row, rest: seq<Row>,
                                now: int, compute: Computation)
    requires StoreValid(t) && SameShape(t, t2) && StoreValid(t2) && a < |t|
    requires complete.id == Some(a) && complete.status == Executed(t[a], now, compute).status
    requires Evaluate(t2[a], compute).Success?
    requires forall k :: 0 <= k < |t2| && RunsBelow(t2, k, Children(t2, Some(a)), compute) ==>
      Reported(rest, k, Executed(t2[k], now, compute).status)
    ensures forall k :: 0 <= k < |t| && RunsFrom(t, k, a, compute) ==>
      Reported([ongoing, complete] + rest, k, Executed(t[k], now, compute).status)
  {
    var ys := [ongoing, complete] + rest;
    forall k | 0 <= k < |t| && RunsFrom(t, k, a, compute)
      ensures Reported(ys, k, Executed(t[k], now, compute).status)
    {
      if k == a {
        assert ys[1] == complete;
      } else {
        RunsFromByShape(t, t2, k, a, compute);
        RunsBelowChildren(t2, a, k, compute);
        EvaluateByShape(t2[k], t[k], compute);
        var i :| 0 <= i < |rest| && rest[i].id == Some(k) && rest[i].status == Executed(t2[k], now, compute).status;
        assert ys[i + 2] == rest[i];
      }
    }
  }

  lemma {:induction false} RunAllReportsReached(t: Table, parent: Id, rows: seq<Row>, now: int, compute: Computation)
    requires ChildrenOf(t, Some(parent), rows)
    ensures forall k :: 0 <= k < |t| && RunsBelow(t, k, rows, compute) ==>
      Reported(RunAll(t, parent, rows, now, compute).yielded, k, Executed(t[k], now, compute).status)
    decreases Height(Links(t), parent), 0, |rows|
  {
    if |rows| > 0 {
      var n := |rows| - 1;
      var c := rows[n].id.value;
      assert ChildrenOf(t, Some(parent), rows[..n]);
      RunAllReportsReached(t, parent, rows[..n], now, compute);
      var pre := RunAll(t, parent, rows[..n], now, compute);
      SameShapeKeepsValid(t, pre.table);
      ChildIsBelow(t, Some(parent), rows[n]);
      MatchesAcross(t, pre.table, rows[n]);
      RunReportsReached(pre.table, rows[n], now, compute);
      var last := Run(pre.table, rows[n], now, compute);
      var all := pre.yielded + last.yielded;
      forall k | 0 <= k < |t| && RunsBelow(t, k, rows, compute)
        ensures Reported(all, k, Executed(t[k], now, compute).status)
      {
        RunsBelowSplit(t, k, rows, compute);
        var status := Executed(t[k], now, compute).status;
        if RunsBelow(t, k, rows[..n], compute) {
          var i :| 0 <= i < |pre.yielded| && pre.yielded[i].id == Some(k) && pre.yielded[i].status == status;
          assert all[i] == pre.yielded[i];
        } else {
          RunsFromByShape(t, pre.table, k, c, compute);
          EvaluateByShape(pre.table[k], t[k], compute);
          var i :| 0 <= i < |last.yielded| && last.yielded[i].id == Some(k) && last.yielded[i].status == status;
          assert all[|pre.yielded| + i] == last.yielded[i];
        }
      }
    }
  }

  /** A failing computation in the subtree of `a` is met by `execute`
      from `a`: either there, or at a failing record above it. */
  lemma {:induction false} FailureIsMet(t: Table, j: nat, a: nat, compute: Computation)
    requires Acyclic(Links(t)) && j < |t| && Descends(Links(t), j, a)
    requires !RunsFrom(t, j, a, compute) || Evaluate(t[j], compute).Failure?
    ensures exists f :: 0 <= f < |t| && RunsFrom(t, f, a, compute) && Evaluate(t[f], compute).Failure?
    decreases DepthOf(Links(t), j)
  {
    if RunsFrom(t, j, a, compute) {
      assert Evaluate(t[j], compute).Failure?;
    } else {
      var p := t[j].parent.value;
      ChildDepth(Links(t), p, j);
      FailureIsMet(t, p, a, compute);
    }
  }

  /** `execute` from `r` reports no failure exactly when every computation
      in the subtree of `r` succeeds. */
  lemma RunReportsFailureExactly(t: Table, r: Row, now: int, compute: Computation)
    requires StoreValid(t) && Matches(t, r)
    ensures NoneFailed(Run(t, r, now, compute).yielded) <==> SubtreeSucceeds(t, r.id.value, compute)
  {
    var a := r.id.value;
    if SubtreeSucceeds(t, a, compute) {
      RunReportsNoFailure(t, r, now, compute);
    } else {
      var j :| 0 <= j < |t| && Descends(Links(t), j, a) && Evaluate(t[j], compute).Failure?;
      FailureIsMet(t, j, a, compute);
      var f :| 0 <= f < |t| && RunsFrom(t, f, a, compute) && Evaluate(t[f], compute).Failure?;
      RunReportsReached(t, r, now, compute);
      var ys := Run(t, r, now, compute).yielded;
      var i :| 0 <= i < |ys| && ys[i].id == Some(f) && ys[i].status == Executed(t[f], now, compute).status;
      assert ys[i].status == Failed;
    }
  }
}
