/** What a `queue` pass does, stated over the table it starts from: which
    records it hands to the dispatch callback, which it sets to pending,
    and that it changes nothing else. */
module QueueProperties {

  import opened Wrappers
  import opened Values
  import opened CachedVariable
  import opened Forest
  import opened DatabaseCacheProvider
  import opened CachedVariableUtility

  /** A record the pass neither skips nor dispatches: it descends into its
      dependents. */
  predicate PassesThrough(r: Row, now: int)
  {
    !IsSkippable(r.status) && !RequiresExecution(r, now)
  }

  /** A record the pass hands to the dispatch callback when it reaches it. */
  predicate Due(r: Row, now: int)
  {
    !IsSkippable(r.status) && RequiresExecution(r, now)
  }

  /** The record as the pass leaves it once the callback accepted it. */
  function Pend(r: Row, now: int): Row
  {
    r.(status := Pending, modified := now)
  }

  /** A pass started at record `a` reaches record `k`: `k` is `a`, or the
      parent of `k` is reached and the pass descends through it. */
  ghost predicate ReachedFrom(t: Table, k: nat, a: nat, now: int)
    requires Acyclic(Links(t)) && k < |t|
    decreases DepthOf(Links(t), k)
  {
    k == a ||
    (t[k].parent.Some? &&
     (ChildDepth(Links(t), t[k].parent.value, k);
      PassesThrough(t[t[k].parent.value], now) && ReachedFrom(t, t[k].parent.value, a, now)))
  }

  /** A pass from the roots reaches record `k`: the pass descends through
      every ancestor of `k`. */
  ghost predicate Reached(t: Table, k: nat, now: int)
    requires Acyclic(Links(t)) && k < |t|
    decreases DepthOf(Links(t), k)
  {
    t[k].parent.None? ||
    (ChildDepth(Links(t), t[k].parent.value, k);
     PassesThrough(t[t[k].parent.value], now) && Reached(t, t[k].parent.value, now))
  }

  /** The records a pass from the roots dispatches: reached and due. */
  ghost predicate Dispatchable(t: Table, k: nat, now: int)
    requires Acyclic(Links(t)) && k < |t|
  {
    Reached(t, k, now) && Due(t[k], now)
  }

  /** A pass over `rows` reaches `k` from one of them and finds it due. */
  ghost predicate DueBelow(t: Table, k: nat, rows: seq<Row>, now: int)
    requires Acyclic(Links(t)) && k < |t|
  {
    exists i :: 0 <= i < |rows| && rows[i].id.Some? && ReachedFrom(t, k, rows[i].id.value, now) && Due(t[k], now)
  }

  /** `rows` are stored rows, each listed once. */
  predicate StoredOnce(t: Table, rows: seq<Row>)
  {
    && (forall i :: 0 <= i < |rows| ==> rows[i].id.Some? && rows[i].id.value < |t| && t[rows[i].id.value] == rows[i])
    && forall i, j :: 0 <= i < |rows| && 0 <= j < |rows| && i != j ==> rows[i].id != rows[j].id
  }

  /** No record occurs twice. */
  predicate NoRepeats(rows: seq<Row>)
  {
    forall i, j :: 0 <= i < |rows| && 0 <= j < |rows| && i != j ==> rows[i].id != rows[j].id
  }

  /** Every one of `ds` is a stored record that a pass over `rows` reaches
      and finds due. */
  ghost predicate StoredAndDue(t: Table, ds: seq<Row>, rows: seq<Row>, now: int)
    requires Acyclic(Links(t))
  {
    forall i :: 0 <= i < |ds| ==>
      ds[i].id.Some? && ds[i].id.value < |t| && t[ds[i].id.value] == ds[i] && DueBelow(t, ds[i].id.value, rows, now)
  }

  /** Every one of `ds` is a stored record that a pass from `a` reaches
      and finds due. */
  ghost predicate ReachedAndDue(t: Table, ds: seq<Row>, a: nat, now: int)
    requires Acyclic(Links(t))
  {
    forall i :: 0 <= i < |ds| ==>
      ds[i].id.Some? && ds[i].id.value < |t| && t[ds[i].id.value] == ds[i] &&
      ReachedFrom(t, ds[i].id.value, a, now) && Due(ds[i], now)
  }

  /** Every one of `ds` is a stored record below `a`. */
  ghost predicate AllBelow(t: Table, ds: seq<Row>, a: nat)
    requires Acyclic(Links(t))
  {
    forall i :: 0 <= i < |ds| ==>
      ds[i].id.Some? && ds[i].id.value < |t| && Descends(Links(t), ds[i].id.value, a)
  }

  lemma StoredAndDueWiden(t: Table, ds: seq<Row>, rows: seq<Row>, now: int)
    requires Acyclic(Links(t)) && |rows| > 0 && rows[|rows| - 1].id.Some?
    requires StoredAndDue(t, ds, rows[..|rows| - 1], now)
    ensures StoredAndDue(t, ds, rows, now)
  {
    forall i | 0 <= i < |ds| ensures DueBelow(t, ds[i].id.value, rows, now) {
      DueBelowSplit(t, ds[i].id.value, rows, now);
    }
  }

  lemma StoredAndDueAppend(t: Table, xs: seq<Row>, ys: seq<Row>, rows: seq<Row>, now: int)
    requires Acyclic(Links(t)) && StoredAndDue(t, xs, rows, now) && StoredAndDue(t, ys, rows, now)
    ensures StoredAndDue(t, xs + ys, rows, now)
  {
    var zs := xs + ys;
    forall i | 0 <= i < |zs|
      ensures zs[i].id.Some? && zs[i].id.value < |t| && t[zs[i].id.value] == zs[i] && DueBelow(t, zs[i].id.value, rows, now)
    {
      if i >= |xs| { assert zs[i] == ys[i - |xs|]; }
    }
  }

  /** No record of `xs` occurs in `ys`. */
  predicate Apart(xs: seq<Row>, ys: seq<Row>)
  {
    forall i, j :: 0 <= i < |xs| && 0 <= j < |ys| ==> xs[i].id != ys[j].id
  }

  lemma NoRepeatsAppend(xs: seq<Row>, ys: seq<Row>)
    requires NoRepeats(xs) && NoRepeats(ys) && Apart(xs, ys)
    ensures NoRepeats(xs + ys)
  {
    var zs := xs + ys;
    forall i, j | 0 <= i < |zs| && 0 <= j < |zs| && i != j ensures zs[i].id != zs[j].id {
      if i < |xs| && j >= |xs| {
        assert zs[j] == ys[j - |xs|];
      } else if i >= |xs| && j < |xs| {
        assert zs[i] == ys[i - |xs|];
      } else if i >= |xs| {
        assert zs[i] == ys[i - |xs|] && zs[j] == ys[j - |xs|];
      }
    }
  }

  /** The records the pass yields, given those it dispatched: the accepted
      ones, set to pending, in dispatch order. */
  function Accepted(dispatched: seq<Row>, accept: Row -> bool, now: int): (yielded: seq<Row>)
    ensures |yielded| <= |dispatched|
  {
    if |dispatched| == 0 then []
    else
      var last := dispatched[|dispatched| - 1];
      Accepted(dispatched[..|dispatched| - 1], accept, now) + (if accept(last) then [Pend(last, now)] else [])
  }

  // ---------------------------------------------------------------------
  // Paths from a record up to the one a pass started at

  lemma {:induction false} ReachedIsBelow(t: Table, k: nat, a: nat, now: int)
    requires Acyclic(Links(t)) && k < |t| && ReachedFrom(t, k, a, now)
    ensures a < |t| && Descends(Links(t), k, a)
    decreases DepthOf(Links(t), k)
  {
    if k != a {
      var p := t[k].parent.value;
      ChildDepth(Links(t), p, k);
      ReachedIsBelow(t, p, a, now);
    }
  }

  /** The pass descended through the record it started at to reach any
      other record. */
  lemma {:induction false} ReachedPassesStart(t: Table, k: nat, a: nat, now: int)
    requires Acyclic(Links(t)) && k < |t| && ReachedFrom(t, k, a, now) && k != a
    ensures a < |t| && PassesThrough(t[a], now)
    decreases DepthOf(Links(t), k)
  {
    var p := t[k].parent.value;
    ChildDepth(Links(t), p, k);
    if p != a {
      ReachedPassesStart(t, p, a, now);
    }
  }

  /** Below its start, a pass reaches a record from one of the start's
      children. */
  lemma {:induction false} ReachedViaChild(t: Table, k: nat, a: nat, now: int)
    requires Acyclic(Links(t)) && k < |t| && ReachedFrom(t, k, a, now) && k != a
    ensures exists c :: 0 <= c < |t| && t[c].parent == Some(a) && ReachedFrom(t, k, c, now)
    decreases DepthOf(Links(t), k)
  {
    var p := t[k].parent.value;
    ChildDepth(Links(t), p, k);
    if p == a {
      assert ReachedFrom(t, k, k, now);
    } else {
      ReachedViaChild(t, p, a, now);
      var c :| 0 <= c < |t| && t[c].parent == Some(a) && ReachedFrom(t, p, c, now);
      assert ReachedFrom(t, k, c, now);
    }
  }

  /** What a pass from a child reaches, a pass from its parent reaches too
      when it descends through the parent. */
  lemma {:induction false} ReachedExtends(t: Table, k: nat, c: nat, a: nat, now: int)
    requires Acyclic(Links(t)) && k < |t| && c < |t| && a < |t|
    requires t[c].parent == Some(a) && PassesThrough(t[a], now) && ReachedFrom(t, k, c, now)
    ensures ReachedFrom(t, k, a, now)
    decreases DepthOf(Links(t), k)
  {
    if k != c {
      var p := t[k].parent.value;
      ChildDepth(Links(t), p, k);
      ReachedExtends(t, p, c, a, now);
    } else {
      ChildDepth(Links(t), a, c);
      assert ReachedFrom(t, a, a, now);
    }
  }

  /** Whether a pass from `a` reaches `k` depends only on the subtree of
      `a`. */
  lemma {:induction false} ReachedIsLocal(t: Table, u: Table, k: nat, a: nat, now: int)
    requires StoreValid(t) && SameShape(t, u) && k < |t| && a < |t|
    requires Descends(Links(t), k, a)
    requires forall j :: 0 <= j < |t| && Descends(Links(t), j, a) ==> u[j] == t[j]
    ensures SameShape(t, u) && StoreValid(u)
    ensures ReachedFrom(u, k, a, now) == ReachedFrom(t, k, a, now)
    decreases DepthOf(Links(t), k)
  {
    SameShapeKeepsValid(t, u);
    if k != a {
      var p := t[k].parent.value;
      ChildDepth(Links(t), p, k);
      ReachedIsLocal(t, u, p, a, now);
    }
  }

  /** A pass over `rows` finds due what the pass over all but the last
      finds, and what the pass from the last finds. */
  lemma DueBelowSplit(t: Table, k: nat, rows: seq<Row>, now: int)
    requires Acyclic(Links(t)) && k < |t| && |rows| > 0 && rows[|rows| - 1].id.Some?
    ensures var n := |rows| - 1;
      DueBelow(t, k, rows, now) <==>
        DueBelow(t, k, rows[..n], now) || (ReachedFrom(t, k, rows[n].id.value, now) && Due(t[k], now))
  {
    var n := |rows| - 1;
    if DueBelow(t, k, rows, now) {
      var i :| 0 <= i < |rows| && rows[i].id.Some? && ReachedFrom(t, k, rows[i].id.value, now) && Due(t[k], now);
      if i < n { assert rows[..n][i] == rows[i]; }
    }
    if DueBelow(t, k, rows[..n], now) {
      var i :| 0 <= i < n && rows[..n][i].id.Some? && ReachedFrom(t, k, rows[..n][i].id.value, now) && Due(t[k], now);
      assert rows[i] == rows[..n][i];
    }
  }

  /** What the passes over the records before `rows[n]` find due lies
      outside the subtree of `rows[n]`. */
  lemma EarlierApart(t: Table, parent: Option<Id>, rows: seq<Row>, n: nat, j: nat, now: int)
    requires ChildrenOf(t, parent, rows) && StoredOnce(t, rows)
    requires n < |rows| && j < |t| && Descends(Links(t), j, rows[n].id.value)
    ensures !DueBelow(t, j, rows[..n], now)
  {
    if DueBelow(t, j, rows[..n], now) {
      var i :| 0 <= i < n && rows[..n][i].id.Some? && ReachedFrom(t, j, rows[..n][i].id.value, now) && Due(t[j], now);
      assert rows[..n][i] == rows[i];
      ReachedIsBelow(t, j, rows[i].id.value, now);
      NotBelowSibling(t, parent, rows, i, n, j);
    }
  }

  /** Records below one sibling are not below another. */
  lemma NotBelowSibling(t: Table, parent: Option<Id>, rows: seq<Row>, i: nat, n: nat, k: nat)
    requires ChildrenOf(t, parent, rows) && StoredOnce(t, rows)
    requires i < |rows| && n < |rows| && i != n && k < |t|
    requires Descends(Links(t), k, rows[n].id.value)
    ensures !Descends(Links(t), k, rows[i].id.value)
  {
    SubtreesAreDisjoint(Links(t), k, rows[n].id.value, rows[i].id.value);
  }

  // ---------------------------------------------------------------------
  // The table a pass leaves: due records set to pending when accepted,
  // every other record as it was

  lemma {:induction false} QueueOneTable(t: Table, r: Row, now: int, accept: Row -> bool)
    requires StoreValid(t) && Matches(t, r) && t[r.id.value] == r
    ensures var res := QueueOne(t, r, now, Some(accept));
      && !res.aborted
      && forall k :: 0 <= k < |t| ==>
           res.table[k] == if ReachedFrom(t, k, r.id.value, now) && Due(t[k], now) && accept(t[k])
                           then Pend(t[k], now) else t[k]
    decreases Height(Links(t), r.id.value), 1
  {
    var a := r.id.value;
    var res := QueueOne(t, r, now, Some(accept));
    if !PassesThrough(r, now) {
      forall k | 0 <= k < |t| && k != a && ReachedFrom(t, k, a, now)
        ensures false
      {
        ReachedPassesStart(t, k, a, now);
      }
    } else {
      var rows := Children(t, Some(a));
      ChildrenAreDistinct(t, Some(a));
      QueueAllTable(t, Some(a), rows, now, accept);
      forall k | 0 <= k < |t|
        ensures DueBelow(t, k, rows, now) <==> ReachedFrom(t, k, a, now) && Due(t[k], now)
      {
        DueBelowChildren(t, a, k, now);
      }
    }
  }

  /** Below a record the pass descends through, the passes over its
      children reach and find due exactly what a pass from it does. */
  lemma DueBelowChildren(t: Table, a: nat, k: nat, now: int)
    requires StoreValid(t) && a < |t| && k < |t| && PassesThrough(t[a], now)
    ensures DueBelow(t, k, Children(t, Some(a)), now) <==> ReachedFrom(t, k, a, now) && Due(t[k], now)
  {
    var rows := Children(t, Some(a));
    if DueBelow(t, k, rows, now) {
      DueBelowChildrenSound(t, Some(a), k, rows, now);
      var c :| 0 <= c < |t| && t[c].parent == Some(a) && ReachedFrom(t, k, c, now);
      ReachedExtends(t, k, c, a, now);
    }
    if k != a && ReachedFrom(t, k, a, now) && Due(t[k], now) {
      ReachedViaChild(t, k, a, now);
      var c :| 0 <= c < |t| && t[c].parent == Some(a) && ReachedFrom(t, k, c, now);
      assert ParentAt(t, c) == Some(a);
      DueBelowFromOne(t, k, c, rows, now);
    }
  }

  /** What the passes over some children of `parent` find due is reached
      from one of them. */
  lemma DueBelowChildrenSound(t: Table, parent: Option<Id>, k: nat, rows: seq<Row>, now: int)
    requires Acyclic(Links(t)) && k < |t|
    requires forall i :: 0 <= i < |rows| ==>
      rows[i].id.Some? && rows[i].id.value < |t| && t[rows[i].id.value].parent == parent
    requires DueBelow(t, k, rows, now)
    ensures Due(t[k], now)
    ensures exists c :: 0 <= c < |t| && t[c].parent == parent && ReachedFrom(t, k, c, now)
  {
    var i :| 0 <= i < |rows| && rows[i].id.Some? && ReachedFrom(t, k, rows[i].id.value, now) && Due(t[k], now);
    var c := rows[i].id.value;
    assert t[c].parent == parent;
  }

  /** A pass over `rows` finds due what the pass from one of them does. */
  lemma DueBelowFromOne(t: Table, k: nat, c: nat, rows: seq<Row>, now: int)
    requires Acyclic(Links(t)) && k < |t| && c < |t|
    requires ReachedFrom(t, k, c, now) && Due(t[k], now)
    requires t[c].id == Some(c) && t[c] in rows
    ensures DueBelow(t, k, rows, now)
  {
    var i :| 0 <= i < |rows| && rows[i] == t[c];
    assert rows[i].id == Some(c);
  }

  lemma {:induction false} QueueAllTable(t: Table, parent: Option<Id>, rows: seq<Row>, now: int, accept: Row -> bool)
    requires ChildrenOf(t, parent, rows) && StoredOnce(t, rows)
    ensures var res := QueueAll(t, parent, rows, now, Some(accept));
      && !res.aborted
      && forall k :: 0 <= k < |t| ==>
           res.table[k] == if DueBelow(t, k, rows, now) && accept(t[k]) then Pend(t[k], now) else t[k]
    decreases Level(t, parent), 0, |rows|
  {
    if |rows| > 0 {
      var n := |rows| - 1;
      var a := rows[n].id.value;
      var prefix := rows[..n];
      assert ChildrenOf(t, parent, prefix) && StoredOnce(t, prefix);
      QueueAllTable(t, parent, prefix, now, accept);
      var pre := QueueAll(t, parent, prefix, now, Some(accept));
      SameShapeKeepsValid(t, pre.table);
      ChildIsBelow(t, parent, rows[n]);
      // The earlier records left the subtree of the last one alone.
      forall j | 0 <= j < |t| && Descends(Links(t), j, a)
        ensures !DueBelow(t, j, prefix, now) && pre.table[j] == t[j]
      {
        EarlierApart(t, parent, rows, n, j, now);
      }
      QueueOneTable(pre.table, rows[n], now, accept);
      forall k | 0 <= k < |t|
        ensures QueueAll(t, parent, rows, now, Some(accept)).table[k]
             == if DueBelow(t, k, rows, now) && accept(t[k]) then Pend(t[k], now) else t[k]
      {
        DueBelowSplit(t, k, rows, now);
        if Descends(Links(t), k, a) {
          ReachedIsLocal(t, pre.table, k, a, now);
        } else {
          if ReachedFrom(pre.table, k, a, now) {
            ReachedIsBelow(pre.table, k, a, now);
          }
          if ReachedFrom(t, k, a, now) {
            ReachedIsBelow(t, k, a, now);
          }
        }
      }
    }
  }

  // ---------------------------------------------------------------------
  // The records a pass dispatches and yields

  lemma {:induction false} AcceptedAppend(xs: seq<Row>, ys: seq<Row>, accept: Row -> bool, now: int)
    ensures Accepted(xs + ys, accept, now) == Accepted(xs, accept, now) + Accepted(ys, accept, now)
    decreases |ys|
  {
    if |ys| > 0 {
      var n := |ys| - 1;
      assert (xs + ys)[..|xs + ys| - 1] == xs + ys[..n];
      AcceptedAppend(xs, ys[..n], accept, now);
    } else {
      assert xs + ys == xs;
    }
  }

  /** Every dispatched record is a stored record the pass reached and found
      due; every such record is dispatched, and none twice; the records
      yielded are the accepted ones, set to pending. */
  lemma {:induction false} QueueOneDispatched(t: Table, r: Row, now: int, accept: Row -> bool)
    requires StoreValid(t) && Matches(t, r) && t[r.id.value] == r
    ensures var res := QueueOne(t, r, now, Some(accept));
      && res.yielded == Accepted(res.dispatched, accept, now)
      && NoRepeats(res.dispatched)
      && ReachedAndDue(t, res.dispatched, r.id.value, now)
      && (forall k :: 0 <= k < |t| && ReachedFrom(t, k, r.id.value, now) && Due(t[k], now) ==>
            t[k] in res.dispatched)
    decreases Height(Links(t), r.id.value), 1
  {
    var a := r.id.value;
    var res := QueueOne(t, r, now, Some(accept));
    if !PassesThrough(r, now) {
      forall k | 0 <= k < |t| && k != a && ReachedFrom(t, k, a, now)
        ensures false
      {
        ReachedPassesStart(t, k, a, now);
      }
      if Due(r, now) {
        assert res.dispatched == [r];
      }
    } else {
      var rows := Children(t, Some(a));
      ChildrenAreDistinct(t, Some(a));
      QueueAllDispatched(t, Some(a), rows, now, accept);
      forall k | 0 <= k < |t|
        ensures DueBelow(t, k, rows, now) <==> ReachedFrom(t, k, a, now) && Due(t[k], now)
      {
        DueBelowChildren(t, a, k, now);
      }
    }
  }

  lemma {:induction false} QueueAllDispatched(t: Table, parent: Option<Id>, rows: seq<Row>, now: int, accept: Row -> bool)
    requires ChildrenOf(t, parent, rows) && StoredOnce(t, rows)
    ensures var res := QueueAll(t, parent, rows, now, Some(accept));
      && res.yielded == Accepted(res.dispatched, accept, now)
      && NoRepeats(res.dispatched)
      && StoredAndDue(t, res.dispatched, rows, now)
      && (forall k :: 0 <= k < |t| && DueBelow(t, k, rows, now) ==> t[k] in res.dispatched)
    decreases Level(t, parent), 0, |rows|, 1
  {
    if |rows| > 0 {
      var prefix := rows[..|rows| - 1];
      assert ChildrenOf(t, parent, prefix) && StoredOnce(t, prefix);
      QueueAllDispatched(t, parent, prefix, now, accept);
      LastSiblingDispatched(t, parent, rows, now, accept);
    }
  }

  /** The pass over all siblings is the pass over the earlier ones followed
      by the pass from the last one. */
  lemma {:induction false} LastSiblingDispatched(t: Table, parent: Option<Id>, rows: seq<Row>, now: int,
                                                 accept: Row -> bool)
    requires ChildrenOf(t, parent, rows) && StoredOnce(t, rows) && |rows| > 0
    requires var pre := QueueAll(t, parent, rows[..|rows| - 1], now, Some(accept));
      && pre.yielded == Accepted(pre.dispatched, accept, now)
      && NoRepeats(pre.dispatched)
      && StoredAndDue(t, pre.dispatched, rows[..|rows| - 1], now)
      && (forall k :: 0 <= k < |t| && DueBelow(t, k, rows[..|rows| - 1], now) ==> t[k] in pre.dispatched)
    ensures var res := QueueAll(t, parent, rows, now, Some(accept));
      && res.yielded == Accepted(res.dispatched, accept, now)
      && NoRepeats(res.dispatched)
      && StoredAndDue(t, res.dispatched, rows, now)
      && (forall k :: 0 <= k < |t| && DueBelow(t, k, rows, now) ==> t[k] in res.dispatched)
    decreases Level(t, parent), 0, |rows|, 0
  {
    var n := |rows| - 1;
    var prefix := rows[..n];
    assert ChildrenOf(t, parent, prefix) && StoredOnce(t, prefix);
    QueueAllTable(t, parent, prefix, now, accept);
    var pre := QueueAll(t, parent, prefix, now, Some(accept));
    QueueAllStep(t, parent, rows, n, now, Some(accept));
    assert rows[..n + 1] == rows;
    EarlierLeaveLast(t, parent, rows, now, accept);
    QueueOneDispatched(pre.table, rows[n], now, accept);
    var step := QueueOne(pre.table, rows[n], now, Some(accept));
    AcceptedAppend(pre.dispatched, step.dispatched, accept, now);
    CombinePasses(t, parent, rows, now, pre.table, pre.dispatched, step.dispatched);
  }

  /** The passes over the earlier siblings leave the subtree of the last
      one as it was. */
  lemma EarlierLeaveLast(t: Table, parent: Option<Id>, rows: seq<Row>, now: int, accept: Row -> bool)
    requires ChildrenOf(t, parent, rows) && StoredOnce(t, rows) && |rows| > 0
    ensures var pre := QueueAll(t, parent, rows[..|rows| - 1], now, Some(accept));
      && SameShape(t, pre.table) && StoreValid(pre.table)
      && forall j :: 0 <= j < |t| && Descends(Links(t), j, rows[|rows| - 1].id.value) ==> pre.table[j] == t[j]
  {
    var n := |rows| - 1;
    var prefix := rows[..n];
    assert ChildrenOf(t, parent, prefix) && StoredOnce(t, prefix);
    QueueAllTable(t, parent, prefix, now, accept);
    var pre := QueueAll(t, parent, prefix, now, Some(accept));
    SameShapeKeepsValid(t, pre.table);
    forall j | 0 <= j < |t| && Descends(Links(t), j, rows[n].id.value)
      ensures pre.table[j] == t[j]
    {
      EarlierApart(t, parent, rows, n, j, now);
    }
  }

  /** What the earlier passes dispatched (`xs`) followed by what the pass
      from the last sibling over `u` dispatched (`ys`) is, for all the
      siblings, distinct, stored and due, and complete. */
  lemma CombinePasses(t: Table, parent: Option<Id>, rows: seq<Row>, now: int, u: Table, xs: seq<Row>, ys: seq<Row>)
    requires ChildrenOf(t, parent, rows) && StoredOnce(t, rows) && |rows| > 0
    requires SameShape(t, u) && StoreValid(u)
    requires forall j :: 0 <= j < |t| && Descends(Links(t), j, rows[|rows| - 1].id.value) ==> u[j] == t[j]
    requires NoRepeats(xs) && StoredAndDue(t, xs, rows[..|rows| - 1], now)
    requires forall k :: 0 <= k < |t| && DueBelow(t, k, rows[..|rows| - 1], now) ==> t[k] in xs
    requires NoRepeats(ys) && ReachedAndDue(u, ys, rows[|rows| - 1].id.value, now)
    requires forall k :: 0 <= k < |u| && ReachedFrom(u, k, rows[|rows| - 1].id.value, now) && Due(u[k], now) ==> u[k] in ys
    ensures NoRepeats(xs + ys)
    ensures StoredAndDue(t, xs + ys, rows, now)
    ensures forall k :: 0 <= k < |t| && DueBelow(t, k, rows, now) ==> t[k] in xs + ys
  {
    LastPassDispatched(t, parent, rows, now, u, ys);
    StoredAndDueWiden(t, xs, rows, now);
    StoredAndDueAppend(t, xs, ys, rows, now);
    PassesApart(t, parent, rows, now, xs, ys);
    NoRepeatsAppend(xs, ys);
    LastPassComplete(t, parent, rows, now, u, xs, ys);
  }

  /** The records the passes over the earlier siblings dispatch are not
      below the last sibling. */
  lemma PassesApart(t: Table, parent: Option<Id>, rows: seq<Row>, now: int, xs: seq<Row>, ys: seq<Row>)
    requires ChildrenOf(t, parent, rows) && StoredOnce(t, rows) && |rows| > 0
    requires StoredAndDue(t, xs, rows[..|rows| - 1], now)
    requires AllBelow(t, ys, rows[|rows| - 1].id.value)
    ensures Apart(xs, ys)
  {
    forall i, j | 0 <= i < |xs| && 0 <= j < |ys|
      ensures xs[i].id != ys[j].id
    {
      EarlierApart(t, parent, rows, |rows| - 1, ys[j].id.value, now);
    }
  }

  /** Whatever the passes over all siblings find due, the pass over the
      earlier ones or the pass from the last one dispatches. */
  lemma LastPassComplete(t: Table, parent: Option<Id>, rows: seq<Row>, now: int, u: Table, xs: seq<Row>, ys: seq<Row>)
    requires ChildrenOf(t, parent, rows) && StoredOnce(t, rows) && |rows| > 0
    requires SameShape(t, u) && StoreValid(u)
    requires forall j :: 0 <= j < |t| && Descends(Links(t), j, rows[|rows| - 1].id.value) ==> u[j] == t[j]
    requires forall k :: 0 <= k < |t| && DueBelow(t, k, rows[..|rows| - 1], now) ==> t[k] in xs
    requires forall k :: 0 <= k < |u| && ReachedFrom(u, k, rows[|rows| - 1].id.value, now) && Due(u[k], now) ==> u[k] in ys
    ensures forall k :: 0 <= k < |t| && DueBelow(t, k, rows, now) ==> t[k] in xs + ys
  {
    var a := rows[|rows| - 1].id.value;
    forall k | 0 <= k < |t| && DueBelow(t, k, rows, now)
      ensures t[k] in xs + ys
    {
      DueBelowSplit(t, k, rows, now);
      if !DueBelow(t, k, rows[..|rows| - 1], now) {
        ReachedIsBelow(t, k, a, now);
        ReachedIsLocal(t, u, k, a, now);
        assert u[k] in ys;
      }
    }
  }

  /** What the pass from the last of `rows` dispatches lies in its own
      subtree, where the table is still the one the whole pass started
      from. */
  lemma LastPassDispatched(t: Table, parent: Option<Id>, rows: seq<Row>, now: int, u: Table, ds: seq<Row>)
    requires ChildrenOf(t, parent, rows) && StoredOnce(t, rows) && |rows| > 0
    requires SameShape(t, u)
    requires forall j :: 0 <= j < |t| && Descends(Links(t), j, rows[|rows| - 1].id.value) ==> u[j] == t[j]
    requires SameShape(t, u) && StoreValid(u)
    requires ReachedAndDue(u, ds, rows[|rows| - 1].id.value, now)
    ensures AllBelow(t, ds, rows[|rows| - 1].id.value)
    ensures StoredAndDue(t, ds, rows, now)
  {
    var a := rows[|rows| - 1].id.value;
    SameShapeKeepsValid(t, u);
    forall i | 0 <= i < |ds|
      ensures Descends(Links(t), ds[i].id.value, a) && t[ds[i].id.value] == ds[i] && DueBelow(t, ds[i].id.value, rows, now)
    {
      var d := ds[i];
      ReachedIsBelow(u, d.id.value, a, now);
      ReachedIsLocal(t, u, d.id.value, a, now);
      DueBelowSplit(t, d.id.value, rows, now);
    }
  }

  // ---------------------------------------------------------------------
  // The pass from the roots

  lemma {:induction false} ReachedFromRoot(t: Table, k: nat, root: nat, now: int)
    requires Acyclic(Links(t)) && k < |t| && root < |t| && t[root].parent.None?
    requires ReachedFrom(t, k, root, now)
    ensures Reached(t, k, now)
    decreases DepthOf(Links(t), k)
  {
    if k != root {
      var p := t[k].parent.value;
      ChildDepth(Links(t), p, k);
      ReachedFromRoot(t, p, root, now);
    }
  }

  lemma {:induction false} ReachedHasRoot(t: Table, k: nat, now: int)
    requires Acyclic(Links(t)) && k < |t| && Reached(t, k, now)
    ensures exists root :: 0 <= root < |t| && t[root].parent.None? && ReachedFrom(t, k, root, now)
    decreases DepthOf(Links(t), k)
  {
    if t[k].parent.Some? {
      var p := t[k].parent.value;
      ChildDepth(Links(t), p, k);
      ReachedHasRoot(t, p, now);
      var root :| 0 <= root < |t| && t[root].parent.None? && ReachedFrom(t, p, root, now);
      assert ReachedFrom(t, k, root, now);
    } else {
      assert ReachedFrom(t, k, k, now);
    }
  }

  /** The passes over the roots find due exactly the dispatchable records. */
  lemma DueBelowRoots(t: Table, k: nat, now: int)
    requires StoreValid(t) && k < |t|
    ensures DueBelow(t, k, Children(t, None), now) <==> Dispatchable(t, k, now)
  {
    var roots := Children(t, None);
    if DueBelow(t, k, roots, now) {
      DueBelowChildrenSound(t, None, k, roots, now);
      var root :| 0 <= root < |t| && t[root].parent == None && ReachedFrom(t, k, root, now);
      ReachedFromRoot(t, k, root, now);
    }
    if Dispatchable(t, k, now) {
      ReachedHasRoot(t, k, now);
      var root :| 0 <= root < |t| && t[root].parent.None? && ReachedFrom(t, k, root, now);
      assert ParentAt(t, root) == None;
      DueBelowFromOne(t, k, root, roots, now);
    }
  }

  /** `queue()` with a callable dispatch callback: it never throws; it hands
      each dispatchable record (one the pass reaches and finds due) to the
      callback exactly once and no other record; it sets to pending and
      yields exactly the ones the callback accepts, in dispatch order; and
      it leaves every other record as it was. */
  lemma QueuePass(t: Table, now: int, accept: Row -> bool)
    requires StoreValid(t)
    ensures var res := QueueAll(t, None, Children(t, None), now, Some(accept));
      && !res.aborted
      && (forall k :: 0 <= k < |t| ==>
            res.table[k] == if Dispatchable(t, k, now) && accept(t[k]) then Pend(t[k], now) else t[k])
      && (forall i :: 0 <= i < |res.dispatched| ==>
            res.dispatched[i].id.Some? && res.dispatched[i].id.value < |t| &&
            t[res.dispatched[i].id.value] == res.dispatched[i] && Dispatchable(t, res.dispatched[i].id.value, now))
      && (forall k :: 0 <= k < |t| && Dispatchable(t, k, now) ==> t[k] in res.dispatched)
      && NoRepeats(res.dispatched)
      && res.yielded == Accepted(res.dispatched, accept, now)
  {
    var roots := Children(t, None);
    ChildrenAreDistinct(t, None);
    QueueAllTable(t, None, roots, now, accept);
    QueueAllDispatched(t, None, roots, now, accept);
    forall k | 0 <= k < |t| ensures DueBelow(t, k, roots, now) <==> Dispatchable(t, k, now) {
      DueBelowRoots(t, k, now);
    }
  }

  // ---------------------------------------------------------------------
  // Without a callable dispatch callback

  lemma {:induction false} QueueOneNoCallback(t: Table, r: Row, now: int)
    requires StoreValid(t) && Matches(t, r) && t[r.id.value] == r
    ensures var res := QueueOne(t, r, now, None);
      && res.table == t && res.yielded == [] && res.dispatched == []
      && (res.aborted <==> exists k :: 0 <= k < |t| && ReachedFrom(t, k, r.id.value, now) && Due(t[k], now))
    decreases Height(Links(t), r.id.value), 1
  {
    var a := r.id.value;
    if !PassesThrough(r, now) {
      forall k | 0 <= k < |t| && k != a && ReachedFrom(t, k, a, now)
        ensures false
      {
        ReachedPassesStart(t, k, a, now);
      }
      if Due(r, now) {
        assert ReachedFrom(t, a, a, now);
      }
    } else {
      var rows := Children(t, Some(a));
      ChildrenAreDistinct(t, Some(a));
      QueueAllNoCallback(t, Some(a), rows, now);
      forall k | 0 <= k < |t|
        ensures DueBelow(t, k, rows, now) <==> ReachedFrom(t, k, a, now) && Due(t[k], now)
      {
        DueBelowChildren(t, a, k, now);
      }
    }
  }

  /** Some stored record is reached and due below one of `rows`. */
  ghost predicate AnyDueBelow(t: Table, rows: seq<Row>, now: int)
    requires Acyclic(Links(t))
  {
    exists k :: 0 <= k < |t| && DueBelow(t, k, rows, now)
  }

  lemma {:induction false} QueueAllNoCallback(t: Table, parent: Option<Id>, rows: seq<Row>, now: int)
    requires ChildrenOf(t, parent, rows) && StoredOnce(t, rows)
    ensures var res := QueueAll(t, parent, rows, now, None);
      && res.table == t && res.yielded == [] && res.dispatched == []
      && (res.aborted <==> AnyDueBelow(t, rows, now))
    decreases Level(t, parent), 0, |rows|, 1
  {
    if |rows| > 0 {
      var prefix := rows[..|rows| - 1];
      assert ChildrenOf(t, parent, prefix) && StoredOnce(t, prefix);
      QueueAllNoCallback(t, parent, prefix, now);
      LastSiblingNoCallback(t, parent, rows, now);
    }
  }

  /** The step of `QueueAllNoCallback` for the last of `rows`. */
  lemma {:induction false} LastSiblingNoCallback(t: Table, parent: Option<Id>, rows: seq<Row>, now: int)
    requires ChildrenOf(t, parent, rows) && StoredOnce(t, rows) && |rows| > 0
    requires var pre := QueueAll(t, parent, rows[..|rows| - 1], now, None);
      && pre.table == t && pre.yielded == [] && pre.dispatched == []
      && (pre.aborted <==> AnyDueBelow(t, rows[..|rows| - 1], now))
    ensures var res := QueueAll(t, parent, rows, now, None);
      && res.table == t && res.yielded == [] && res.dispatched == []
      && (res.aborted <==> AnyDueBelow(t, rows, now))
    decreases Level(t, parent), 0, |rows|, 0
  {
    var n := |rows| - 1;
    var a := rows[n].id.value;
    var prefix := rows[..n];
    ChildIsBelow(t, parent, rows[n]);
    QueueOneNoCallback(t, rows[n], now);
    var res := QueueAll(t, parent, rows, now, None);
    if res.aborted {
      if AnyDueBelow(t, prefix, now) {
        var k :| 0 <= k < |t| && DueBelow(t, k, prefix, now);
        DueBelowSplit(t, k, rows, now);
      } else {
        var k :| 0 <= k < |t| && ReachedFrom(t, k, a, now) && Due(t[k], now);
        DueBelowSplit(t, k, rows, now);
      }
    } else {
      forall k | 0 <= k < |t| ensures !DueBelow(t, k, rows, now) {
        DueBelowSplit(t, k, rows, now);
      }
    }
  }

  /** `queue()` without a callable dispatch callback: it throws as soon as
      it meets a dispatchable record, having dispatched, yielded and
      changed nothing. */
  lemma QueueWithoutCallback(t: Table, now: int)
    requires StoreValid(t)
    ensures var res := QueueAll(t, None, Children(t, None), now, None);
      && res.table == t && res.yielded == [] && res.dispatched == []
      && (res.aborted <==> exists k :: 0 <= k < |t| && Dispatchable(t, k, now))
  {
    var roots := Children(t, None);
    ChildrenAreDistinct(t, None);
    QueueAllNoCallback(t, None, roots, now);
    forall k | 0 <= k < |t| ensures DueBelow(t, k, roots, now) <==> Dispatchable(t, k, now) {
      DueBelowRoots(t, k, now);
    }
  }

  // ---------------------------------------------------------------------
  // Consequences

  lemma {:induction false} AcceptedAreDispatched(ds: seq<Row>, accept: Row -> bool, now: int, y: Row)
    requires y in Accepted(ds, accept, now)
    ensures exists d :: d in ds && accept(d) && y == Pend(d, now)
    decreases |ds|
  {
    var n := |ds| - 1;
    if y in Accepted(ds[..n], accept, now) {
      AcceptedAreDispatched(ds[..n], accept, now, y);
      var d :| d in ds[..n] && accept(d) && y == Pend(d, now);
      assert d in ds;
    } else {
      assert y == Pend(ds[n], now);
    }
  }

  /** What a pass yields is stored as yielded, pending. */
  lemma YieldedArePending(t: Table, now: int, accept: Row -> bool)
    requires StoreValid(t)
    ensures var res := QueueAll(t, None, Children(t, None), now, Some(accept));
      forall i :: 0 <= i < |res.yielded| ==>
        var y := res.yielded[i];
        y.id.Some? && y.id.value < |t| && res.table[y.id.value] == y && y.status == Pending
  {
    var res := QueueAll(t, None, Children(t, None), now, Some(accept));
    QueuePass(t, now, accept);
    forall i | 0 <= i < |res.yielded|
      ensures var y := res.yielded[i];
        y.id.Some? && y.id.value < |t| && res.table[y.id.value] == y && y.status == Pending
    {
      AcceptedAreDispatched(res.dispatched, accept, now, res.yielded[i]);
      var d :| d in res.dispatched && accept(d) && res.yielded[i] == Pend(d, now);
      var m :| 0 <= m < |res.dispatched| && res.dispatched[m] == d;
    }
  }

  /** A pass dispatches no record that is pending. */
  lemma DispatchedAreNotPending(t: Table, now: int, accept: Row -> bool)
    requires StoreValid(t)
    ensures var res := QueueAll(t, None, Children(t, None), now, Some(accept));
      forall j :: 0 <= j < |res.dispatched| ==>
        var d := res.dispatched[j];
        d.id.Some? && d.id.value < |t| && t[d.id.value] == d && d.status != Pending
  {
    QueuePass(t, now, accept);
  }

  /** A second `queue()` with no execution in between dispatches none of
      the records the first one set to pending. */
  lemma SecondPassSkipsPending(t: Table, now: int, accept: Row -> bool, later: int, accept2: Row -> bool)
    requires StoreValid(t)
    ensures var first := QueueAll(t, None, Children(t, None), now, Some(accept));
      StoreValid(first.table) &&
      var second := QueueAll(first.table, None, Children(first.table, None), later, Some(accept2));
      forall i, j :: 0 <= i < |first.yielded| && 0 <= j < |second.dispatched| ==>
        first.yielded[i].id != second.dispatched[j].id
  {
    var first := QueueAll(t, None, Children(t, None), now, Some(accept));
    SameShapeKeepsValid(t, first.table);
    YieldedArePending(t, now, accept);
    DispatchedAreNotPending(first.table, later, accept2);
  }

  /** A record that has been computed and is still within its interval. */
  predicate Fresh(r: Row, now: int)
  {
    r.status == Complete && WasWithinLast(r.modified, IntervalSeconds(r.config), now)
  }

  /** The ids of the records in `rows`. */
  function IdsOf(rows: seq<Row>): set<Option<Id>>
  {
    set i | 0 <= i < |rows| :: rows[i].id
  }

  lemma {:induction false} NoRepeatsCount(rows: seq<Row>)
    requires NoRepeats(rows)
    ensures |IdsOf(rows)| == |rows|
    decreases |rows|
  {
    if |rows| > 0 {
      var n := |rows| - 1;
      assert NoRepeats(rows[..n]);
      NoRepeatsCount(rows[..n]);
      assert IdsOf(rows) == IdsOf(rows[..n]) + {rows[n].id} by {
        forall x ensures x in IdsOf(rows) <==> x in IdsOf(rows[..n]) + {rows[n].id} {
          if x in IdsOf(rows[..n]) {
            var i :| 0 <= i < n && rows[..n][i].id == x;
            assert rows[i].id == x;
          }
          if x in IdsOf(rows) && x != rows[n].id {
            var i :| 0 <= i < |rows| && rows[i].id == x;
            assert rows[..n][i].id == x;
          }
        }
      }
    } else {
      assert IdsOf(rows) == {};
    }
  }

  lemma {:induction false} AcceptedAll(ds: seq<Row>, accept: Row -> bool, now: int)
    requires forall i :: 0 <= i < |ds| ==> accept(ds[i])
    ensures |Accepted(ds, accept, now)| == |ds|
    decreases |ds|
  {
    if |ds| > 0 {
      AcceptedAll(ds[..|ds| - 1], accept, now);
    }
  }

  /** Where every record other than `m` is fresh, a pass reaches `m`
      and every record outside the subtree of `m`. */
  lemma {:induction false} ReachedAroundOne(t: Table, x: nat, m: nat, now: int)
    requires StoreValid(t) && x < |t| && m < |t| && !Descends(Links(t), x, m)
    requires forall k :: 0 <= k < |t| && k != m ==> Fresh(t[k], now)
    ensures Reached(t, x, now)
    decreases DepthOf(Links(t), x)
  {
    if t[x].parent.Some? {
      var p := t[x].parent.value;
      ChildDepth(Links(t), p, x);
      ReachedAroundOne(t, p, m, now);
    }
  }

  /** After a whole forest has been computed, a pass dispatches nothing
      while every record is within its interval. */
  lemma AllFreshDispatchesNothing(t: Table, now: int, accept: Row -> bool)
    requires StoreValid(t)
    requires forall k :: 0 <= k < |t| ==> Fresh(t[k], now)
    ensures var res := QueueAll(t, None, Children(t, None), now, Some(accept));
      res.dispatched == [] && res.yielded == [] && res.table == t
  {
    QueuePass(t, now, accept);
  }

  /** Where every record but one is fresh and that one is due, that one
      is the only dispatchable record. */
  lemma OnlyOneDispatchable(t: Table, m: nat, now: int)
    requires StoreValid(t) && m < |t| && Due(t[m], now)
    requires forall k :: 0 <= k < |t| && k != m ==> Fresh(t[k], now)
    ensures forall k :: 0 <= k < |t| ==> (Dispatchable(t, k, now) <==> k == m)
  {
    if t[m].parent.Some? {
      var p := t[m].parent.value;
      ChildDepth(Links(t), p, m);
      ParentNotBelowChild(Links(t), p, m);
      ReachedAroundOne(t, p, m, now);
    }
  }

  /** Where every record but one is fresh and that one is due, a pass
      dispatches that one record and no other, wherever it lies in the
      forest. */
  lemma OnlyOneDue(t: Table, m: nat, now: int, accept: Row -> bool)
    requires StoreValid(t) && m < |t| && Due(t[m], now)
    requires forall k :: 0 <= k < |t| && k != m ==> Fresh(t[k], now)
    ensures QueueAll(t, None, Children(t, None), now, Some(accept)).dispatched == [t[m]]
  {
    var res := QueueAll(t, None, Children(t, None), now, Some(accept));
    OnlyOneDispatchable(t, m, now);
    QueuePass(t, now, accept);
    assert forall i :: 0 <= i < |res.dispatched| ==> res.dispatched[i] == t[m];
  }

  /** The forest of the `queue` test: three roots, `foo`, `foo2` and
      `foo3`, and `bar` below `foo`, all just added. */
  function ThreeRootsOneChild(): Table
  {
    var config := map["interval" := Duration(600), "callback" := Callable(0)];
    [ Row(Some(0), None, "foo", Null, Initial, config, 0, 0),
      Row(Some(1), None, "foo2", Null, Initial, config, 0, 0),
      Row(Some(2), None, "foo3", Null, Initial, config, 0, 0),
      Row(Some(3), Some(0), "bar", Null, Initial, config, 0, 0) ]
  }

  /** The ids of the records a pass from the roots dispatches. */
  ghost function DispatchableIds(t: Table, now: int): set<Option<Id>>
    requires Acyclic(Links(t))
  {
    set k | 0 <= k < |t| && Dispatchable(t, k, now) :: Some(k)
  }

  /** A pass from the roots dispatches exactly as many records as are
      dispatchable. */
  lemma DispatchedCount(t: Table, now: int, accept: Row -> bool)
    requires StoreValid(t)
    ensures |QueueAll(t, None, Children(t, None), now, Some(accept)).dispatched| == |DispatchableIds(t, now)|
  {
    var res := QueueAll(t, None, Children(t, None), now, Some(accept));
    QueuePass(t, now, accept);
    assert IdsOf(res.dispatched) == DispatchableIds(t, now) by {
      forall x ensures x in IdsOf(res.dispatched) <==> x in DispatchableIds(t, now) {
        if x in IdsOf(res.dispatched) {
          var i :| 0 <= i < |res.dispatched| && res.dispatched[i].id == x;
          assert Dispatchable(t, res.dispatched[i].id.value, now);
        }
        if x in DispatchableIds(t, now) {
          var k :| 0 <= k < |t| && Dispatchable(t, k, now) && x == Some(k);
          assert t[k] in res.dispatched;
          var i :| 0 <= i < |res.dispatched| && res.dispatched[i] == t[k];
          assert res.dispatched[i].id == x;
        }
      }
    }
    NoRepeatsCount(res.dispatched);
  }

  /** What a pass from the roots yields is what the callback accepted. */
  lemma YieldedIsAccepted(t: Table, now: int, accept: Row -> bool)
    requires StoreValid(t)
    ensures var res := QueueAll(t, None, Children(t, None), now, Some(accept));
      res.yielded == Accepted(res.dispatched, accept, now)
  {
    QueuePass(t, now, accept);
  }

  lemma ThreeRootsOneChildValid()
    ensures StoreValid(ThreeRootsOneChild())
  {
    var t := ThreeRootsOneChild();
    var links := Links(t);
    assert links == [None, None, None, Some(0)];
    assert Depth(links, 3, 4) == Some(1);
    assert Acyclic(links);
    assert "interval" in t[0].config;
    assert UniqueNames(t) by {
      forall j, k | 0 <= j < |t| && 0 <= k < |t| && NameAt(t, j) == NameAt(t, k) ensures j == k {
        assert NameAt(t, j) == t[j].name && NameAt(t, k) == t[k].name;
      }
    }
  }

  /** In that forest the three roots are due and the child of `foo` is not
      reached, since `foo` does not pass the pass through. */
  lemma ThreeRootsOneChildDispatchable(now: int)
    ensures StoreValid(ThreeRootsOneChild())
    ensures DispatchableIds(ThreeRootsOneChild(), now) == {Some(0), Some(1), Some(2)}
    ensures |DispatchableIds(ThreeRootsOneChild(), now)| == 3
  {
    var t := ThreeRootsOneChild();
    ThreeRootsOneChildValid();
    assert Dispatchable(t, 0, now) && Dispatchable(t, 1, now) && Dispatchable(t, 2, now);
    assert !Reached(t, 3, now);
  }

  /** A pass whose callback accepts everything yields one record per
      dispatchable record. */
  lemma YieldedCount(t: Table, now: int, accept: Row -> bool)
    requires StoreValid(t)
    requires forall r :: accept(r)
    ensures |QueueAll(t, None, Children(t, None), now, Some(accept)).yielded| == |DispatchableIds(t, now)|
  {
    var res := QueueAll(t, None, Children(t, None), now, Some(accept));
    DispatchedCount(t, now, accept);
    AcceptedAll(res.dispatched, accept, now);
    YieldedIsAccepted(t, now, accept);
  }

  /** On that forest a pass whose callback accepts everything yields three
      records: the roots, not the child below the due root `foo`. */
  lemma ThreeRootsOneChildYieldsThree(t: Table, now: int, accept: Row -> bool)
    requires t == ThreeRootsOneChild()
    requires forall r :: accept(r)
    ensures StoreValid(t)
    ensures |QueueAll(t, None, Children(t, None), now, Some(accept)).yielded| == 3
  {
    ThreeRootsOneChildDispatchable(now);
    YieldedCount(t, now, accept);
  }
}
