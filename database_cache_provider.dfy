/** The database-backed store of cached variables, over an in-memory table.
    Ids are autoincrement and nothing is ever deleted, so row `k` of the
    table is the record with id `k`, and queries return rows in id order. */
module DatabaseCacheProvider {

  import opened Wrappers
  import opened Values
  import opened CachedVariable
  import opened CachedVariablesTable
  import opened Forest

  type Table = seq<Row>

  datatype Error =
    | NoInterval                  // add without a non-empty `config.interval`
    | CouldNotSave(name: string)  // the record fails validation or names no row
    | ParentMissing               // the parent link names no record (foreign key)
    | ParentIsDescendant          // the Tree behaviour refuses a cycle
    | DuplicateName(name: string) // the unique index on `name`
    | EmptyList                   // the query builder refuses `IN` over no values

  /** The parent link of every record, by id. */
  function Links(t: Table): (links: seq<Option<Id>>)
    ensures |links| == |t|
  {
    seq(|t|, k requires 0 <= k < |t| => t[k].parent)
  }

  predicate IdsAreIndices(t: Table)
  {
    forall k :: 0 <= k < |t| ==> t[k].id == Some(k)
  }

  /** The name of row `k`; the trigger of UniqueNames, so that uniqueness
      is only unfolded where a proof mentions it. */
  function NameAt(t: Table, k: nat): string
    requires k < |t|
  {
    t[k].name
  }

  /** The parent link of row `k`; the trigger of the completeness of
      Children. */
  function ParentAt(t: Table, k: nat): Option<Id>
    requires k < |t|
  {
    t[k].parent
  }

  predicate UniqueNames(t: Table)
  {
    forall j, k :: 0 <= j < |t| && 0 <= k < |t| && NameAt(t, j) == NameAt(t, k) ==> j == k
  }

  /** The store invariant: ids are positions, parent links form a forest,
      names are unique, and every row has a name and a configuration. */
  predicate StoreValid(t: Table)
  {
    && IdsAreIndices(t)
    && Acyclic(Links(t))
    && UniqueNames(t)
    && forall k :: 0 <= k < |t| ==> t[k].name != "" && t[k].config != map[]
  }

  /** The fields the engine never changes once a record is stored. */
  function Shape(r: Row): (Option<Id>, Option<Id>, string, Config, int)
  {
    (r.id, r.parent, r.name, r.config, r.created)
  }

  /** `r` is the value of an entity loaded from `t`, possibly with another
      status, content or modification time. */
  predicate Matches(t: Table, r: Row)
  {
    r.id.Some? && r.id.value < |t| && Shape(r) == Shape(t[r.id.value])
  }

  predicate SameShape(t: Table, u: Table)
  {
    |t| == |u| && forall k :: 0 <= k < |t| ==> Shape(t[k]) == Shape(u[k])
  }

  lemma SameShapeKeepsValid(t: Table, u: Table)
    requires SameShape(t, u)
    ensures Links(t) == Links(u)
    ensures StoreValid(t) ==> StoreValid(u)
  {
    assert forall k :: 0 <= k < |t| ==> Links(t)[k] == Links(u)[k];
    assert forall k :: 0 <= k < |t| ==> NameAt(t, k) == NameAt(u, k);
  }

  lemma MatchesAcross(t: Table, u: Table, r: Row)
    requires SameShape(t, u) && Matches(t, r)
    ensures Matches(u, r)
  {
  }

  /** Writing a loaded entity back into its row. */
  function Put(t: Table, r: Row): (u: Table)
    requires Matches(t, r)
    ensures SameShape(t, u) && u[r.id.value] == r
    ensures forall k :: 0 <= k < |t| && k != r.id.value ==> u[k] == t[k]
  {
    t[r.id.value := r]
  }

  /** The first row named `name`. */
  function FindByName(t: Table, name: string): (r: Option<Row>)
    ensures r.Some? ==> r.value in t && r.value.name == name
    ensures r.None? ==> forall k :: 0 <= k < |t| ==> t[k].name != name
  {
    if |t| == 0 then None
    else if t[0].name == name then Some(t[0])
    else
      var r := FindByName(t[1..], name);
      assert forall k :: 1 <= k < |t| ==> t[k] == t[1..][k - 1];
      r
  }

  /** In a valid store, the row found is the one stored under its id. */
  lemma FoundIsStored(t: Table, name: string)
    requires StoreValid(t) && FindByName(t, name).Some?
    ensures Matches(t, FindByName(t, name).value)
    ensures t[FindByName(t, name).value.id.value] == FindByName(t, name).value
  {
    var r := FindByName(t, name).value;
    var k :| 0 <= k < |t| && t[k] == r;
    assert t[k].id == Some(k);
  }

  /** In a valid store the record found by name is the one stored under
      that name. */
  lemma FoundByName(t: Table, name: string, k: nat)
    requires StoreValid(t) && k < |t| && t[k].name == name
    ensures FindByName(t, name) == Some(t[k])
  {
    FoundIsStored(t, name);
    var r := FindByName(t, name).value;
    assert NameAt(t, r.id.value) == NameAt(t, k);
  }

  /** The ids, from `from` on, of the rows `keep` accepts: a query with a
      where clause. The query has no ORDER BY; the model returns id order. */
  function Select(t: Table, keep: Row -> bool, from: nat): (ids: seq<Id>)
    requires from <= |t|
    ensures forall i :: 0 <= i < |ids| ==> from <= ids[i] < |t| && keep(t[ids[i]])
    ensures forall k :: from <= k < |t| && keep(t[k]) ==> k in ids
    decreases |t| - from
  {
    if from == |t| then []
    else (if keep(t[from]) then [from] else []) + Select(t, keep, from + 1)
  }

  function RowsAt(t: Table, ids: seq<Id>): (rows: seq<Row>)
    requires forall i :: 0 <= i < |ids| ==> ids[i] < |t|
    ensures |rows| == |ids| && forall i :: 0 <= i < |ids| ==> rows[i] == t[ids[i]]
  {
    seq(|ids|, i requires 0 <= i < |ids| => t[ids[i]])
  }

  /** The where clause `parent_id = parent` (`parent_id IS NULL` for None). */
  function ParentIs(parent: Option<Id>): Row -> bool
  {
    (r: Row) => r.parent == parent
  }

  /** The rows whose parent link is `parent`: the roots for None. */
  function Children(t: Table, parent: Option<Id>): (rows: seq<Row>)
    requires IdsAreIndices(t)
    ensures forall i :: 0 <= i < |rows| ==>
      Matches(t, rows[i]) && t[rows[i].id.value] == rows[i] && rows[i].parent == parent
    ensures forall k :: 0 <= k < |t| && ParentAt(t, k) == parent ==> t[k] in rows
  {
    var ids := Select(t, ParentIs(parent), 0);
    var rows := RowsAt(t, ids);
    assert forall k :: 0 <= k < |t| && ParentAt(t, k) == parent ==> t[k] in rows by {
      forall k | 0 <= k < |t| && ParentAt(t, k) == parent ensures t[k] in rows {
        var i :| 0 <= i < |ids| && ids[i] == k;
        assert rows[i] == t[k];
      }
    }
    rows
  }

  predicate Increasing(ids: seq<Id>)
  {
    forall i, j :: 0 <= i < j < |ids| ==> ids[i] < ids[j]
  }

  lemma IncreasingCons(x: Id, ids: seq<Id>)
    requires Increasing(ids) && forall i :: 0 <= i < |ids| ==> x < ids[i]
    ensures Increasing([x] + ids)
  {
    var s := [x] + ids;
    forall i, j | 0 <= i < j < |s| ensures s[i] < s[j] {
      assert s[j] == ids[j - 1];
      if i > 0 {
        assert s[i] == ids[i - 1];
      }
    }
  }

  /** A query lists each id at most once: in increasing order. */
  lemma {:induction false} SelectIncreases(t: Table, keep: Row -> bool, from: nat)
    requires from <= |t|
    ensures Increasing(Select(t, keep, from))
    decreases |t| - from
  {
    if from < |t| {
      SelectIncreases(t, keep, from + 1);
      if keep(t[from]) {
        IncreasingCons(from, Select(t, keep, from + 1));
      }
    }
  }

  /** No record is listed twice among the children of a parent. */
  lemma ChildrenAreDistinct(t: Table, parent: Option<Id>)
    requires IdsAreIndices(t)
    ensures var rows := Children(t, parent);
      forall i, j :: 0 <= i < |rows| && 0 <= j < |rows| && i != j ==> rows[i].id != rows[j].id
  {
    var ids := Select(t, ParentIs(parent), 0);
    SelectIncreases(t, (r: Row) => r.parent == parent, 0);
    var rows := RowsAt(t, ids);
    assert Children(t, parent) == rows;
    forall i, j | 0 <= i < |rows| && 0 <= j < |rows| && i != j ensures rows[i].id != rows[j].id {
      assert rows[i] == t[ids[i]] && rows[j] == t[ids[j]];
      if i < j { assert ids[i] < ids[j]; } else { assert ids[j] < ids[i]; }
    }
  }

  /** The rows whose name is one of `names`. */
  function Named(t: Table, names: seq<string>): (rows: seq<Row>)
    ensures forall i :: 0 <= i < |rows| ==> rows[i] in t && rows[i].name in names
    ensures forall k :: 0 <= k < |t| && NameAt(t, k) in names ==> t[k] in rows
  {
    var ids := Select(t, (r: Row) => r.name in names, 0);
    var rows := RowsAt(t, ids);
    assert forall k :: 0 <= k < |t| && NameAt(t, k) in names ==> t[k] in rows by {
      forall k | 0 <= k < |t| && NameAt(t, k) in names ensures t[k] in rows {
        var i :| 0 <= i < |ids| && ids[i] == k;
        assert rows[i] == t[k];
      }
    }
    rows
  }

  /** `updateVariable` through `Table::save`: validate, stamp, give a new
      record the next id, and refuse a dangling or cyclic parent link or a
      second record with the same name. */
  function Save(t: Table, r: Row, now: int): Result<(Table, Row), Error>
  {
    var creating := r.id.None?;
    if !Validates(r, creating) then Failure(CouldNotSave(r.name))
    else if !creating && r.id.value >= |t| then Failure(CouldNotSave(r.name))
    else
      var saved := Stamp(if creating then r.(id := Some(|t|)) else r, now, creating);
      var u := if creating then t + [saved] else t[r.id.value := saved];
      if !LinksInRange(Links(u)) then Failure(ParentMissing)
      else if !Acyclic(Links(u)) then Failure(ParentIsDescendant)
      else if !UniqueNames(u) then Failure(DuplicateName(r.name))
      else Success((u, saved))
  }

  /** A successful save keeps the store valid, writes the stamped record
      under its id and changes no other row; a new record is appended. */
  lemma SaveKeepsValid(t: Table, r: Row, now: int)
    requires StoreValid(t) && Save(t, r, now).Success?
    ensures var (u, saved) := Save(t, r, now).value;
      && StoreValid(u)
      && saved.id.Some? && saved.id.value < |u| && u[saved.id.value] == saved
      && saved.modified == now
      && saved == Stamp(saved.(created := r.created, modified := r.modified), now, r.id.None?)
      && (r.id.None? ==> saved.id == Some(|t|) && u == t + [saved])
      && (r.id.Some? ==>
            saved.id == r.id && |u| == |t| &&
            forall k :: 0 <= k < |t| && k != r.id.value ==> u[k] == t[k])
  {
  }

  /** Saving a loaded entity with a recognised status always succeeds and
      only writes its row: the engine's own saves never fail. */
  lemma SaveLoaded(t: Table, r: Row, now: int)
    requires StoreValid(t) && Matches(t, r) && r.status in TypeDescriptions()
    ensures Save(t, r, now) == Success((Put(t, r.(modified := now)), r.(modified := now)))
  {
    var u := t[r.id.value := r.(modified := now)];
    SameShapeKeepsValid(t, u);
  }

  /** DatabaseCacheProvider::add: refuse a missing interval; otherwise save
      the record, over the stored record of the same name when there is one
      (`patchEntity` copies every field except `id`). */
  function ProviderAdd(t: Table, r: Row, now: int): Result<(Table, Row), Error>
  {
    if IsEmpty(Lookup(r.config, "interval")) then Failure(NoInterval)
    else
      match FindByName(t, r.name)
      case None => Save(t, r, now)
      case Some(existing) => Save(t, r.(id := existing.id), now)
  }

  /** Fresh, distinct entity objects hydrated from `rows`, in order. */
  method Hydrate(rows: seq<Row>) returns (vs: seq<Variable>)
    ensures |vs| == |rows|
    ensures forall i :: 0 <= i < |vs| ==> fresh(vs[i]) && vs[i].Snapshot() == rows[i]
    ensures forall i, j :: 0 <= i < j < |vs| ==> vs[i] != vs[j]
  {
    vs := [];
    var i := 0;
    while i < |rows|
      invariant 0 <= i <= |rows| && |vs| == i
      invariant forall j :: 0 <= j < i ==> fresh(vs[j]) && vs[j].Snapshot() == rows[j]
      invariant forall j, k :: 0 <= j < k < i ==> vs[j] != vs[k]
    {
      var v := new Variable.Load(rows[i]);
      vs := vs + [v];
      i := i + 1;
    }
  }

  class Store {
    var table: Table

    ghost predicate Valid()
      reads this
    {
      StoreValid(table)
    }

    constructor ()
      ensures Valid() && table == []
    {
      table := [];
    }

    /** `getVariable`: the record with that name, or null. */
    method GetVariable(name: string) returns (v: Option<Variable>)
      ensures match FindByName(table, name)
              case None => v.None?
              case Some(r) => v.Some? && fresh(v.value) && v.value.Snapshot() == r
    {
      var found := FindByName(table, name);
      if found.None? {
        return None;
      }
      var loaded := new Variable.Load(found.value);
      v := Some(loaded);
    }

    /** `getVariables`: the stored records whose name is in `names`. The
        condition `name IN` over an empty list cannot be generated, so the
        query throws before it reaches the table. */
    method GetVariables(names: seq<string>) returns (res: Result<seq<Variable>, Error>)
      ensures |names| == 0 <==> res == Failure(EmptyList)
      ensures res.Success? ==>
        && |res.value| == |Named(table, names)|
        && forall i :: 0 <= i < |res.value| ==>
             fresh(res.value[i]) && res.value[i].Snapshot() == Named(table, names)[i]
    {
      if |names| == 0 {
        return Failure(EmptyList);
      }
      var vs := Hydrate(Named(table, names));
      return Success(vs);
    }

    /** `updateVariable`: persist the entity's fields; on success the
        entity carries its id and timestamps, on failure nothing changes. */
    method UpdateVariable(v: Variable, now: int) returns (res: Result<Variable, Error>)
      requires Valid()
      modifies this, v
      ensures Valid()
      ensures match Save(old(table), old(v.Snapshot()), now)
              case Failure(e) =>
                res == Failure(e) && table == old(table) && v.Snapshot() == old(v.Snapshot())
              case Success((u, saved)) =>
                res == Success(v) && table == u && v.Snapshot() == saved
    {
      var result := Save(table, v.Snapshot(), now);
      match result
      case Failure(e) =>
        res := Failure(e);
      case Success((u, saved)) =>
        SaveKeepsValid(table, v.Snapshot(), now);
        table := u;
        v.id, v.created, v.modified := saved.id, saved.created, saved.modified;
        res := Success(v);
    }

    /** `add`: insert, or patch the same-name record and save that. */
    method Add(v: Variable, now: int) returns (res: Result<Variable, Error>)
      requires Valid()
      modifies this, v
      ensures Valid()
      ensures match ProviderAdd(old(table), old(v.Snapshot()), now)
              case Failure(e) => res == Failure(e) && table == old(table)
              case Success((u, saved)) =>
                table == u && res.Success? && res.value.Snapshot() == saved &&
                (res.value == v || fresh(res.value))
    {
      if IsEmpty(Lookup(v.config, "interval")) {
        return Failure(NoInterval);
      }
      var found := FindByName(table, v.name);
      var cached := v;
      if found.Some? {
        cached := new Variable.Load(found.value);
        cached.parentId, cached.name, cached.content := v.parentId, v.name, v.content;
        cached.status, cached.config := v.status, v.config;
        cached.created, cached.modified := v.created, v.modified;
      }
      res := UpdateVariable(cached, now);
    }

    /** `getMainVariables`: the result set of the records without a
        parent. The generator hydrates each entity as it is iterated
        (Variable.Load), so the engine loads them one at a time. */
    method GetMainVariables() returns (rows: seq<Row>)
      requires Valid()
      ensures rows == Children(table, None)
    {
      rows := Children(table, None);
    }

    /** `getDependentVariables`: the result set of the records whose parent
        is `v`; none for an entity that has no id yet. */
    method GetDependentVariables(v: Variable) returns (rows: seq<Row>)
      requires Valid()
      ensures rows == if v.id.Some? then Children(table, v.id) else []
    {
      if v.id.None? {
        return [];
      }
      rows := Children(table, v.id);
    }
  }
}
