/** What `add`, `resetAll` and `getAsKeyValue` promise, stated over the
    specification functions of CachedVariableUtility. */
module UtilityProperties {

  import opened Wrappers
  import opened Values
  import opened CachedVariable
  import opened CachedVariablesTable
  import opened Forest
  import opened DatabaseCacheProvider
  import opened CachedVariableUtility

  /** The configuration passed to `add` sets an empty interval (the
      default one is never empty). */
  predicate IntervalGivenEmpty(config: Config)
  {
    "interval" in config && IsEmpty(config["interval"])
  }

  // ---------------------------------------------------------------------
  // add

  /** `add` refuses exactly the configurations whose interval is empty,
      before looking at the store. */
  lemma AddNoIntervalExactly(t: Table, name: string, config: Config, parent: Option<Option<Id>>, now: int)
    ensures AddSpec(t, name, config, parent, now) == Failure(NoInterval) <==> IntervalGivenEmpty(config)
  {
    var d := Draft(t, name, config, parent);
    assert Lookup(d.config, "interval") == if "interval" in config then config["interval"] else Duration(600);
  }

  /** A successful `add` of a name already stored rewrites that record in
      place: same id and creation time, reset to initial with no content,
      the merged configuration, the given parent (or the old one), and no
      other record changes. The record is then what `get` finds. */
  lemma AddReusesRecord(t: Table, name: string, config: Config, parent: Option<Option<Id>>, now: int, k: nat)
    requires StoreValid(t) && k < |t| && t[k].name == name
    requires AddSpec(t, name, config, parent, now).Success?
    ensures var (u, saved) := AddSpec(t, name, config, parent, now).value;
      && StoreValid(u) && |u| == |t|
      && saved == t[k].(status := Initial, content := Null, config := Merge(DefaultConfig, config),
                        parent := if parent.Some? then parent.value else t[k].parent, modified := now)
      && u == t[k := saved]
      && FindByName(u, name) == Some(saved)
  {
    FoundByName(t, name, k);
    var d := Draft(t, name, config, parent);
    assert d.id == Some(k);
    SaveKeepsValid(t, d, now);
    var (u, saved) := Save(t, d, now).value;
    assert u == t[k := saved];
    FoundByName(u, name, k);
  }

  /** A successful `add` of a new name appends a new record: the next id,
      created and modified now, initial with no content, the merged
      configuration and the given parent (or none). The record is then
      what `get` finds. */
  lemma AddAppendsRecord(t: Table, name: string, config: Config, parent: Option<Option<Id>>, now: int)
    requires StoreValid(t) && forall k :: 0 <= k < |t| ==> t[k].name != name
    requires AddSpec(t, name, config, parent, now).Success?
    ensures var (u, saved) := AddSpec(t, name, config, parent, now).value;
      && StoreValid(u)
      && saved == Row(Some(|t|), if parent.Some? then parent.value else None, name, Null, Initial,
                      Merge(DefaultConfig, config), now, now)
      && u == t + [saved]
      && FindByName(u, name) == Some(saved)
  {
    var d := Draft(t, name, config, parent);
    assert d.id == None;
    SaveKeepsValid(t, d, now);
    var (u, saved) := Save(t, d, now).value;
    FoundByName(u, name, |t|);
  }

  /** After a successful `add` the store is still valid and `get` finds
      the record just saved: initial, with no content, the merged
      configuration, and linked to the given parent. */
  lemma AddStores(t: Table, name: string, config: Config, parent: Option<Option<Id>>, now: int)
    requires StoreValid(t) && AddSpec(t, name, config, parent, now).Success?
    ensures var (u, saved) := AddSpec(t, name, config, parent, now).value;
      && StoreValid(u) && |u| >= |t|
      && FindByName(u, name) == Some(saved)
      && saved.status == Initial && saved.content == Null
      && saved.config == Merge(DefaultConfig, config)
      && (parent.Some? ==> saved.parent == parent.value)
  {
    match FindByName(t, name)
    case None =>
      AddAppendsRecord(t, name, config, parent, now);
    case Some(r) =>
      FoundIsStored(t, name);
      AddReusesRecord(t, name, config, parent, now, r.id.value);
  }

  /** The record `add` hands to the store never clashes with the unique
      name index: a stored name is reused, never duplicated. */
  lemma AddNeverDuplicatesName(t: Table, name: string, config: Config, parent: Option<Option<Id>>, now: int)
    requires StoreValid(t)
    ensures var res := AddSpec(t, name, config, parent, now);
      res.Failure? ==> !res.error.DuplicateName?
  {
    var d := Draft(t, name, config, parent);
    if !IntervalGivenEmpty(config) && Validates(d, d.id.None?) {
      match FindByName(t, name)
      case None =>
        var saved := Stamp(d.(id := Some(|t|)), now, true);
        var u := t + [saved];
        forall j, k | 0 <= j < |u| && 0 <= k < |u| && NameAt(u, j) == NameAt(u, k) ensures j == k {
          if j < |t| && k < |t| {
            assert NameAt(t, j) == NameAt(t, k);
          }
        }
        assert UniqueNames(u);
      case Some(r) =>
        FoundIsStored(t, name);
        var i := r.id.value;
        var saved := Stamp(d, now, false);
        var u := t[i := saved];
        forall j, k | 0 <= j < |u| && 0 <= k < |u| && NameAt(u, j) == NameAt(u, k) ensures j == k {
          assert NameAt(u, j) == NameAt(t, j) && NameAt(u, k) == NameAt(t, k);
        }
        assert UniqueNames(u);
    }
  }

  /** `add('')` is refused by validation (a stored record always has a
      name, so an empty one is never found). */
  lemma AddEmptyNameFails(t: Table, config: Config, parent: Option<Option<Id>>, now: int)
    requires StoreValid(t) && !IntervalGivenEmpty(config)
    ensures AddSpec(t, "", config, parent, now) == Failure(CouldNotSave(""))
  {
    var d := Draft(t, "", config, parent);
    assert FindByName(t, "").None?;
    assert Lookup(d.config, "interval") == if "interval" in config then config["interval"] else Duration(600);
    assert !Validates(d, true);
  }

  /** `add` of a new, non-empty name with a usable interval succeeds when
      the parent, if any, is a stored record. */
  lemma AddNewSucceeds(t: Table, name: string, config: Config, parent: Option<Option<Id>>, now: int)
    requires StoreValid(t) && name != "" && !IntervalGivenEmpty(config)
    requires forall k :: 0 <= k < |t| ==> t[k].name != name
    requires parent.None? || parent.value.None? || parent.value.value < |t|
    ensures AddSpec(t, name, config, parent, now).Success?
  {
    var d := Draft(t, name, config, parent);
    assert FindByName(t, name).None?;
    assert "interval" in d.config;
    assert Validates(d, true);
    var saved := Stamp(d.(id := Some(|t|)), now, true);
    var u := t + [saved];
    assert Links(u) == Links(t) + [saved.parent];
    AppendLeafAcyclic(Links(t), saved.parent);
    forall j, k | 0 <= j < |u| && 0 <= k < |u| && NameAt(u, j) == NameAt(u, k) ensures j == k {
      if j < |t| && k < |t| {
        assert NameAt(t, j) == NameAt(t, k);
      }
    }
    assert UniqueNames(u);
  }

  /** Re-adding a stored name with a usable interval succeeds when the
      parent is not given or is the record's current parent. */
  lemma AddKeepingParentSucceeds(t: Table, name: string, config: Config, parent: Option<Option<Id>>, now: int, k: nat)
    requires StoreValid(t) && k < |t| && t[k].name == name && !IntervalGivenEmpty(config)
    requires parent.None? || parent.value == t[k].parent
    ensures AddSpec(t, name, config, parent, now).Success?
  {
    FoundByName(t, name, k);
    var d := Draft(t, name, config, parent);
    assert d.id == Some(k) && d.parent == t[k].parent;
    assert "interval" in d.config;
    assert Validates(d, false);
    var saved := Stamp(d, now, false);
    var u := t[k := saved];
    assert Links(u) == Links(t);
    forall j, i | 0 <= j < |u| && 0 <= i < |u| && NameAt(u, j) == NameAt(u, i) ensures j == i {
      assert NameAt(u, j) == NameAt(t, j) && NameAt(u, i) == NameAt(t, i);
    }
    assert UniqueNames(u);
  }

  /** Re-adding a stored name below a record of its own subtree (itself
      included) is refused: the tree would get a cycle. */
  lemma AddBelowOwnSubtreeFails(t: Table, name: string, config: Config, now: int, k: nat, p: nat)
    requires StoreValid(t) && k < |t| && t[k].name == name && !IntervalGivenEmpty(config)
    requires p < |t| && Descends(Links(t), p, k)
    ensures AddSpec(t, name, config, Some(Some(p)), now) == Failure(ParentIsDescendant)
  {
    FoundByName(t, name, k);
    var d := Draft(t, name, config, Some(Some(p)));
    assert d.id == Some(k);
    assert "interval" in d.config;
    assert Validates(d, false);
    var saved := Stamp(d, now, false);
    var u := t[k := saved];
    assert Links(u) == Links(t)[k := Some(p)];
    RelinkBelowItselfCycles(Links(t), k, p);
  }

  // ---------------------------------------------------------------------
  // resetAll

  /** Rows read from the table are current snapshots of their records. */
  predicate Current(t: Table, rows: seq<Row>)
  {
    forall i :: 0 <= i < |rows| ==> Matches(t, rows[i]) && t[rows[i].id.value] == rows[i]
  }

  /** Resetting current rows sets exactly those records back to initial,
      stamped now, and leaves every other record as it was. */
  lemma {:induction false} ResetEachTable(t: Table, rows: seq<Row>, now: int)
    requires IdsAreIndices(t) && Current(t, rows)
    ensures var res := ResetEach(t, rows, now);
      && |res.table| == |t|
      && forall k :: 0 <= k < |t| ==>
           res.table[k] == if t[k] in rows then t[k].(status := Initial, modified := now) else t[k]
  {
    if |rows| > 0 {
      var n := |rows| - 1;
      assert Current(t, rows[..n]) by {
        forall i | 0 <= i < n ensures rows[..n][i] == rows[i] { }
      }
      ResetEachTable(t, rows[..n], now);
      assert rows == rows[..n] + [rows[n]];
      forall k | 0 <= k < |t| ensures (t[k] in rows) <==> (t[k] in rows[..n] || k == rows[n].id.value) {
        assert t[k].id == Some(k);
      }
    }
  }

  /** Resetting current rows yields each of them, reset, in turn. */
  lemma {:induction false} ResetEachYields(t: Table, rows: seq<Row>, now: int)
    requires Current(t, rows)
    ensures var res := ResetEach(t, rows, now);
      && |res.yielded| == |rows|
      && forall i :: 0 <= i < |rows| ==> res.yielded[i] == rows[i].(status := Initial, modified := now)
  {
    if |rows| > 0 {
      var n := |rows| - 1;
      assert Current(t, rows[..n]) by {
        forall i | 0 <= i < n ensures rows[..n][i] == rows[i] { }
      }
      ResetEachYields(t, rows[..n], now);
    }
  }

  /** `resetAll` resets exactly the roots: every record without a parent
      is initial and stamped now, every other record is untouched, and one
      reset record is yielded per root. */
  lemma ResetAllResetsRoots(t: Table, now: int)
    requires StoreValid(t)
    ensures var roots := Children(t, None);
      var res := ResetEach(t, roots, now);
      && StoreValid(res.table) && |res.table| == |t|
      && (forall k :: 0 <= k < |t| ==>
            res.table[k] == if t[k].parent.None? then t[k].(status := Initial, modified := now) else t[k])
      && |res.yielded| == |roots|
      && forall i :: 0 <= i < |roots| ==> res.yielded[i].parent.None? && res.yielded[i].status == Initial
  {
    var roots := Children(t, None);
    ResetEachTable(t, roots, now);
    ResetEachYields(t, roots, now);
    forall k | 0 <= k < |t| ensures t[k] in roots <==> t[k].parent.None? {
      assert ParentAt(t, k) == t[k].parent;
    }
    SameShapeKeepsValid(t, ResetEach(t, roots, now).table);
  }

  // ---------------------------------------------------------------------
  // getAsKeyValue

  /** A name maps to the content of the last record with that name. */
  lemma {:induction false} LastOfNameWins(rows: seq<Row>, i: nat)
    requires i < |rows| && forall j :: i < j < |rows| ==> rows[j].name != rows[i].name
    ensures AsKeyValue(rows)[rows[i].name] == rows[i].content
  {
    var n := |rows| - 1;
    if i < n {
      assert rows[..n][i] == rows[i];
      LastOfNameWins(rows[..n], i);
    }
  }

  /** For the records `getMultiple` finds in a store with unique names,
      `getAsKeyValue` maps each requested name that is stored to its
      record's content. */
  lemma AsKeyValueOfStored(t: Table, names: seq<string>)
    requires StoreValid(t)
    ensures var m := AsKeyValue(Named(t, names));
      forall k :: 0 <= k < |t| && t[k].name in names ==> t[k].name in m && m[t[k].name] == t[k].content
  {
    var rows := Named(t, names);
    forall k | 0 <= k < |t| && t[k].name in names
      ensures t[k].name in AsKeyValue(rows) && AsKeyValue(rows)[t[k].name] == t[k].content
    {
      assert NameAt(t, k) in names;
      var i :| 0 <= i < |rows| && rows[i] == t[k];
      var last := LastWithName(rows, i);
      var j :| 0 <= j < |t| && t[j] == rows[last];
      assert NameAt(t, j) == NameAt(t, k);
      LastOfNameWins(rows, last);
    }
  }

  /** `getAsKeyValue` over the records `getMultiple` finds holds no name
      that was not requested or is not stored. */
  lemma AsKeyValueOnlyStored(t: Table, names: seq<string>)
    ensures forall n :: n in AsKeyValue(Named(t, names)) ==>
      n in names && exists k :: 0 <= k < |t| && t[k].name == n
  {
    var rows := Named(t, names);
    forall n | n in AsKeyValue(rows) ensures n in names && exists k :: 0 <= k < |t| && t[k].name == n {
      var i :| 0 <= i < |rows| && rows[i].name == n;
      var k :| 0 <= k < |t| && t[k] == rows[i];
    }
  }

  /** The index of the last row with the name of row `i`. */
  ghost function LastWithName(rows: seq<Row>, i: nat): (j: nat)
    requires i < |rows|
    ensures i <= j < |rows| && rows[j].name == rows[i].name
    ensures forall l :: j < l < |rows| ==> rows[l].name != rows[i].name
    decreases |rows| - i
  {
    var later := set l | i < l < |rows| && rows[l].name == rows[i].name;
    if later == {} then
      assert forall l :: i < l < |rows| && rows[l].name == rows[i].name ==> l in later;
      i
    else
      var l :| l in later;
      LastWithName(rows, l)
  }
}
