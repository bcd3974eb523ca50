# cake-variable-cache, modelled in Dafny

The plugin keeps *cached variables*. A cached variable is a named record
whose `content` is the result of a configured callback. Records form a
forest through `parent_id`: a record's dependents are recomputed after it.

This project models the plugin's engine and proves what it promises:

- **Records** (`CachedVariable`). A record has one of five execution
  statuses (`complete`, `failed`, `ongoing`, `pending`, `initial`).
  - The skippable statuses are failed, pending and ongoing.
  - The staleness rule `requiresExecution` decides when a record needs a run.
  - `execute()` calls the record's callback with its name followed by its
    configured arguments.
- **The store** (`DatabaseCacheProvider`) is an in-memory table: row `k` is
  the record with id `k`. Saving goes through the table's rules
  (`CachedVariablesTable`):
  - validation
  - the Timestamp behaviour
  - the foreign key and the Tree behaviour's refusal of cycles
  - the unique index on `name`
- **The engine** (`CachedVariableUtility`):
  - `add` upserts a record by name.
  - `queue` walks the forest from the roots. Skippable records are skipped.
    A record that needs a run is handed to the dispatch callback and set to
    pending when the callback accepts it. Any other record's dependents are
    walked.
  - `execute` runs a record, then its whole subtree, or marks the record
    failed.
  - `reset` and `resetAll` set records back to initial.
  - `get`, `getMultiple` and `getAsKeyValue` read records.
- **The queue job** (`QueuesadillaCallbacks::executeJob`) executes the named
  record and reports whether no yielded record failed.
- **The `update` shell command** (`CachedVariablesShell::_update`) walks a
  nested configuration and adds every entry parent first.

Records the engine changes in place are objects of `class Variable`. The
store is `class Store` over a `seq<Row>` table. Each operation is a method
proved equal to a function over the table: `AddSpec`, `QueueAll`, `Run`,
`ResetEach` and `LevelWalk`. The modules `UtilityProperties`,
`QueueProperties`, `ExecuteProperties` and the lemmas of
`CachedVariablesShell` prove what those functions promise.

Generators become the sequence of values they yield, in yield order.

Some inputs become parameters:

- the current time: an integer `now`
- the computation behind `config.callback`: `Computation`, an oracle
  returning a value or a failure
- the configured queue callback: `Dispatch`, `None` when it is not callable

Modelling choices that follow the code where a description of the plugin
could be read otherwise:

- `queue` calls the dispatch callback first. Only when the callback returns
  true is the record set to pending and saved. A rejected record is not
  written at all.
- `_update` passes no parent to the top-level entries. `add` without a
  parent keeps an existing record's `parent_id`. So the `update` command
  does not detach a record that already has a parent.
- A status outside the five (such as the migration's column default
  `'execution_ongoing'`) is neither skippable nor stale. `queue` descends
  past it, but such a record fails validation when saved.
- `CachedVariablesShell.php` does not declare strict types. A list entry's
  integer key therefore reaches `add` as its decimal string (`IndexName`).

## Model

| member | source | states |
|---|---|---|
| `CachedVariable.RecognisedStatuses` | src/Model/Entity/CachedVariable.php:47-56 | The statuses `typeDescriptions` knows are exactly complete, failed, ongoing, pending and initial: five of them. |
| `CachedVariable.TypeDescriptions` | src/Model/Entity/CachedVariable.php:47-56 | The recognised statuses, each with its translation key: complete, failed, ongoing, pending and initial. `RecognisedStatuses` proves there are exactly these five keys. |
| `CachedVariable.SkippableStatuses` | src/Model/Entity/CachedVariable.php:63-70 | The statuses the queue pass skips: failed, pending and ongoing. |
| `CachedVariable.IsSkippable` | src/Lib/CachedVariableUtility.php:84-86 | A status is skipped iff it is a key of the skippable type map. |
| `CachedVariable.IntervalSeconds` | src/Model/Entity/CachedVariable.php:81 | The configured `interval`, in seconds. A value that is not a duration counts as 0 (see Left out). |
| `CachedVariable.WasWithinLast` | src/Model/Entity/CachedVariable.php:81 | `wasWithinLast`: the instant lies between `now - interval` and `now`, both ends included. |
| `CachedVariable.RequiresExecution` | src/Model/Entity/CachedVariable.php:78-89 | A complete record needs a run iff `modified` is not within the last interval. An initial one always needs one. Any other status never does. `QueueSplitIsPartition` and `UnknownStatusIsDescended` prove what follows from this. |
| `CachedVariable.ConfiguredArgs` | src/Model/Entity/CachedVariable.php:105-109 | No arguments when `args` is unset or null, the list when it is a list. Any other value cannot be spread and throws. |
| `CachedVariable.Evaluate` | src/Model/Entity/CachedVariable.php:97-111 | An uncallable callback throws "Not callable". Otherwise the callback is called with the name followed by the arguments, and its value or its throw is the result. `EvaluateByShape` proves it reads only the name and the configuration. |
| `CachedVariable.QueueSplitIsPartition` | src/Model/Entity/CachedVariable.php:63-89 | For a recognised status, skip / dispatch-when-stale / descend is exhaustive and disjoint. A skippable record never requires execution. The non-skippable statuses are exactly initial and complete. Initial always requires execution. Complete requires it iff `modified` is not within the last interval. |
| `CachedVariable.UnknownStatusIsDescended` | src/Model/Entity/CachedVariable.php:78-88 | A status outside the five is neither skippable nor requires execution. |
| `CachedVariable.Variable.constructor` | src/Lib/CachedVariableUtility.php:52 | `new CachedVariable()` has no id, no parent, an empty name, null content, an empty status and an empty config. |
| `CachedVariable.Variable.Execute` | src/Model/Entity/CachedVariable.php:97-116 | An uncallable callback, unspreadable args or a failing computation is an error and changes nothing. Otherwise the callback gets the name followed by `config.args` (none when unset). Its value becomes `content`, no other field changes, and the same object is returned. |
| `CachedVariablesTable.Stamp` | src/Model/Table/CachedVariablesTable.php:39 | A save sets `modified` to now, and `created` too for a new record. No other field changes. |
| `CachedVariablesTable.Validates` | src/Model/Table/CachedVariablesTable.php:46-67 | `id` may be missing only when the record is created. `name` and `config` are non-empty. The status is non-empty and one of the five. `content` may be anything. `ValidationOnStatus` states the status rule as an iff. |
| `CachedVariablesTable.ValidationOnStatus` | src/Model/Table/CachedVariablesTable.php:60-63 | A record with a name, a config and (unless new) an id validates iff its status is one of the five. |
| `DatabaseCacheProvider.FindByName` | src/Lib/Engine/DatabaseCacheProvider.php:25-32 | The row found is stored and carries that name. None means no stored row has that name. |
| `DatabaseCacheProvider.FoundByName` | src/Lib/Engine/DatabaseCacheProvider.php:25-32 | In a valid store, the row stored under a name is the one found by that name. |
| `DatabaseCacheProvider.FoundIsStored` | src/Lib/Engine/DatabaseCacheProvider.php:25-32 | In a valid store, the row found by name is the row stored under its own id. |
| `DatabaseCacheProvider.Named` | src/Lib/Engine/DatabaseCacheProvider.php:37-44 | Every row returned is stored and has a requested name. Every stored row with a requested name is returned. |
| `DatabaseCacheProvider.Children` | src/Lib/Engine/DatabaseCacheProvider.php:88-106 | Every row returned is stored and has the given parent link. Every stored row with that parent link (none: a root) is returned. |
| `DatabaseCacheProvider.SelectIncreases` | src/Lib/Engine/DatabaseCacheProvider.php:88-106 | A query lists ids in increasing order, so no record twice. |
| `DatabaseCacheProvider.ChildrenAreDistinct` | src/Lib/Engine/DatabaseCacheProvider.php:99-106 | No record is listed twice among the children of a parent. |
| `DatabaseCacheProvider.Save` | src/Lib/Engine/DatabaseCacheProvider.php:74-83 | `updateVariable`: an invalid record, or an id with no row, throws "Could not save". Otherwise the record is stamped. A new one gets the next id and is appended, an existing one replaces its row. A dangling parent, a cycle or a second record of the same name is refused. `SaveKeepsValid` and `SaveLoaded` prove what a save keeps. |
| `DatabaseCacheProvider.SaveKeepsValid` | src/Lib/Engine/DatabaseCacheProvider.php:74-83 | A successful save keeps the store valid: ids are positions, the forest is acyclic, names are unique. The saved record is stamped. A new record gets the next id and is appended. An existing one replaces its own row, and no other row changes. |
| `DatabaseCacheProvider.SaveLoaded` | src/Lib/Engine/DatabaseCacheProvider.php:74-83 | Saving a loaded record with a recognised status always succeeds. It writes the record, stamped now, into its own row and changes no other row. |
| `DatabaseCacheProvider.ProviderAdd` | src/Lib/Engine/DatabaseCacheProvider.php:49-69 | An empty `interval` throws "No interval given" before the table is read. Otherwise the record is saved, taking the id of the stored record of the same name when there is one. `UtilityProperties.AddNoIntervalExactly` proves the refusal is exact. |
| `DatabaseCacheProvider.Hydrate` | src/Lib/Engine/DatabaseCacheProvider.php:37-44 | One fresh entity per row, in order, with that row's fields. Entities are pairwise distinct. |
| `DatabaseCacheProvider.Store.GetVariable` | src/Lib/Engine/DatabaseCacheProvider.php:25-32 | Null when no record has the name, otherwise a fresh entity holding that record. |
| `DatabaseCacheProvider.Store.GetVariables` | src/Lib/Engine/DatabaseCacheProvider.php:37-44 | An empty list of names throws, because the query builder refuses `IN` over no values. Otherwise fresh entities for exactly the stored records whose name is requested. Missing names are absent. |
| `DatabaseCacheProvider.Store.UpdateVariable` | src/Lib/Engine/DatabaseCacheProvider.php:74-83 | On a failed save it throws and changes neither the table nor the entity. On success the table is the saved table, the entity carries its id and timestamps, and the same entity is returned. |
| `DatabaseCacheProvider.Store.Add` | src/Lib/Engine/DatabaseCacheProvider.php:49-69 | An empty interval throws before the table is read. Otherwise the record replaces the same-name stored record, or is inserted, and is saved. On failure the table is unchanged. |
| `DatabaseCacheProvider.Store.GetMainVariables` | src/Lib/Engine/DatabaseCacheProvider.php:88-94 | Exactly the records with no parent (see `Children`). |
| `DatabaseCacheProvider.Store.GetDependentVariables` | src/Lib/Engine/DatabaseCacheProvider.php:99-106 | Exactly the records whose parent is the entity's id; none for an unsaved entity. |
| `Forest.AppendLeafAcyclic` | src/Model/Table/CachedVariablesTable.php:40 | Adding a record under an existing parent, or as a root, keeps the parent links a forest. |
| `Forest.RelinkBelowItselfCycles` | src/Model/Table/CachedVariablesTable.php:40 | Re-linking a record below a record of its own subtree makes a cycle. |
| `Forest.SubtreesAreDisjoint` | src/Model/Table/CachedVariablesTable.php:40 | The subtrees of two different siblings, or of two roots, share no record. |
| `Forest.BelowSomeChild` | src/Model/Table/CachedVariablesTable.php:40 | A record strictly below `a` lies in the subtree of some child of `a`. |
| `CachedVariableUtility.Merge` | src/Lib/CachedVariableUtility.php:46-58 | `Hash::merge(default, config)`: both sets of keys, the given config's values win, and the defaults fill the rest. |
| `CachedVariableUtility.Draft` | src/Lib/CachedVariableUtility.php:50-63 | The entity `add` hands on: the stored record of that name (a new one when there is none), named, set to initial, with null content and the merged config. Its parent link changes only when a parent is given. `AddReusesRecord` and `AddAppendsRecord` prove what is saved. |
| `CachedVariableUtility.AddSpec` | src/Lib/CachedVariableUtility.php:43-66 | `add` is the provider's `add` of the draft. `UtilityProperties` proves its outcomes. |
| `CachedVariableUtility.AddToQueue` | src/Lib/CachedVariableUtility.php:225-234 | Without a callable queue callback it throws "Queue callback not valid". Otherwise the callback's verdict on the record. `QueueOneNoCallback` and `QueueOneDispatched` prove its effect on a pass. |
| `CachedVariableUtility.QueueOne` | src/Lib/CachedVariableUtility.php:84-101 | One iteration: a skippable record is left alone. A stale one is handed to the callback and, if accepted, set to pending and saved. Any other record's dependents are walked. Only contents change, never the shape of the table. `QueueOneTable` and `QueueOneDispatched` state the whole effect. |
| `CachedVariableUtility.QueueAll` | src/Lib/CachedVariableUtility.php:83-102 | The iterations over a result set in turn, stopping at the first throw. The shape of the table is kept. `QueueAllTable` and `QueueAllDispatched` state the whole effect. |
| `CachedVariableUtility.Run` | src/Lib/CachedVariableUtility.php:159-181 | `execute`: the record is saved ongoing and computed. On failure it is saved failed with null content and nothing else runs. On success it is saved complete with the value, then its dependents are read and executed. The shape of the table is kept. `RunTable` and `RunReportsFailureExactly` state the whole effect. |
| `CachedVariableUtility.RunAll` | src/Lib/CachedVariableUtility.php:170-174 | The dependents executed in turn, keeping the shape of the table. `RunAllTable` states the whole effect. |
| `CachedVariableUtility.ResetEach` | src/Lib/CachedVariableUtility.php:131-138 | `reset` of each row in turn, keeping the shape of the table. `ResetEachTable` and `ResetEachYields` state the effect. |
| `CachedVariableUtility.AsKeyValue` | src/Lib/CachedVariableUtility.php:211-216 | The keys are exactly the names of the records given. |
| `CachedVariableUtility.AbortStops` | src/Lib/CachedVariableUtility.php:225-233 | Once `_addToQueue` has thrown, the pass stays stopped: later records are not looked at. |
| `CachedVariableUtility.RunFails` | src/Lib/CachedVariableUtility.php:175-180 | When the computation fails, `execute` yields the ongoing record, then the record failed with null content. Nothing else is yielded. |
| `CachedVariableUtility.RunSucceeds` | src/Lib/CachedVariableUtility.php:161-174 | When the computation succeeds, `execute` yields the ongoing record, then the record complete with the computed content, then the executions of its dependents read after that save. |
| `CachedVariableUtility.Add` | src/Lib/CachedVariableUtility.php:43-66 | The store and the returned entity are what `AddSpec` gives. On failure the table is unchanged. |
| `CachedVariableUtility.Prepare` | src/Lib/CachedVariableUtility.php:50-63 | The entity is the stored record of that name (or a new one). It is set to the name, initial, null content and the merged config. Its parent link is set only when a parent is given. |
| `CachedVariableUtility.Get` | src/Lib/CachedVariableUtility.php:189-192 | Null when no record has the name, otherwise a fresh entity holding that record. |
| `CachedVariableUtility.GetMultiple` | src/Lib/CachedVariableUtility.php:200-203 | An empty list of names throws, as the provider does. Otherwise fresh entities for exactly the stored records whose name is requested. |
| `CachedVariableUtility.Update` | src/Lib/CachedVariableUtility.php:260-263 | Persisting a loaded entity with a recognised status succeeds. It writes the entity's row, stamped now, and changes no other row. |
| `CachedVariableUtility.Reset` | src/Lib/CachedVariableUtility.php:146-150 | The entity is set to initial from any status and persisted. The same entity is returned. |
| `CachedVariableUtility.ResetAll` | src/Lib/CachedVariableUtility.php:131-138 | The table and the yielded records are those of resetting each root in turn (`ResetEach`). |
| `CachedVariableUtility.Execute` | src/Lib/CachedVariableUtility.php:159-181 | The table and the trace are those of `Run` on the record. The caller's entity ends as the second record yielded (complete or failed). |
| `CachedVariableUtility.MarkComplete` | src/Lib/CachedVariableUtility.php:167-174 | The record is complete and saved, and the rest of the trace is the execution of its dependents in the table after that save. |
| `CachedVariableUtility.MarkFailed` | src/Lib/CachedVariableUtility.php:175-180 | The record has null content, status failed, is stamped and is saved into its row. |
| `CachedVariableUtility.ExecuteDependents` | src/Lib/CachedVariableUtility.php:170-174 | The executions, in turn, of the records whose parent is the entity. |
| `CachedVariableUtility.ExecuteEach` | src/Lib/CachedVariableUtility.php:172-174 | The loop over the dependents equals `RunAll` over them. |
| `CachedVariableUtility.ExecuteRow` | src/Lib/CachedVariableUtility.php:172-173 | A dependent hydrated from its row and executed equals `Run` on that row. |
| `CachedVariableUtility.Queue` | src/Lib/CachedVariableUtility.php:77-81 | `queue()` with no argument is the pass over the roots (`QueueAll`). |
| `CachedVariableUtility.QueueEach` | src/Lib/CachedVariableUtility.php:83-102 | The loop over a result set equals `QueueAll`, including stopping at the first throw. |
| `CachedVariableUtility.QueueVariable` | src/Lib/CachedVariableUtility.php:84-101 | One record: skipped, dispatched (pending and saved only when accepted), or its dependents walked; equals `QueueOne`. |
| `UtilityProperties.AddNoIntervalExactly` | src/Lib/Engine/DatabaseCacheProvider.php:51-53 | `add` fails with "No interval given" iff the given config sets an empty interval. The default one is never empty. |
| `UtilityProperties.AddReusesRecord` | src/Lib/CachedVariableUtility.php:50-66 | Re-adding a stored name rewrites that record in place: same id and created time, initial, null content, merged config, the given parent or the old one. No other row changes and `get` finds it. |
| `UtilityProperties.AddAppendsRecord` | src/Lib/CachedVariableUtility.php:50-66 | Adding a new name appends one record with the next id, created and modified now, initial, null content, merged config and the given parent (or none). `get` finds it. |
| `UtilityProperties.AddStores` | src/Lib/CachedVariableUtility.php:43-66 | After a successful `add`, the store is valid and `get(name)` returns the saved record: initial, null content, merged config, and the given parent when one is given. |
| `UtilityProperties.AddNeverDuplicatesName` | src/Lib/Engine/DatabaseCacheProvider.php:56-68 | `add` never runs into the unique name index: a stored name is reused, never duplicated. |
| `UtilityProperties.AddEmptyNameFails` | src/Model/Table/CachedVariablesTable.php:52-54 | `add('')` fails validation ("Could not save"). |
| `UtilityProperties.AddNewSucceeds` | src/Lib/CachedVariableUtility.php:43-66 | Adding a new non-empty name with a usable interval succeeds when the parent, if any, is stored. |
| `UtilityProperties.AddKeepingParentSucceeds` | src/Lib/CachedVariableUtility.php:61-63 | Re-adding a stored name succeeds when no parent is given or the parent is unchanged. |
| `UtilityProperties.AddBelowOwnSubtreeFails` | src/Lib/Engine/DatabaseCacheProvider.php:76-82 | Re-adding a stored name below a record of its own subtree is refused, because the tree would get a cycle. |
| `UtilityProperties.ResetEachTable` | src/Lib/CachedVariableUtility.php:146-150 | Resetting current rows sets exactly those records to initial, stamped now, and leaves every other record as it was. |
| `UtilityProperties.ResetEachYields` | src/Lib/CachedVariableUtility.php:135-137 | One record is yielded per row reset, in order, each set to initial. |
| `UtilityProperties.ResetAllResetsRoots` | src/Lib/CachedVariableUtility.php:131-138 | `resetAll` sets exactly the roots to initial, leaves every non-root untouched, keeps the store valid, and yields one initial root per root. |
| `UtilityProperties.LastOfNameWins` | src/Lib/CachedVariableUtility.php:211-216 | A name maps to the content of the last record with that name. |
| `UtilityProperties.AsKeyValueOfStored` | src/Lib/CachedVariableUtility.php:200-216 | Over what `getMultiple` finds, every requested stored name maps to its record's content. |
| `UtilityProperties.AsKeyValueOnlyStored` | src/Lib/CachedVariableUtility.php:200-216 | Over what `getMultiple` finds, no name that was not requested or is not stored appears. |
| `QueueProperties.Accepted` | src/Lib/CachedVariableUtility.php:93-96 | The records yielded are at most the records dispatched. |
| `QueueProperties.PassesThrough` | src/Lib/CachedVariableUtility.php:84-101 | The pass descends through a record iff it is neither skippable nor stale. |
| `QueueProperties.Due` | src/Lib/CachedVariableUtility.php:84-96 | The pass hands a record it reaches to the callback iff it is not skippable and needs a run. |
| `QueueProperties.ReachedFrom` | src/Lib/CachedVariableUtility.php:83-101 | A pass from `a` reaches `k` iff `k` is `a`, or the pass reaches the parent of `k` and descends through it. |
| `QueueProperties.Dispatchable` | src/Lib/CachedVariableUtility.php:77-103 | `queue()` dispatches a record iff the pass descends through all its ancestors and the record is due. `QueuePass` proves it. |
| `QueueProperties.ReachedPassesStart` | src/Lib/CachedVariableUtility.php:84-101 | A pass reaches a record below its start only by descending through the start: the start is neither skippable nor stale. |
| `QueueProperties.ReachedIsLocal` | src/Lib/CachedVariableUtility.php:97-101 | What a pass from a record reaches depends only on that record's subtree. |
| `QueueProperties.QueueOneTable` | src/Lib/CachedVariableUtility.php:84-101 | A pass from one record with a callable callback never throws. It sets exactly the reached, stale, accepted records to pending (stamped now) and leaves every other record as it was. |
| `QueueProperties.DueBelowChildren` | src/Lib/CachedVariableUtility.php:97-101 | Below a record the pass descends through, the passes over its dependents find stale exactly what the pass from the record reaches and finds stale. |
| `QueueProperties.QueueAllTable` | src/Lib/CachedVariableUtility.php:83-102 | The pass over siblings sets to pending exactly the stale records reached from them that the callback accepts. |
| `QueueProperties.QueueOneDispatched` | src/Lib/CachedVariableUtility.php:92-96 | From one record, the callback is called exactly once for each reached stale record and for nothing else. What is yielded is the accepted ones, set to pending. |
| `QueueProperties.QueueAllDispatched` | src/Lib/CachedVariableUtility.php:83-102 | Over siblings: every dispatched record is stored, reached and stale. Every such record is dispatched, none twice. The records yielded are the accepted ones. |
| `QueueProperties.LastSiblingDispatched` | src/Lib/CachedVariableUtility.php:83-102 | The pass over siblings is the pass over the earlier ones followed by the pass from the last one. It keeps every property of `QueueAllDispatched`. |
| `QueueProperties.DueBelowRoots` | src/Lib/CachedVariableUtility.php:77-81 | The passes over the roots find stale exactly the dispatchable records. |
| `QueueProperties.QueuePass` | src/Lib/CachedVariableUtility.php:77-103 | `queue()` with a callable callback never throws. It dispatches exactly the dispatchable records, each once, and sets to pending exactly those the callback accepts. It yields them and changes nothing else. |
| `QueueProperties.QueueOneNoCallback` | src/Lib/CachedVariableUtility.php:225-231 | Without a callable callback, a pass from one record changes, yields and dispatches nothing. It throws iff it reaches a stale record. |
| `QueueProperties.QueueAllNoCallback` | src/Lib/CachedVariableUtility.php:83-102 | The same over siblings: it throws iff some record reached from them is stale. |
| `QueueProperties.LastSiblingNoCallback` | src/Lib/CachedVariableUtility.php:83-102 | The step of `QueueAllNoCallback` for the last sibling. |
| `QueueProperties.QueueWithoutCallback` | src/Lib/CachedVariableUtility.php:225-231 | `queue()` without a callable callback changes, yields and dispatches nothing. It throws iff some record is dispatchable. |
| `QueueProperties.AcceptedAreDispatched` | src/Lib/CachedVariableUtility.php:93-96 | Every record yielded is a dispatched record the callback accepted, set to pending. |
| `QueueProperties.YieldedArePending` | src/Lib/CachedVariableUtility.php:93-96 | Each record yielded is stored as yielded, with status pending. |
| `QueueProperties.DispatchedAreNotPending` | src/Lib/CachedVariableUtility.php:84-86 | A pass never dispatches a pending record. |
| `QueueProperties.SecondPassSkipsPending` | src/Lib/CachedVariableUtility.php:84-86 | A second `queue()` with no execution in between dispatches none of the records the first one set to pending. |
| `QueueProperties.NoRepeatsCount` | src/Lib/CachedVariableUtility.php:83-102 | A sequence of distinct records has as many ids as records. |
| `QueueProperties.AllFreshDispatchesNothing` | tests/TestCase/Lib/CachedVariableUtilityTest.php:120-137 | Once every record is complete and within its interval, `queue()` dispatches and yields nothing and changes nothing. |
| `QueueProperties.OnlyOneDispatchable` | tests/TestCase/Lib/CachedVariableUtilityTest.php:154-195 | When every record but one is fresh and that one is stale, that one is the only dispatchable record, wherever it sits in the tree. |
| `QueueProperties.OnlyOneDue` | tests/TestCase/Lib/CachedVariableUtilityTest.php:154-195 | In that case the callback is called exactly once, with that record (the reset mid-tree node of the test). |
| `QueueProperties.DispatchedCount` | src/Lib/CachedVariableUtility.php:77-103 | The number of records dispatched is the number of dispatchable records. |
| `QueueProperties.YieldedIsAccepted` | src/Lib/CachedVariableUtility.php:93-96 | `queue()` yields exactly the accepted dispatched records, set to pending. |
| `QueueProperties.ThreeRootsOneChildValid` | tests/TestCase/Lib/CachedVariableUtilityTest.php:97-113 | The test's forest of three roots and one child is a valid store. |
| `QueueProperties.ThreeRootsOneChildDispatchable` | tests/TestCase/Lib/CachedVariableUtilityTest.php:97-118 | In that forest exactly the three roots are dispatchable. |
| `QueueProperties.YieldedCount` | src/Lib/CachedVariableUtility.php:92-96 | With a callback that accepts everything, one record is yielded per dispatchable record. |
| `QueueProperties.ThreeRootsOneChildYieldsThree` | tests/TestCase/Lib/CachedVariableUtilityTest.php:97-118 | `queue()` on that forest with an accepting callback yields three records. |
| `ExecuteProperties.EvaluateByShape` | src/Model/Entity/CachedVariable.php:99-111 | The computation sees only the record's name and configuration. Two records that agree on these end with the same status for every `now`. |
| `ExecuteProperties.Executed` | src/Lib/CachedVariableUtility.php:161-180 | The state `execute` leaves one record in: complete with the value, or failed with null content. It is stamped now either way. |
| `ExecuteProperties.SubtreeSucceeds` | src/Lib/CachedVariableUtility.php:159-174 | Every computation in the subtree of a record succeeds. |
| `ExecuteProperties.RunsFrom` | src/Lib/CachedVariableUtility.php:170-174 | `execute` started at `a` reaches `k` iff `k` is `a`, or it reaches the parent of `k` and the parent's computation succeeds, so the parent's dependents run. |
| `ExecuteProperties.ExecutedTwice` | src/Lib/CachedVariableUtility.php:161-180 | Executing a record's state twice gives what executing it once does. |
| `ExecuteProperties.ChildrenCover` | src/Lib/Engine/DatabaseCacheProvider.php:99-106 | What lies strictly below a record is exactly what lies in the subtrees of its dependents. |
| `ExecuteProperties.RunFrame` | src/Lib/CachedVariableUtility.php:159-181 | `execute` leaves every record outside the subtree of the executed one unchanged. |
| `ExecuteProperties.RunAllFrame` | src/Lib/CachedVariableUtility.php:172-174 | Executing the dependents leaves every record not strictly below the parent unchanged. |
| `ExecuteProperties.RunRecordOutcome` | src/Lib/CachedVariableUtility.php:161-180 | Whatever the computations below do, the executed record ends complete with the computed content, or failed with null content. |
| `ExecuteProperties.RunYieldsSubtree` | src/Lib/CachedVariableUtility.php:159-174 | `execute` yields at least two records. The first is the record set ongoing and the second is the same record. Every record yielded lies in its subtree. |
| `ExecuteProperties.RunAllYieldsSubtree` | src/Lib/CachedVariableUtility.php:172-174 | Executing the dependents yields only records strictly below the parent. |
| `ExecuteProperties.FailureStopsAtRecord` | src/Lib/CachedVariableUtility.php:175-180 | When the record's own computation fails, only its row changes (to failed, null content). It yields exactly two records, the last failed, and runs no dependent. |
| `ExecuteProperties.RunCompletesSubtree` | src/Lib/CachedVariableUtility.php:161-174 | When every computation in the subtree succeeds, every record of the subtree, whatever its prior status, ends complete with its computed content. No record outside changes. |
| `ExecuteProperties.RunAllCompletes` | src/Lib/CachedVariableUtility.php:172-174 | The same for the dependents of a record: exactly the records below them end complete. |
| `ExecuteProperties.RunReportsNoFailure` | src/Lib/CachedVariableUtility.php:159-174 | When every computation in the subtree succeeds, no record yielded is failed. |
| `ExecuteProperties.RunAllReportsNoFailure` | src/Lib/CachedVariableUtility.php:172-174 | The same for the dependents of a record. |
| `ExecuteProperties.RunsFromIsBelow` | src/Lib/CachedVariableUtility.php:170-174 | `execute` reaches only records in the subtree it starts from. |
| `ExecuteProperties.RunsFromByShape` | src/Lib/CachedVariableUtility.php:159-181 | Which records `execute` reaches depends only on the links, names and configurations, not on statuses or contents. |
| `ExecuteProperties.RunsFromViaChild` | src/Lib/CachedVariableUtility.php:170-174 | A record below `a` is reached only if `a` computes successfully and the record is reached from one of the dependents of `a`. |
| `ExecuteProperties.RunsExtends` | src/Lib/CachedVariableUtility.php:170-174 | If `a` computes successfully, whatever a dependent of `a` reaches, `a` reaches too. |
| `ExecuteProperties.RunsBelowChildren` | src/Lib/CachedVariableUtility.php:170-174 | For a record that computes successfully, executing its dependents reaches exactly the records strictly below it that it reaches. |
| `ExecuteProperties.RunTable` | src/Lib/CachedVariableUtility.php:159-181 | Whatever mix of outcomes occurs, a record ends executed (complete with its value, or failed with null content, stamped now) iff `execute` reaches it through ancestors whose computations all succeed. Every other record is unchanged. |
| `ExecuteProperties.RunAllTable` | src/Lib/CachedVariableUtility.php:170-174 | The same for the dependents of a record: a record ends executed iff one of them reaches it. Every other record is unchanged. |
| `ExecuteProperties.RunReportsReached` | src/Lib/CachedVariableUtility.php:159-181 | Every record `execute` reaches is yielded with the status it ends with. |
| `ExecuteProperties.RunAllReportsReached` | src/Lib/CachedVariableUtility.php:170-174 | The same for the dependents of a record. |
| `ExecuteProperties.FailureIsMet` | src/Lib/CachedVariableUtility.php:159-181 | If some record of the subtree is not reached, or its computation fails, then some reached record's computation fails. |
| `ExecuteProperties.RunReportsFailureExactly` | src/Lib/CachedVariableUtility.php:159-181 | `execute` yields no failed record iff every computation in the subtree succeeds. |
| `QueuesadillaCallbacks.ExecuteJob` | src/Lib/QueuesadillaCallbacks.php:18-35 | An unknown name is false and changes nothing. Otherwise the named record is executed with its whole subtree, and the result is true iff no yielded record is failed. |
| `QueuesadillaCallbacks.NoneReportedFailed` | src/Lib/QueuesadillaCallbacks.php:24-29 | The fold over the yielded records is true iff none of them has status failed. |
| `QueuesadillaCallbacks.UnknownJobFails` | src/Lib/QueuesadillaCallbacks.php:20-34 | A job whose name has no record returns false and changes nothing. |
| `QueuesadillaCallbacks.FailingComputationFailsJob` | src/Lib/QueuesadillaCallbacks.php:25-29 | A job whose record's computation fails returns false and leaves that record failed. |
| `QueuesadillaCallbacks.SucceedingSubtreeSucceedsJob` | src/Lib/QueuesadillaCallbacks.php:24-31 | A job whose whole subtree computes successfully returns true and leaves every record of the subtree complete. |
| `QueuesadillaCallbacks.JobSucceedsExactly` | src/Lib/QueuesadillaCallbacks.php:18-35 | A job on a stored name returns true iff every computation in that record's subtree succeeds. |
| `QueuesadillaCallbacks.JobTableReached` | src/Lib/QueuesadillaCallbacks.php:21-22 | After a job, a record of the store is executed iff it is reached from the named record through succeeding ancestors. Every other record is unchanged. |
| `QueuesadillaCallbacks.FailingDependentFailsJob` | src/Lib/QueuesadillaCallbacks.php:24-31 | If a reached dependent's computation fails, the job returns false and that dependent ends failed with null content. |
| `Values.Get` | src/Shell/CachedVariablesShell.php:125-126 | `isset($config['variables'])`: a value is found only when it is there and not null. None only when the key is absent or null. |
| `Values.Remove` | src/Shell/CachedVariablesShell.php:128 | `unset`: no entry under the key remains, and every other entry is kept. |
| `Values.ListEntries` | src/Shell/CachedVariablesShell.php:123 | A list is iterated as its items under the keys 0, 1, ..., in decimal. |
| `Values.GetAgreesWithConfig` | src/Shell/CachedVariablesShell.php:125-129 | `isset` on the entries agrees with the configuration read from them. |
| `Values.IsEmpty` | src/Lib/Engine/DatabaseCacheProvider.php:51 | PHP's `empty()`: null, false, 0, "", "0" and the empty array. |
| `Values.IndexName` | src/Shell/CachedVariablesShell.php:123 | The key of the `i`-th list item as a non-empty string of decimal digits. |
| `Values.ToConfig` | src/Shell/CachedVariablesShell.php:124-131 | An associative array read as a config: exactly its keys, each with the value of one of its entries. |
| `CachedVariablesShell.Entries` | src/Shell/CachedVariablesShell.php:113 | An `array` parameter accepts exactly lists and associative arrays, with their entries in order. |
| `CachedVariablesShell.Split` | src/Shell/CachedVariablesShell.php:124-129 | An entry's value must be an array. The configuration passed on has no `variables` set, and nested entries are split off only when `variables` is set. |
| `CachedVariablesShell.Plan` | src/Shell/CachedVariablesShell.php:113-135 | The `add` calls of `update`, in order: each entry's own, then its `variables`' with it as parent. None when some configuration is not an array. |
| `CachedVariablesShell.LevelWalk` | src/Shell/CachedVariablesShell.php:113-135 | `_update` on the store: nothing for an empty array. Otherwise the parent is looked up by name (a name not found passes none) and the entries are walked. |
| `CachedVariablesShell.EntriesWalk` | src/Shell/CachedVariablesShell.php:123-134 | The entries from the `i`-th on, each added with the same parent, stopping at the first error. |
| `CachedVariablesShell.EntryWalk` | src/Shell/CachedVariablesShell.php:124-133 | One entry: its `variables` are split off, then it is added. A configuration that is not an array is an error. |
| `CachedVariablesShell.AddWalk` | src/Shell/CachedVariablesShell.php:131-133 | The record `add` returns is yielded, then the nested entries are walked with this entry's name as parent. A failed `add` ends the walk. |
| `CachedVariablesShell.LevelPlanExtends` | src/Shell/CachedVariablesShell.php:123-134 | The plan of `add` calls only grows. |
| `CachedVariablesShell.EntriesPlanExtends` | src/Shell/CachedVariablesShell.php:123-134 | The plan of the remaining entries only grows. |
| `CachedVariablesShell.EntryPlanExtends` | src/Shell/CachedVariablesShell.php:131-133 | An entry's own `add` comes before its nested ones. |
| `CachedVariablesShell.LevelFollows` | src/Shell/CachedVariablesShell.php:113-135 | A level's walk follows its plan. The parent, looked up by name, is the record of the enclosing entry. |
| `CachedVariablesShell.EntriesFollow` | src/Shell/CachedVariablesShell.php:123-134 | The walk over the entries from the `i`-th on follows the plan. |
| `CachedVariablesShell.EntryStops` | src/Shell/CachedVariablesShell.php:123-134 | An entry whose walk failed ends the walk over its level within the plan. |
| `CachedVariablesShell.RestFollows` | src/Shell/CachedVariablesShell.php:123-134 | An entry that completed is followed by the walk over the next entries. |
| `CachedVariablesShell.EntryFollows` | src/Shell/CachedVariablesShell.php:124-133 | One entry's walk follows its plan. |
| `CachedVariablesShell.AddFollows` | src/Shell/CachedVariablesShell.php:131-133 | The record `add` yields agrees with its step. Nested entries then follow with it as parent. |
| `CachedVariablesShell.LevelRefused` | src/Shell/CachedVariablesShell.php:113-135 | A level containing a configuration that is not an array ends with an error. |
| `CachedVariablesShell.EntriesRefused` | src/Shell/CachedVariablesShell.php:123-134 | The same from the `i`-th entry on. |
| `CachedVariablesShell.EntryRefused` | src/Shell/CachedVariablesShell.php:124-133 | The same for one entry. |
| `CachedVariablesShell.AddRefused` | src/Shell/CachedVariablesShell.php:131-133 | The same below an entry's `add`. |
| `CachedVariablesShell.RefusedConfigFails` | src/Shell/CachedVariablesShell.php:113-135 | `update` ends with an error whenever some configuration in it is not an array. |
| `CachedVariablesShell.UpdateFollowsPlan` | src/Shell/CachedVariablesShell.php:113-135 | On a configuration whose every level is an array, the store stays valid. The records yielded follow the plan of `add` calls, in pre-order (each entry before its `variables`), as far as the walk goes. Each record has its entry's name, the merged config minus `variables`, status initial and no content. A nested entry's record has the enclosing entry's record as parent. The walk ends without error exactly when every planned `add` was made. |
| `CachedVariablesShell.EmptyConfigAddsNothing` | src/Shell/CachedVariablesShell.php:115-117 | Such a configuration adds nothing, without error, iff it has no entries. |
| `CachedVariablesShell.Update` | src/Shell/CachedVariablesShell.php:113-135 | `_update` changes the store and yields the records that `LevelWalk` gives. |
| `CachedVariablesShell.UpdateEntries` | src/Shell/CachedVariablesShell.php:123-134 | The `foreach` equals `EntriesWalk` from the first entry. |
| `CachedVariablesShell.UpdateAt` | src/Shell/CachedVariablesShell.php:123-134 | One iteration either ends the walk with an error or continues it with the next entry. |
| `CachedVariablesShell.UpdateEntry` | src/Shell/CachedVariablesShell.php:124-133 | One entry equals `EntryWalk`. |
| `CachedVariablesShell.AddEntry` | src/Shell/CachedVariablesShell.php:131-133 | `add`, then the nested walk with this entry's name as parent, equals `AddWalk`. |

## Left out

- Static singletons and configuration are not modelled. This covers `_getDataProvider`, `_registry`, `CacheProviderEngineRegistry` and the `Configure` reads. The store and the queue callback are explicit parameters.
- FileCacheProvider is not part of this model. The store is modelled once, as the database provider over an in-memory table.
- The computation's dynamic dispatch (`DynamicCalculationTrait`, `is_callable` on callables) is an oracle. So is the queue callback.
- Time is an integer. Parsing intervals such as `'10 Minutes'` is left out: an interval is a number of seconds (the default is 600), and anything that is not a duration counts as 0. `wasWithinLast` includes both ends of the interval.
- The Tree behaviour's nested-set columns (`lft`, `rght`, `recover()`) and the JSON column types are not modelled. Acyclic parent links are the store invariant instead.
- The table has no ORDER BY. The model returns records in id order, which is one of the orders the database may use.
- Validation is applied at every save, for new and for patched records alike, together with the foreign key, the Tree behaviour's cycle check and the unique name index. The ORM applies `validationDefault` when it marshals data, so `add('')` of a brand-new entity may slip past it in the code. In the model it is refused.
- Each way a save can fail has its own error value (`CouldNotSave`, `ParentMissing`, `ParentIsDescendant`, `DuplicateName`). In the code they are all exceptions.
- A save failing inside `execute` or `queue` is not modelled: `SaveLoaded` proves that the engine's own saves of loaded records always succeed.
- Generators are eager sequences. Laziness is not modelled: a consumer that stops early, or the interleaving of yields with later reads. The test at tests/TestCase/Lib/CachedVariableUtilityTest.php:139-152 never drains its generators.
- Entity identity across yields is not modelled. Each record of a result set is hydrated as a fresh object when the loop reaches it, and a snapshot of its fields is yielded.
- `execute(null)` is not an operation of the model. It occurs only in `executeJob` for an unknown name, where its TypeError becomes `false`, and that is modelled there.
- Concurrency between a scheduler and workers is not modelled. The plugin has no locking.
- The shell's other commands are I/O and are left out: `main` (an endless loop with `sleep`), the printing in `update` and `reset`, and the queue push transport.
- UtilityProperties.AddBelowOwnSubtreeFails: only the refusal direction of re-parenting is proved. A successful re-parent outside the record's own subtree is not stated.
