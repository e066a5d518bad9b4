# CakeDb in Dafny

This project models the core of CakeDb, a typed layer over the `redb` embedded key-value
engine. One `CakeDb` handle (`Database.CakeDb`) holds two pieces of state:

- `store`: the committed contents of the database. It has named plain tables, each an
  ordered map from keys to values, and named multimap tables, each a map from keys to
  non-empty sets of values.
- `savepoints`: the in-memory savepoint index. It maps savepoint keys to snapshots of the
  whole store.

The handle's methods follow the crate's public operations one by one:

- savepoint creation, loading and clearing (`src/save.rs`);
- single-key writes (`src/generic/writes.rs`);
- batch writes (`src/generic/batch_writes.rs`);
- multimap writes (`src/generic/multimap_writes.rs`);
- reads of plain and multimap tables (`src/generic/reads.rs`,
  `src/generic/multimap_reads.rs`);
- opening a table for reading (`src/generic/internal.rs`).

Each write runs one write transaction. The model keeps the table that the transaction
opened in a local variable and changes it step by step, as the source's loops do. Only the
commit assigns the result back to `store`. So every early `?` return or `return Err` leaves
the store exactly as it was. A batch that fails halfway therefore changes nothing.

Engine failures are an explicit `Fault` argument: the transaction cannot begin, a table
cannot be opened, the n-th step fails, the commit fails, or, when a missing table is opened
for reading, its creation or the re-read fails. With this argument every error path of the
write transactions and of opening a table can be stated and proved. Failures of the engine's
reads once a table is open are not covered (see "Left out").

The model is split into modules that follow the source's structure:

| module | file | what it holds |
|---|---|---|
| `Wrappers` | wrappers.dfy | `Option`, `Result`, the error kinds, the `Fault` argument |
| `Ordered` | ordered.dfy | the key order: least and greatest key, ascending enumeration of a key set |
| `Reads` | reads.dfy | the queries over one plain table, as functions, and `find_nth` as a loop |
| `Writes` | writes.dfy | what `try_add`, `insert`, `update` and `remove` do to one table |
| `Batch` | batch.dfy | the folds that `batch_insert` and `batch_update` compute |
| `Multimap` | multimap.dfy | multimap tables and the steps their writes apply |
| `Storage` | store.dfy | the store, snapshots, and what opening a table for reading does |
| `SavepointIndex` | savepoints.dfy | savepoint key allocation and invalidation after a restore |
| `Database` | cakedb.dfy | the `CakeDb` class and its methods |
| `Scenarios` | scenarios.dfy | concrete scenarios, proved about the model: three follow src/test.rs, the others the behaviours the crate's doc comments describe |

Savepoint keys can be handed out more than once. The next key is the largest key in the
index plus one (src/save.rs:22-27). After a restore drops the later savepoints, or after the
index is cleared, their keys are handed out again. `SavepointIndex.NextKeyAfterRestore` and
`Scenarios.SavepointInvalidation` show the reuse.

## Model

| member | source | states |
|---|---|---|
| `Ordered.Min` | src/generic/reads.rs:178-181 | the first key of a non-empty table is in it and below every other key |
| `Ordered.Max` | src/generic/reads.rs:193-196 | the last key of a non-empty table is in it and above every other key |
| `Ordered.Ascending` | src/generic/reads.rs:161-166 | the iteration order: every key of the table exactly once, strictly ascending |
| `Ordered.AscendingUnique` | src/generic/reads.rs:144-149 | two strictly ascending listings of the same keys are equal, so a key list in ascending order is unique |
| `Reads.Lookup` | src/generic/reads.rs:24 | `get` is Some exactly when the key is in the table, and then holds the key's value |
| `Reads.Find` | src/generic/reads.rs:42-55 | a pair that `find` returns is an entry of the table that satisfies the predicate |
| `Reads.FindIsLeastMatch` | src/generic/reads.rs:51-54 | `find` returns None exactly when no entry matches; otherwise no smaller key matches |
| `Reads.RFind` | src/generic/reads.rs:58-71 | a pair that `rfind` returns is an entry of the table that satisfies the predicate |
| `Reads.RFindIsGreatestMatch` | src/generic/reads.rs:67-70 | `rfind` returns None exactly when no entry matches; otherwise no larger key matches |
| `Reads.NthMatch` | src/generic/reads.rs:88-97 | the counting loop returns the match at zero-based position n in ascending key order, and None exactly when there are at most n matches |
| `Reads.FilterPartitions` | src/generic/reads.rs:118-132 | `filter` with a predicate and with its negation split the table into two disjoint parts whose sizes add up to the table's; kept entries keep their values |
| `Reads.Filter` | src/generic/reads.rs:127-131 | `filter` keeps exactly the entries that satisfy the predicate, with their values |
| `Reads.FilterKeys` | src/generic/reads.rs:135-150 | `filter_keys` lists exactly the matching keys, strictly ascending, and no more keys than the table has |
| `Reads.FilterKeysAreFilterSorted` | src/generic/reads.rs:144-149 | `filter_keys` is the key set of `filter`, in ascending order |
| `Reads.CountMatches` | src/generic/reads.rs:110-114 | the count of the ascending scan equals the number of keys `filter_keys` lists, and is at most the table's size |
| `Reads.CountMatchesIsFilterSize` | src/generic/reads.rs:101-115 | `count_matches` equals the size of `filter` and the length of `filter_keys` for the same predicate |
| `Reads.First` | src/generic/reads.rs:170-182 | `first` is None exactly on an empty table; otherwise it is an entry whose key is the least |
| `Reads.Last` | src/generic/reads.rs:185-197 | `last` is None exactly on an empty table; otherwise it is an entry whose key is the greatest |
| `Reads.FirstKey` | src/generic/reads.rs:200-212 | `first_key` is None exactly on an empty table; otherwise it is the least key |
| `Reads.LastKey` | src/generic/reads.rs:215-227 | `last_key` is None exactly on an empty table; otherwise it is the greatest key |
| `Reads.FirstIsFindAny` | src/generic/reads.rs:178-181 | `first` is `find` with a predicate that accepts every entry |
| `Reads.LastIsRFindAny` | src/generic/reads.rs:193-196 | `last` is `rfind` with a predicate that accepts every entry |
| `Reads.Range` | src/generic/reads.rs:239-244 | `range` holds exactly the entries whose keys lie within both bounds, with their values |
| `Reads.RangeIsSortedSlice` | src/generic/reads.rs:241 | the ascending keys of a range are the slice of the table's ascending keys that starts at the first key not below the lower bound and stops at the first key beyond the upper bound, which is what the engine's range scan yields |
| `Reads.RangeIsContiguous` | src/generic/reads.rs:241 | the keys of a range form one contiguous run of the table's ascending keys |
| `Writes.TryAddStep` | src/generic/writes.rs:29-34 | `try_add` reports true exactly when the key was absent, then stores the pair; on a present key it changes nothing; other keys are untouched |
| `Writes.InsertStep` | src/generic/writes.rs:56-61 | `insert` maps the key to the value, returns the previous value or None, adds only that key and leaves other keys untouched |
| `Writes.UpdateStep` | src/generic/writes.rs:90-103 | `update` fails with key-not-found exactly when the key is absent; otherwise it stores the edited value, returns the old one and keeps the key set |
| `Writes.RemoveStep` | src/generic/writes.rs:122-127 | `remove` deletes the key and returns its previous value; on an absent key the table is unchanged |
| `Writes.TryAddAbsentIsInsert` | src/generic/writes.rs:8-12 | on an absent key, `try_add` reports true and leaves the same table as `insert` |
| `Writes.TryAddTwice` | src/generic/writes.rs:32-34 | a second `try_add` of a key reports false and leaves the table unchanged, whatever value it carries |
| `Writes.RemoveUndoesInsert` | src/generic/writes.rs:110-131 | removing a freshly inserted key restores the table and returns the inserted value |
| `Writes.InsertIdempotent` | src/generic/writes.rs:41-45 | inserting the same pair twice leaves the table of one insert; the second returns the value |
| `Writes.UpdateIsInsertOfEdit` | src/generic/writes.rs:95-103 | on a present key, `update` leaves the table that inserting the edited value would |
| `Batch.InsertAll` | src/generic/batch_writes.rs:29-31 | the `for (key, value) in data` loop loses no key of the table and leaves every key of the batch present |
| `Batch.InsertAllLastWins` | src/generic/batch_writes.rs:29-31 | after `batch_insert`, a key of the batch holds the value of its last occurrence; every other key keeps its entry or stays absent |
| `Batch.InsertAllKeys` | src/generic/batch_writes.rs:12-14 | the keys after `batch_insert` are the old keys plus the batch's keys |
| `Batch.InsertAllUnmentioned` | src/generic/batch_writes.rs:15-31 | a key that the batch does not mention is unchanged |
| `Batch.UpdateAll` | src/generic/batch_writes.rs:54-65 | the `for key in keys` loop skips absent keys, so the key set is unchanged |
| `Batch.UpdateAllEditsPerOccurrence` | src/generic/batch_writes.rs:54-65 | each present key is edited once per occurrence in the list, each edit seeing the previous one's result |
| `Multimap.AddValue` | src/generic/multimap_writes.rs:27-34 | a multimap insert adds the value to the key's set and leaves other keys alone; no key is left with an empty set |
| `Multimap.RemoveValue` | src/generic/multimap_writes.rs:143-150 | a multimap remove takes the value out of the key's set, leaves other keys alone and drops a key left empty |
| `Multimap.AddValues` | src/generic/multimap_writes.rs:59-61 | the value loop keeps the key's old values, adds every listed value to it and leaves other keys untouched |
| `Multimap.AddValuesUnion` | src/generic/multimap_writes.rs:59-61 | inserting a list of values under a key makes its set the old set united with the list's elements |
| `Multimap.AddAll` | src/generic/multimap_writes.rs:83-87 | the nested loop removes no value, and every listed value ends up under its key |
| `Multimap.AddAllUnion` | src/generic/multimap_writes.rs:83-87 | after `multimap_batch_insert`, each key holds its old values plus every value the batch lists for it |
| `Multimap.ListedForUnnamed` | src/generic/multimap_writes.rs:68-70 | a key that the batch never names gets no values from it |
| `Multimap.AddAllKeepsNoEmptySets` | src/generic/multimap_writes.rs:80-91 | `multimap_batch_insert` leaves no key with an empty set |
| `Multimap.Assign` | src/generic/multimap_writes.rs:113-121 | after `remove_all` and the value loop, the key holds every given value, and other keys are unchanged |
| `Multimap.AssignReplaces` | src/generic/multimap_writes.rs:115-121 | after `multimap_assign`, the key holds exactly the given values, nothing from before, and other keys are unchanged |
| `Storage.TableOrEmpty` | src/generic/writes.rs:58-60 | a write transaction opens an existing plain table as it is and a missing one as an empty table |
| `Storage.WithTable` | src/generic/writes.rs:58-63 | committing a write to plain table `name` leaves it holding the transaction's table; every other plain table exists afterwards exactly when it existed before, with the same contents; the multimaps are unchanged, and the store stays well formed |
| `Storage.WithMultimap` | src/generic/multimap_writes.rs:52-63 | committing a write to multimap table `name` leaves it holding the transaction's table; every other multimap table exists afterwards exactly when it existed before, with the same contents; the plain tables are unchanged, and a table without empty sets keeps the store well formed |
| `Storage.MultimapOrEmpty` | src/generic/multimap_writes.rs:29 | a write transaction opens an existing multimap table as it is stored and a missing one as an empty table; an existing table has no empty sets |
| `Storage.ReadOpenFails` | src/generic/internal.rs:21-46 | without an engine fault the read-open succeeds; an existing table fails only when the read cannot begin or the table cannot be opened; a missing one also fails when its creating write or the re-read fails |
| `Storage.AfterReadOpen` | src/generic/internal.rs:21-47 | opening an existing table for reading, or failing to begin or open, changes nothing |
| `Storage.ReadOpenKeepsContents` | src/generic/internal.rs:26-44 | opening a table for reading never changes the contents of any table and never removes one; a missing plain table may only appear, empty |
| `Storage.ReadOpenTwice` | src/generic/internal.rs:25-47 | once a table has been opened for reading, opening it again changes nothing and can fail only in the engine |
| `SavepointIndex.NextKey` | src/save.rs:22-27 | a new savepoint key is fresh and above every key in use: 0 on an empty index, otherwise the largest key plus one |
| `SavepointIndex.KeepUpTo` | src/save.rs:52-53 | after a restore, the index keeps exactly its entries with keys up to the restored one, unchanged |
| `SavepointIndex.RestoredStaysLoadable` | src/save.rs:53 | the restored savepoint itself stays in the index with its snapshot |
| `SavepointIndex.NextKeyAfterRestore` | src/save.rs:23-24 | after restoring key k, the next savepoint receives k + 1, reusing dropped keys |
| `SavepointIndex.NextKeyIncreases` | src/save.rs:29-35 | with no restore in between, consecutive savepoints receive consecutive keys |
| `SavepointIndex.KeepUpToIdempotent` | src/save.rs:52-53 | restoring the same savepoint twice drops nothing the second time |
| `Database.CakeDb.constructor` | src/lib.rs:94-100 | a new handle starts on the given store with an empty savepoint index |
| `Database.CakeDb.Savepoint` | src/save.rs:17-38 | fails only in the engine and then changes nothing; otherwise it returns the next key and adds exactly one entry, a snapshot of the unchanged store |
| `Database.CakeDb.LoadSavepoint` | src/save.rs:43-56 | an unknown key is a not-found error that changes nothing; otherwise the store becomes the saved one and the index keeps only keys up to the loaded one |
| `Database.CakeDb.Savepoints` | src/save.rs:59-61 | returns the index as it is and changes nothing |
| `Database.CakeDb.ClearSavepoints` | src/save.rs:64-66 | empties the index, leaves the store unchanged, and the next key is 0 |
| `Database.CakeDb.TryAdd` | src/generic/writes.rs:13-39 | fails exactly when the engine does, changing nothing; otherwise commits `TryAddStep` on the table and returns its report |
| `Database.CakeDb.Insert` | src/generic/writes.rs:46-66 | fails exactly when the engine does, changing nothing; otherwise commits `InsertStep` and returns the previous value |
| `Database.CakeDb.Update` | src/generic/writes.rs:73-108 | an absent key is a key-not-found error and changes nothing; otherwise commits the edit and returns the old value |
| `Database.CakeDb.Remove` | src/generic/writes.rs:113-132 | fails exactly when the engine does, changing nothing; otherwise commits `RemoveStep` and returns the previous value |
| `Database.CakeDb.BatchInsert` | src/generic/batch_writes.rs:15-36 | the loop leaves the table equal to inserting the pairs in order; a failure at any step changes nothing |
| `Database.CakeDb.BatchUpdate` | src/generic/batch_writes.rs:39-70 | the loop leaves the table equal to editing the present listed keys in order; a failure at any step changes nothing |
| `Database.CakeDb.ClearTable` | src/generic/batch_writes.rs:73-89 | afterwards the table exists and is empty; other tables are unchanged |
| `Database.CakeDb.DeleteTable` | src/generic/batch_writes.rs:95-112 | returns whether the table existed; afterwards it does not exist and nothing else changed |
| `Database.CakeDb.MultimapInsert` | src/generic/multimap_writes.rs:15-35 | returns whether the pair was already present and adds the value to the key |
| `Database.CakeDb.MultimapInsertValues` | src/generic/multimap_writes.rs:40-66 | returns whether the key had a value before; afterwards its set is the old set united with the given values |
| `Database.CakeDb.MultimapBatchInsert` | src/generic/multimap_writes.rs:71-92 | the nested loop adds every listed value to its key; a failure at any insert changes nothing |
| `Database.CakeDb.InsertEachValue` | src/generic/multimap_writes.rs:83-87 | the nested insert loop fails exactly when one of its single-value inserts fails; otherwise it leaves the `AddAll` fold of the batch |
| `Database.CakeDb.InsertValues` | src/generic/multimap_writes.rs:59-61 | the value loop shared by `multimap_insert_values`, `multimap_assign` and the batch insert fails exactly when one of its inserts fails; otherwise it leaves `AddValues` |
| `Database.CakeDb.MultimapAssign` | src/generic/multimap_writes.rs:99-126 | returns whether the key had a value before; afterwards its set is exactly the given values |
| `Database.CakeDb.MultimapRemove` | src/generic/multimap_writes.rs:131-151 | returns whether the value was present and removes it from the key |
| `Database.CakeDb.MultimapRemoveAll` | src/generic/multimap_writes.rs:156-179 | returns the key's former values strictly ascending, and the key has none afterwards |
| `Database.CakeDb.ClearMultimapTable` | src/generic/multimap_writes.rs:182-202 | a missing table is an error that creates nothing; otherwise the loop over the committed keys leaves the table existing and empty |
| `Database.CakeDb.RemoveKeys` | src/generic/multimap_writes.rs:195-197 | the `remove_all` loop fails exactly when one of its steps fails; otherwise no listed key is left and no key is added |
| `Database.CakeDb.DeleteMultimapTable` | src/generic/multimap_writes.rs:207-224 | returns whether the multimap table existed; afterwards it does not exist and nothing else changed |
| `Database.CakeDb.ReadTable` | src/generic/internal.rs:13-49 | yields the committed table, or an empty one for a missing table; a missing table is created unless its creation fails; other failures change nothing |
| `Database.CakeDb.ReadMultimapTable` | src/generic/internal.rs:52-66 | a missing multimap table is a does-not-exist error; nothing is created and nothing changes |
| `Database.CakeDb.Get` | src/generic/reads.rs:15-25 | returns the value stored under the key or None; the only state change is the creation of a missing table |
| `Database.CakeDb.ContainsKey` | src/generic/reads.rs:29-39 | returns true exactly when `get` would return a value |
| `Database.CakeDb.Find` | src/generic/reads.rs:42-55 | returns `Reads.Find` of the table: the matching entry with the least key |
| `Database.CakeDb.RFind` | src/generic/reads.rs:58-71 | returns `Reads.RFind` of the table: the matching entry with the greatest key |
| `Database.CakeDb.FindNth` | src/generic/reads.rs:78-98 | returns the zero-based n-th match in ascending key order, or None when there are at most n matches |
| `Database.CakeDb.CountMatches` | src/generic/reads.rs:101-115 | returns the number of matching entries, the size of `filter` |
| `Database.CakeDb.Filter` | src/generic/reads.rs:118-132 | returns the sub-map of matching entries |
| `Database.CakeDb.FilterKeys` | src/generic/reads.rs:135-150 | returns the matching keys in ascending order |
| `Database.CakeDb.Table` | src/generic/reads.rs:153-167 | returns the whole table, empty for a missing one |
| `Database.CakeDb.First` | src/generic/reads.rs:170-182 | returns the entry with the least key, None on an empty table |
| `Database.CakeDb.Last` | src/generic/reads.rs:185-197 | returns the entry with the greatest key, None on an empty table |
| `Database.CakeDb.FirstKey` | src/generic/reads.rs:200-212 | returns the least key, None on an empty table |
| `Database.CakeDb.LastKey` | src/generic/reads.rs:215-227 | returns the greatest key, None on an empty table |
| `Database.CakeDb.Range` | src/generic/reads.rs:230-245 | returns the entries whose keys lie within the bounds |
| `Database.CakeDb.MultimapGet` | src/generic/multimap_reads.rs:11-26 | returns the key's value set, empty when it has none; a missing table is an error; nothing changes |
| `Database.CakeDb.MultimapTableContents` | src/generic/multimap_reads.rs:29-48 | returns every key with its full value set; a missing table is an error; nothing changes |
| `Scenarios.InsertAndGet` | src/test.rs:20-28 | a value inserted under a key is read back by `get` |
| `Scenarios.BatchInsertAndFilter` | src/test.rs:30-42 | after a batch insert of three records, `filter` on an odd `a` returns two entries |
| `Scenarios.SavepointAndRestore` | src/test.rs:44-53 | a pair inserted after a savepoint is gone once that savepoint is loaded |
| `Scenarios.SavepointInvalidation` | src/save.rs:52-53 | loading savepoint 0 drops savepoint 1, which can no longer be loaded; 0 loads again, and the next savepoint reuses key 1 |
| `Scenarios.ClearThenSavepoint` | src/save.rs:64-66 | after clearing the index the next savepoint key is 0 again |
| `Scenarios.MultimapAssignReplaces` | src/generic/multimap_writes.rs:94-98 | assigning `[30]` to a key holding `{10, 20}` returns true and leaves exactly `{30}` |
| `Scenarios.TryAddTwice` | src/generic/writes.rs:8-12 | the second `try_add` of a key returns false and the first value stays |
| `Scenarios.UpdateThenDelete` | src/generic/writes.rs:68-72 | `update` returns the old value and stores the edited one; deleting the table returns true, then false; `update` on the now-missing key is key-not-found |
| `Scenarios.MissingTables` | src/generic/internal.rs:26-44 | a plain read of a missing table sees it empty and creates it, while a multimap read of a name never used fails with table-does-not-exist |

## Left out

- The `redb` engine itself is not part of this model: transactions, pages, `ephemeral_savepoint`, `restore_savepoint` and `compact` (src/lib.rs:133-135). The store is a value; a committed write replaces it and an aborted one leaves it unchanged. A savepoint is a copy of the committed store.
- src/bincode_wrapper.rs is not part of this model, and neither are decode panics. Keys and values are decoded values. Keys are the integers, standing for any totally ordered `DbKey` type. Multimap values are also integers, because they must be ordered too. One `Store<V>` gives every plain table of a handle the same value type `V`, and every multimap the integer values; in the source each table definition carries its own key and value types.
- The constructors `new` and `new_temp` (src/lib.rs:94-115) create files, which is I/O. The model's constructor only takes the initial store and starts with an empty savepoint index. `database`, `mut_database`, `tempfile_path` and `data_local_path` are left out.
- `creation_time: UtcDateTime::now()` (src/save.rs:33) reads the wall clock. It becomes the `now` argument of `Savepoint`.
- Read failures after a table is open are not modelled. This covers the `?` on `get`, `iter`, `first`, `last` and `range` in src/generic/reads.rs (lines 24, 38, 163, 180, 195, 210, 225 and 241), and the `?` on `get` and `iter` in src/generic/multimap_reads.rs (lines 22 and 39). It also covers the silent dropping of entries that fail to read: `filter_map(Result::ok)` at src/generic/reads.rs:164, `flatten()` in `range` at src/generic/reads.rs:242, and `flatten()` in the multimap reads and in `multimap_remove_all`. With a working engine these calls return every entry.
- The race between the failed read-open and the creating write in `read_table` (src/generic/internal.rs:26-36) is a concurrency matter. Only the sequential outcome is modelled.
- Edit closures (`FnMut(&mut V)` in `update`, `Fn(&K, &mut V)` in `batch_update`) are pure functions in the model. Side effects of calling them are not captured. So "`edit` is never called on an absent key" shows only as the error result and the unchanged store.
- Database.CakeDb.Savepoint: savepoint keys are unbounded naturals, so the `usize` overflow of `max_key + 1` at `usize::MAX` (src/save.rs:24) is not modelled. The same holds for the `usize` counter of `find_nth`.
- A type mismatch between a plain and a multimap table of the same name, and any other engine refusal to open or delete a table, is modelled only as the `OpenFails` fault.
- Error messages are not modelled. Errors are reduced to kinds: transaction failure, table-open failure, storage failure, missing multimap table, key not found, and unknown savepoint.
- The second `return Err` in `update` (src/generic/writes.rs:100-103) cannot be reached, because the key was just found in the same transaction. The model has no separate path for it.
