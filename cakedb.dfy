/** The `CakeDb` handle (src/lib.rs): the engine's committed state and the in-memory index of
    savepoints. Every write runs one write transaction: it works on the table as the transaction
    opened it and assigns the result back to `store` only at the commit, so any error before
    the commit leaves `store` as it was. Where the engine fails is given by a `Fault` argument. */
module Database {
  import opened Wrappers
  import opened Ordered
  import opened Multimap
  import opened Storage
  import Reads
  import Writes
  import Batch
  import SavepointIndex

  class CakeDb<V> {
    /** The committed contents of the database. */
    var store: Store<V>
    /** The savepoints taken through this handle, by key (src/lib.rs:85). */
    var savepoints: map<nat, Snapshot<V>>

    ghost predicate Valid()
      reads this
    {
      WellFormed(store) && forall k :: k in savepoints ==> WellFormed(savepoints[k].state)
    }

    /** A handle on a database holding `initial`, with no savepoints yet. */
    constructor (initial: Store<V>)
      requires WellFormed(initial)
      ensures Valid()
      ensures store == initial && savepoints == map[]
    {
      store := initial;
      savepoints := map[];
    }

    // -------------------------------------------------------------------------
    // Savepoints (src/save.rs)

    /** Takes a savepoint of the committed state at time `now` and returns its key. */
    method Savepoint(now: int, fault: Fault) returns (r: Result<nat>)
      requires Valid()
      modifies this
      ensures Valid()
      ensures store == old(store)
      ensures r.Err? <==> fault.BeginFails? || fault == StepFails(0) || fault.CommitFails?
      ensures r.Err? ==> savepoints == old(savepoints)
      ensures r.Ok? ==> r.value == SavepointIndex.NextKey(old(savepoints))
      ensures r.Ok? ==> savepoints == old(savepoints)[r.value := Snapshot(store, now)]
    {
      if fault.BeginFails? {
        return Err(TransactionFailed);
      }
      var saved := store;
      if fault == StepFails(0) {
        return Err(StorageFailed);
      }
      if fault.CommitFails? {
        return Err(TransactionFailed);
      }
      var key := SavepointIndex.NextKey(savepoints);
      savepoints := savepoints[key := Snapshot(saved, now)];
      return Ok(key);
    }

    /** Restores the state saved under `key` and drops the savepoints taken after it. */
    method LoadSavepoint(key: nat, fault: Fault) returns (r: Result<()>)
      requires Valid()
      modifies this
      ensures Valid()
      ensures key !in old(savepoints) ==> r == Err(SavepointNotFound(key))
      ensures key in old(savepoints) ==>
                (r.Err? <==> fault.BeginFails? || fault == StepFails(0) || fault.CommitFails?)
      ensures r.Err? ==> store == old(store) && savepoints == old(savepoints)
      ensures r.Ok? ==> key in old(savepoints) && store == old(savepoints)[key].state
      ensures r.Ok? ==> savepoints == SavepointIndex.KeepUpTo(old(savepoints), key)
    {
      if key !in savepoints {
        return Err(SavepointNotFound(key));
      }
      var save := savepoints[key];
      if fault.BeginFails? {
        return Err(TransactionFailed);
      }
      if fault == StepFails(0) {
        return Err(StorageFailed);
      }
      if fault.CommitFails? {
        return Err(TransactionFailed);
      }
      store := save.state;
      savepoints := SavepointIndex.KeepUpTo(savepoints, key);
      return Ok(());
    }

    /** The savepoint index, as it is. */
    method Savepoints() returns (r: map<nat, Snapshot<V>>)
      ensures r == savepoints
    {
      return savepoints;
    }

    /** Forgets every savepoint; the database itself is untouched. */
    method ClearSavepoints()
      requires Valid()
      modifies this
      ensures Valid()
      ensures savepoints == map[] && store == old(store)
      ensures SavepointIndex.NextKey(savepoints) == 0
    {
      savepoints := map[];
    }

    // -------------------------------------------------------------------------
    // Single-key writes (src/generic/writes.rs)

    /** Adds the pair only if the key is absent; reports whether it was added. */
    method TryAdd(name: string, key: Key, value: V, fault: Fault) returns (r: Result<bool>)
      requires Valid()
      modifies this
      ensures Valid() && savepoints == old(savepoints)
      ensures r.Err? <==> WriteAborts(fault, 1)
      ensures r.Err? ==> store == old(store)
      ensures r.Ok? ==> var step := Writes.TryAddStep(TableOrEmpty(old(store), name), key, value);
                        r.value == step.1 && store == WithTable(old(store), name, step.0)
    {
      if fault.BeginFails? {
        return Err(TransactionFailed);
      }
      if fault.OpenFails? {
        return Err(TableOpenFailed);
      }
      var table := TableOrEmpty(store, name);
      if fault == StepFails(0) {
        return Err(StorageFailed);
      }
      var step := Writes.TryAddStep(table, key, value);
      if fault.CommitFails? {
        return Err(TransactionFailed);
      }
      store := WithTable(store, name, step.0);
      return Ok(step.1);
    }

    /** Maps the key to the value, overwriting; returns the previous value. */
    method Insert(name: string, key: Key, value: V, fault: Fault) returns (r: Result<Option<V>>)
      requires Valid()
      modifies this
      ensures Valid() && savepoints == old(savepoints)
      ensures r.Err? <==> WriteAborts(fault, 1)
      ensures r.Err? ==> store == old(store)
      ensures r.Ok? ==> var step := Writes.InsertStep(TableOrEmpty(old(store), name), key, value);
                        r.value == step.1 && store == WithTable(old(store), name, step.0)
    {
      if fault.BeginFails? {
        return Err(TransactionFailed);
      }
      if fault.OpenFails? {
        return Err(TableOpenFailed);
      }
      var table := TableOrEmpty(store, name);
      if fault == StepFails(0) {
        return Err(StorageFailed);
      }
      var step := Writes.InsertStep(table, key, value);
      if fault.CommitFails? {
        return Err(TransactionFailed);
      }
      store := WithTable(store, name, step.0);
      return Ok(step.1);
    }

    /** Replaces the value of a present key by `edit` of it; returns the old value. An absent
        key is an error and the transaction is dropped without a commit. */
    method Update(name: string, key: Key, edit: V -> V, fault: Fault) returns (r: Result<V>)
      requires Valid()
      modifies this
      ensures Valid() && savepoints == old(savepoints)
      ensures r.Err? <==> WriteAborts(fault, 1) || key !in TableOrEmpty(old(store), name)
      ensures (!(fault.BeginFails? || fault.OpenFails? || fault == StepFails(0))
               && key !in TableOrEmpty(old(store), name)) ==> r == Err(KeyNotFound)
      ensures r.Err? ==> store == old(store)
      ensures r.Ok? ==> var step := Writes.UpdateStep(TableOrEmpty(old(store), name), key, edit);
                        step.Ok? && r.value == step.value.1
                        && store == WithTable(old(store), name, step.value.0)
    {
      if fault.BeginFails? {
        return Err(TransactionFailed);
      }
      if fault.OpenFails? {
        return Err(TableOpenFailed);
      }
      var table := TableOrEmpty(store, name);
      if fault == StepFails(0) {
        return Err(StorageFailed);
      }
      var step :- Writes.UpdateStep(table, key, edit);
      if fault.CommitFails? {
        return Err(TransactionFailed);
      }
      store := WithTable(store, name, step.0);
      return Ok(step.1);
    }

    /** Deletes the key; returns the value it had, if any. */
    method Remove(name: string, key: Key, fault: Fault) returns (r: Result<Option<V>>)
      requires Valid()
      modifies this
      ensures Valid() && savepoints == old(savepoints)
      ensures r.Err? <==> WriteAborts(fault, 1)
      ensures r.Err? ==> store == old(store)
      ensures r.Ok? ==> var step := Writes.RemoveStep(TableOrEmpty(old(store), name), key);
                        r.value == step.1 && store == WithTable(old(store), name, step.0)
    {
      if fault.BeginFails? {
        return Err(TransactionFailed);
      }
      if fault.OpenFails? {
        return Err(TableOpenFailed);
      }
      var table := TableOrEmpty(store, name);
      if fault == StepFails(0) {
        return Err(StorageFailed);
      }
      var step := Writes.RemoveStep(table, key);
      if fault.CommitFails? {
        return Err(TransactionFailed);
      }
      store := WithTable(store, name, step.0);
      return Ok(step.1);
    }

    // -------------------------------------------------------------------------
    // Batch writes (src/generic/batch_writes.rs)

    /** Inserts the pairs one after the other in one transaction. */
    method BatchInsert(name: string, data: seq<(Key, V)>, fault: Fault) returns (r: Result<()>)
      requires Valid()
      modifies this
      ensures Valid() && savepoints == old(savepoints)
      ensures r.Err? <==> WriteAborts(fault, |data|)
      ensures r.Err? ==> store == old(store)
      ensures r.Ok? ==> store == WithTable(old(store), name, Batch.InsertAll(TableOrEmpty(old(store), name), data))
    {
      if fault.BeginFails? {
        return Err(TransactionFailed);
      }
      if fault.OpenFails? {
        return Err(TableOpenFailed);
      }
      var committed := store;
      var start := TableOrEmpty(committed, name);
      var table := start;
      var i := 0;
      while i < |data|
        invariant 0 <= i <= |data|
        invariant table == Batch.InsertAll(start, data[..i])
        invariant !(fault.StepFails? && fault.step < i)
      {
        if fault == StepFails(i) {
          return Err(StorageFailed);
        }
        var (k, v) := data[i];
        assert data[..i + 1][..i] == data[..i];
        table := table[k := v];
        i := i + 1;
      }
      assert data[..i] == data;
      if fault.CommitFails? {
        return Err(TransactionFailed);
      }
      store := WithTable(committed, name, table);
      return Ok(());
    }

    /** Edits the listed keys one after the other in one transaction; a key that is absent at
        its turn is skipped without error. */
    method BatchUpdate(name: string, keys: seq<Key>, edit: (Key, V) -> V, fault: Fault) returns (r: Result<()>)
      requires Valid()
      modifies this
      ensures Valid() && savepoints == old(savepoints)
      ensures r.Err? <==> WriteAborts(fault, |keys|)
      ensures r.Err? ==> store == old(store)
      ensures r.Ok? ==> store == WithTable(old(store), name, Batch.UpdateAll(TableOrEmpty(old(store), name), keys, edit))
    {
      if fault.BeginFails? {
        return Err(TransactionFailed);
      }
      if fault.OpenFails? {
        return Err(TableOpenFailed);
      }
      var committed := store;
      var start := TableOrEmpty(committed, name);
      var table := start;
      var i := 0;
      while i < |keys|
        invariant 0 <= i <= |keys|
        invariant table == Batch.UpdateAll(start, keys[..i], edit)
        invariant !(fault.StepFails? && fault.step < i)
      {
        if fault == StepFails(i) {
          return Err(StorageFailed);
        }
        var k := keys[i];
        assert keys[..i + 1][..i] == keys[..i];
        if k in table {
          table := table[k := edit(k, table[k])];
        }
        i := i + 1;
      }
      assert keys[..i] == keys;
      if fault.CommitFails? {
        return Err(TransactionFailed);
      }
      store := WithTable(committed, name, table);
      return Ok(());
    }

    /** Removes every pair of the table; the table itself remains, empty. */
    method ClearTable(name: string, fault: Fault) returns (r: Result<()>)
      requires Valid()
      modifies this
      ensures Valid() && savepoints == old(savepoints)
      ensures r.Err? <==> WriteAborts(fault, 1)
      ensures r.Err? ==> store == old(store)
      ensures r.Ok? ==> store == WithTable(old(store), name, map[])
    {
      if fault.BeginFails? {
        return Err(TransactionFailed);
      }
      if fault.OpenFails? {
        return Err(TableOpenFailed);
      }
      var table := TableOrEmpty(store, name);
      if fault == StepFails(0) {
        return Err(StorageFailed);
      }
      // `retain` with a predicate that rejects every pair
      table := map[];
      if fault.CommitFails? {
        return Err(TransactionFailed);
      }
      store := WithTable(store, name, table);
      return Ok(());
    }

    /** Deletes the table; reports whether it existed. */
    method DeleteTable(name: string, fault: Fault) returns (r: Result<bool>)
      requires Valid()
      modifies this
      ensures Valid() && savepoints == old(savepoints)
      ensures r.Err? <==> fault.BeginFails? || fault.OpenFails? || fault.CommitFails?
      ensures r.Err? ==> store == old(store)
      ensures r.Ok? ==> r.value == (name in old(store).tables)
      ensures r.Ok? ==> store == old(store).(tables := old(store).tables - {name})
    {
      if fault.BeginFails? {
        return Err(TransactionFailed);
      }
      if fault.OpenFails? {
        return Err(TableOpenFailed);
      }
      var existed := name in store.tables;
      if fault.CommitFails? {
        return Err(TransactionFailed);
      }
      store := store.(tables := store.tables - {name});
      return Ok(existed);
    }

    // -------------------------------------------------------------------------
    // Multimap writes (src/generic/multimap_writes.rs)

    /** Adds the value to the key; reports whether the pair was already present. */
    method MultimapInsert(name: string, key: Key, value: Value, fault: Fault) returns (r: Result<bool>)
      requires Valid()
      modifies this
      ensures Valid() && savepoints == old(savepoints)
      ensures r.Err? <==> WriteAborts(fault, 1)
      ensures r.Err? ==> store == old(store)
      ensures r.Ok? ==> var m := MultimapOrEmpty(old(store), name);
                        r.value == (value in ValuesOf(m, key))
                        && store == WithMultimap(old(store), name, AddValue(m, key, value))
    {
      if fault.BeginFails? {
        return Err(TransactionFailed);
      }
      if fault.OpenFails? {
        return Err(TableOpenFailed);
      }
      var table := MultimapOrEmpty(store, name);
      if fault == StepFails(0) {
        return Err(StorageFailed);
      }
      var existed := value in ValuesOf(table, key);
      table := AddValue(table, key, value);
      if fault.CommitFails? {
        return Err(TransactionFailed);
      }
      store := WithMultimap(store, name, table);
      return Ok(existed);
    }

    /** Adds the values to the key, one insert each; reports whether the key had a value before.
        Step 0 is the lookup of the key, step `i + 1` the insert of `values[i]`. */
    method MultimapInsertValues(name: string, key: Key, values: seq<Value>, fault: Fault) returns (r: Result<bool>)
      requires Valid()
      modifies this
      ensures Valid() && savepoints == old(savepoints)
      ensures r.Err? <==> WriteAborts(fault, |values| + 1)
      ensures r.Err? ==> store == old(store)
      ensures r.Ok? ==> var m := MultimapOrEmpty(old(store), name);
                        r.value == (ValuesOf(m, key) != {})
                        && store == WithMultimap(old(store), name, AddValues(m, key, values))
      ensures r.Ok? ==> ValuesOf(store.multimaps[name], key)
                        == ValuesOf(MultimapOrEmpty(old(store), name), key) + Elements(values)
    {
      if fault.BeginFails? {
        return Err(TransactionFailed);
      }
      if fault.OpenFails? {
        return Err(TableOpenFailed);
      }
      var committed := store;
      var start := MultimapOrEmpty(committed, name);
      if fault == StepFails(0) {
        return Err(StorageFailed);
      }
      var existed := ValuesOf(start, key) != {};
      var table :- InsertValues(start, key, values, 1, fault);
      AddValuesUnion(start, key, values);
      if fault.CommitFails? {
        return Err(TransactionFailed);
      }
      store := WithMultimap(committed, name, table);
      return Ok(existed);
    }

    /** Inserts every value of every listed key, in one transaction. Step `s` is the `s`-th
        single-value insert of the nested loop. */
    method MultimapBatchInsert(name: string, data: seq<(Key, seq<Value>)>, fault: Fault) returns (r: Result<()>)
      requires Valid()
      modifies this
      ensures Valid() && savepoints == old(savepoints)
      ensures r.Err? <==> WriteAborts(fault, ValueCount(data))
      ensures r.Err? ==> store == old(store)
      ensures r.Ok? ==> store == WithMultimap(old(store), name, AddAll(MultimapOrEmpty(old(store), name), data))
      ensures r.Ok? ==> forall k :: ValuesOf(store.multimaps[name], k)
                                    == ValuesOf(MultimapOrEmpty(old(store), name), k) + ListedFor(data, k)
    {
      if fault.BeginFails? {
        return Err(TransactionFailed);
      }
      if fault.OpenFails? {
        return Err(TableOpenFailed);
      }
      var committed := store;
      var start := MultimapOrEmpty(committed, name);
      var table :- InsertEachValue(start, data, fault);
      AddAllKeepsNoEmptySets(start, data);
      forall k
        ensures ValuesOf(table, k) == ValuesOf(start, k) + ListedFor(data, k)
      {
        AddAllUnion(start, data, k);
      }
      if fault.CommitFails? {
        return Err(TransactionFailed);
      }
      store := WithMultimap(committed, name, table);
      return Ok(());
    }

    /** The nested loop of `multimap_batch_insert`: each value of each listed key is inserted
        in turn on the table the write transaction opened, step `s` being the `s`-th insert.
        The loop fails exactly when one of its steps does; otherwise it leaves `AddAll`. */
    static method InsertEachValue(start: MultimapTable, data: seq<(Key, seq<Value>)>, fault: Fault)
      returns (r: Result<MultimapTable>)
      ensures r.Err? <==> fault.StepFails? && fault.step < ValueCount(data)
      ensures r.Ok? ==> r.value == AddAll(start, data)
    {
      var table := start;
      var done := 0;
      var i := 0;
      while i < |data|
        invariant 0 <= i <= |data|
        invariant table == AddAll(start, data[..i])
        invariant done == ValueCount(data[..i])
        invariant !(fault.StepFails? && fault.step < done)
      {
        var (k, vs) := data[i];
        assert data[..i + 1][..i] == data[..i];
        ValueCountPrefix(data, i + 1);
        table :- InsertValues(table, k, vs, done, fault);
        done := done + |vs|;
        i := i + 1;
      }
      assert data[..i] == data;
      return Ok(table);
    }

    /** The loop `for v in values { table.insert(key, v)? }` on the table the write transaction
        opened, its inserts being the steps numbered from `first` on. It fails exactly when
        one of those steps does; otherwise it leaves `AddValues`. */
    static method InsertValues(t: MultimapTable, k: Key, vs: seq<Value>, first: nat, fault: Fault)
      returns (r: Result<MultimapTable>)
      ensures r.Err? <==> fault.StepFails? && first <= fault.step < first + |vs|
      ensures r.Ok? ==> r.value == AddValues(t, k, vs)
    {
      var table := t;
      var i := 0;
      while i < |vs|
        invariant 0 <= i <= |vs|
        invariant table == AddValues(t, k, vs[..i])
        invariant !(fault.StepFails? && first <= fault.step < first + i)
      {
        if fault == StepFails(first + i) {
          return Err(StorageFailed);
        }
        assert vs[..i + 1][..i] == vs[..i];
        table := AddValue(table, k, vs[i]);
        i := i + 1;
      }
      assert vs[..i] == vs;
      return Ok(table);
    }

    /** Replaces the values of the key by exactly `values`; reports whether it had any.
        Step 0 removes the old values, step `i + 1` inserts `values[i]`. */
    method MultimapAssign(name: string, key: Key, values: seq<Value>, fault: Fault) returns (r: Result<bool>)
      requires Valid()
      modifies this
      ensures Valid() && savepoints == old(savepoints)
      ensures r.Err? <==> WriteAborts(fault, |values| + 1)
      ensures r.Err? ==> store == old(store)
      ensures r.Ok? ==> var m := MultimapOrEmpty(old(store), name);
                        r.value == (ValuesOf(m, key) != {})
                        && store == WithMultimap(old(store), name, Assign(m, key, values))
      ensures r.Ok? ==> ValuesOf(store.multimaps[name], key) == Elements(values)
    {
      if fault.BeginFails? {
        return Err(TransactionFailed);
      }
      if fault.OpenFails? {
        return Err(TableOpenFailed);
      }
      var committed := store;
      var start := MultimapOrEmpty(committed, name);
      if fault == StepFails(0) {
        return Err(StorageFailed);
      }
      var existed := ValuesOf(start, key) != {};
      var table :- InsertValues(start - {key}, key, values, 1, fault);
      AssignReplaces(start, key, values);
      if fault.CommitFails? {
        return Err(TransactionFailed);
      }
      store := WithMultimap(committed, name, table);
      return Ok(existed);
    }

    /** Removes one value from the key; reports whether it was there. */
    method MultimapRemove(name: string, key: Key, value: Value, fault: Fault) returns (r: Result<bool>)
      requires Valid()
      modifies this
      ensures Valid() && savepoints == old(savepoints)
      ensures r.Err? <==> WriteAborts(fault, 1)
      ensures r.Err? ==> store == old(store)
      ensures r.Ok? ==> var m := MultimapOrEmpty(old(store), name);
                        r.value == (value in ValuesOf(m, key))
                        && store == WithMultimap(old(store), name, RemoveValue(m, key, value))
    {
      if fault.BeginFails? {
        return Err(TransactionFailed);
      }
      if fault.OpenFails? {
        return Err(TableOpenFailed);
      }
      var table := MultimapOrEmpty(store, name);
      if fault == StepFails(0) {
        return Err(StorageFailed);
      }
      var existed := value in ValuesOf(table, key);
      table := RemoveValue(table, key, value);
      if fault.CommitFails? {
        return Err(TransactionFailed);
      }
      store := WithMultimap(store, name, table);
      return Ok(existed);
    }

    /** Removes every value of the key and returns them in ascending order. */
    method MultimapRemoveAll(name: string, key: Key, fault: Fault) returns (r: Result<seq<Value>>)
      requires Valid()
      modifies this
      ensures Valid() && savepoints == old(savepoints)
      ensures r.Err? <==> WriteAborts(fault, 1)
      ensures r.Err? ==> store == old(store)
      ensures r.Ok? ==> StrictlyAscending(r.value)
      ensures r.Ok? ==> forall v :: v in r.value <==> v in ValuesOf(MultimapOrEmpty(old(store), name), key)
      ensures r.Ok? ==> store == WithMultimap(old(store), name, MultimapOrEmpty(old(store), name) - {key})
      ensures r.Ok? ==> ValuesOf(store.multimaps[name], key) == {}
    {
      if fault.BeginFails? {
        return Err(TransactionFailed);
      }
      if fault.OpenFails? {
        return Err(TableOpenFailed);
      }
      var table := MultimapOrEmpty(store, name);
      if fault == StepFails(0) {
        return Err(StorageFailed);
      }
      var removed := Ascending(ValuesOf(table, key));
      table := table - {key};
      if fault.CommitFails? {
        return Err(TransactionFailed);
      }
      store := WithMultimap(store, name, table);
      return Ok(removed);
    }

    /** Removes the values of every key of the table, key by key, in one transaction. The keys
        come from a read of the committed table, which fails when the table does not exist. */
    method ClearMultimapTable(name: string, fault: Fault) returns (r: Result<()>)
      requires Valid()
      modifies this
      ensures Valid() && savepoints == old(savepoints)
      ensures r.Err? <==> name !in old(store).multimaps || WriteAborts(fault, |old(store).multimaps[name]|)
      ensures name !in old(store).multimaps && !fault.BeginFails? && !fault.OpenFails?
              ==> r == Err(TableDoesNotExist)
      ensures r.Err? ==> store == old(store)
      ensures r.Ok? ==> store == WithMultimap(old(store), name, map[])
    {
      if fault.BeginFails? {
        return Err(TransactionFailed);
      }
      var reference :- ReadMultimapTable(name, fault);
      var committed := store;
      var ks := Ascending(reference.Keys);
      assert |ks| == |reference|;
      var table :- RemoveKeys(reference, ks, fault);
      NothingLeft(reference, table, ks);
      if fault.CommitFails? {
        return Err(TransactionFailed);
      }
      store := WithMultimap(committed, name, table);
      return Ok(());
    }

    /** The loop of `clear_multimap_table`: `remove_all` of each key of `ks`, in order, on the
        table the write transaction opened; step `i` removes `ks[i]`. The loop fails exactly
        when one of its steps does; otherwise no listed key is left, and no key is added. */
    static method RemoveKeys(t: MultimapTable, ks: seq<Key>, fault: Fault) returns (r: Result<MultimapTable>)
      ensures r.Err? <==> fault.StepFails? && fault.step < |ks|
      ensures r.Ok? ==> r.value.Keys <= t.Keys
      ensures r.Ok? ==> forall j :: 0 <= j < |ks| ==> ks[j] !in r.value
    {
      var table := t;
      var i := 0;
      while i < |ks|
        invariant 0 <= i <= |ks|
        invariant table.Keys <= t.Keys
        invariant forall j :: 0 <= j < i ==> ks[j] !in table
        invariant !(fault.StepFails? && fault.step < i)
      {
        if fault == StepFails(i) {
          return Err(StorageFailed);
        }
        table := table - {ks[i]};
        i := i + 1;
      }
      return Ok(table);
    }

    /** Deletes the multimap table; reports whether it existed. */
    method DeleteMultimapTable(name: string, fault: Fault) returns (r: Result<bool>)
      requires Valid()
      modifies this
      ensures Valid() && savepoints == old(savepoints)
      ensures r.Err? <==> fault.BeginFails? || fault.OpenFails? || fault.CommitFails?
      ensures r.Err? ==> store == old(store)
      ensures r.Ok? ==> r.value == (name in old(store).multimaps)
      ensures r.Ok? ==> store == old(store).(multimaps := old(store).multimaps - {name})
    {
      if fault.BeginFails? {
        return Err(TransactionFailed);
      }
      if fault.OpenFails? {
        return Err(TableOpenFailed);
      }
      var existed := name in store.multimaps;
      if fault.CommitFails? {
        return Err(TransactionFailed);
      }
      store := store.(multimaps := store.multimaps - {name});
      return Ok(existed);
    }

    // -------------------------------------------------------------------------
    // Opening tables for reading (src/generic/internal.rs)

    /** Opens plain table `name` for reading. A missing table is first created, empty, by a
        write transaction of its own, then start again. */
    method ReadTable(name: string, fault: Fault) returns (r: Result<map<Key, V>>)
      requires Valid()
      modifies this
      ensures Valid() && savepoints == old(savepoints)
      ensures store == AfterReadOpen(old(store), name, fault)
      ensures r.Err? <==> ReadOpenFails(old(store), name, fault)
      ensures r.Ok? ==> r.value == TableOrEmpty(old(store), name)
    {
      if fault.BeginFails? {
        return Err(TransactionFailed);
      }
      if fault.OpenFails? {
        return Err(TableOpenFailed);
      }
      if name in store.tables {
        return Ok(store.tables[name]);
      }
      if fault.CreateFails? {
        return Err(TransactionFailed);
      }
      store := WithTable(store, name, map[]);
      if fault.ReopenFails? {
        return Err(TableOpenFailed);
      }
      return Ok(store.tables[name]);
    }

    /** Opens multimap table `name` for reading; a missing table is an error, never created. */
    method ReadMultimapTable(name: string, fault: Fault) returns (r: Result<MultimapTable>)
      requires Valid()
      ensures r.Err? <==> fault.BeginFails? || fault.OpenFails? || name !in store.multimaps
      ensures name !in store.multimaps && !fault.BeginFails? && !fault.OpenFails?
              ==> r == Err(TableDoesNotExist)
      ensures r.Ok? ==> name in store.multimaps && r.value == store.multimaps[name]
      ensures r.Ok? ==> NoEmptySets(r.value)
    {
      if fault.BeginFails? {
        return Err(TransactionFailed);
      }
      if fault.OpenFails? {
        return Err(TableOpenFailed);
      }
      if name !in store.multimaps {
        return Err(TableDoesNotExist);
      }
      return Ok(store.multimaps[name]);
    }

    // -------------------------------------------------------------------------
    // Reads of plain tables (src/generic/reads.rs). Each one opens the table with
    // `ReadTable`, so its only effect on the store is the creation of a missing table.

    method Get(name: string, key: Key, fault: Fault) returns (r: Result<Option<V>>)
      requires Valid()
      modifies this
      ensures Valid() && savepoints == old(savepoints)
      ensures store == AfterReadOpen(old(store), name, fault)
      ensures r.Err? <==> ReadOpenFails(old(store), name, fault)
      ensures r.Ok? ==> r.value == Reads.Lookup(TableOrEmpty(old(store), name), key)
    {
      var t :- ReadTable(name, fault);
      return Ok(Reads.Lookup(t, key));
    }

    method ContainsKey(name: string, key: Key, fault: Fault) returns (r: Result<bool>)
      requires Valid()
      modifies this
      ensures Valid() && savepoints == old(savepoints)
      ensures store == AfterReadOpen(old(store), name, fault)
      ensures r.Err? <==> ReadOpenFails(old(store), name, fault)
      ensures r.Ok? ==> (r.value <==> Reads.Lookup(TableOrEmpty(old(store), name), key).Some?)
    {
      var t :- ReadTable(name, fault);
      return Ok(Reads.Lookup(t, key).Some?);
    }

    method Find(name: string, p: (Key, V) -> bool, fault: Fault) returns (r: Result<Option<(Key, V)>>)
      requires Valid()
      modifies this
      ensures Valid() && savepoints == old(savepoints)
      ensures store == AfterReadOpen(old(store), name, fault)
      ensures r.Err? <==> ReadOpenFails(old(store), name, fault)
      ensures r.Ok? ==> r.value == Reads.Find(TableOrEmpty(old(store), name), p)
    {
      var t :- ReadTable(name, fault);
      return Ok(Reads.Find(t, p));
    }

    method RFind(name: string, p: (Key, V) -> bool, fault: Fault) returns (r: Result<Option<(Key, V)>>)
      requires Valid()
      modifies this
      ensures Valid() && savepoints == old(savepoints)
      ensures store == AfterReadOpen(old(store), name, fault)
      ensures r.Err? <==> ReadOpenFails(old(store), name, fault)
      ensures r.Ok? ==> r.value == Reads.RFind(TableOrEmpty(old(store), name), p)
    {
      var t :- ReadTable(name, fault);
      return Ok(Reads.RFind(t, p));
    }

    /** The `n`-th matching pair in ascending key order, counting from 0. */
    method FindNth(n: nat, name: string, p: (Key, V) -> bool, fault: Fault) returns (r: Result<Option<(Key, V)>>)
      requires Valid()
      modifies this
      ensures Valid() && savepoints == old(savepoints)
      ensures store == AfterReadOpen(old(store), name, fault)
      ensures r.Err? <==> ReadOpenFails(old(store), name, fault)
      ensures r.Ok? ==> var matches := Reads.FilterKeys(TableOrEmpty(old(store), name), p);
                        (r.value.Some? <==> n < |matches|)
                        && (r.value.Some? ==> r.value.value.0 == matches[n]
                                              && r.value.value == (matches[n], TableOrEmpty(old(store), name)[matches[n]]))
    {
      var t :- ReadTable(name, fault);
      var found := Reads.NthMatch(t, n, p);
      return Ok(found);
    }

    method CountMatches(name: string, p: (Key, V) -> bool, fault: Fault) returns (r: Result<nat>)
      requires Valid()
      modifies this
      ensures Valid() && savepoints == old(savepoints)
      ensures store == AfterReadOpen(old(store), name, fault)
      ensures r.Err? <==> ReadOpenFails(old(store), name, fault)
      ensures r.Ok? ==> r.value == Reads.CountMatches(TableOrEmpty(old(store), name), p)
      ensures r.Ok? ==> r.value == |Reads.Filter(TableOrEmpty(old(store), name), p)|
    {
      var t :- ReadTable(name, fault);
      Reads.CountMatchesIsFilterSize(t, p);
      return Ok(Reads.CountMatches(t, p));
    }

    method Filter(name: string, p: (Key, V) -> bool, fault: Fault) returns (r: Result<map<Key, V>>)
      requires Valid()
      modifies this
      ensures Valid() && savepoints == old(savepoints)
      ensures store == AfterReadOpen(old(store), name, fault)
      ensures r.Err? <==> ReadOpenFails(old(store), name, fault)
      ensures r.Ok? ==> r.value == Reads.Filter(TableOrEmpty(old(store), name), p)
    {
      var t :- ReadTable(name, fault);
      return Ok(Reads.Filter(t, p));
    }

    method FilterKeys(name: string, p: (Key, V) -> bool, fault: Fault) returns (r: Result<seq<Key>>)
      requires Valid()
      modifies this
      ensures Valid() && savepoints == old(savepoints)
      ensures store == AfterReadOpen(old(store), name, fault)
      ensures r.Err? <==> ReadOpenFails(old(store), name, fault)
      ensures r.Ok? ==> r.value == Reads.FilterKeys(TableOrEmpty(old(store), name), p)
    {
      var t :- ReadTable(name, fault);
      return Ok(Reads.FilterKeys(t, p));
    }

    /** Every pair of the table. */
    method Table(name: string, fault: Fault) returns (r: Result<map<Key, V>>)
      requires Valid()
      modifies this
      ensures Valid() && savepoints == old(savepoints)
      ensures store == AfterReadOpen(old(store), name, fault)
      ensures r.Err? <==> ReadOpenFails(old(store), name, fault)
      ensures r.Ok? ==> r.value == TableOrEmpty(old(store), name)
    {
      var t :- ReadTable(name, fault);
      return Ok(t);
    }

    method First(name: string, fault: Fault) returns (r: Result<Option<(Key, V)>>)
      requires Valid()
      modifies this
      ensures Valid() && savepoints == old(savepoints)
      ensures store == AfterReadOpen(old(store), name, fault)
      ensures r.Err? <==> ReadOpenFails(old(store), name, fault)
      ensures r.Ok? ==> r.value == Reads.First(TableOrEmpty(old(store), name))
    {
      var t :- ReadTable(name, fault);
      return Ok(Reads.First(t));
    }

    method Last(name: string, fault: Fault) returns (r: Result<Option<(Key, V)>>)
      requires Valid()
      modifies this
      ensures Valid() && savepoints == old(savepoints)
      ensures store == AfterReadOpen(old(store), name, fault)
      ensures r.Err? <==> ReadOpenFails(old(store), name, fault)
      ensures r.Ok? ==> r.value == Reads.Last(TableOrEmpty(old(store), name))
    {
      var t :- ReadTable(name, fault);
      return Ok(Reads.Last(t));
    }

    method FirstKey(name: string, fault: Fault) returns (r: Result<Option<Key>>)
      requires Valid()
      modifies this
      ensures Valid() && savepoints == old(savepoints)
      ensures store == AfterReadOpen(old(store), name, fault)
      ensures r.Err? <==> ReadOpenFails(old(store), name, fault)
      ensures r.Ok? ==> r.value == Reads.FirstKey(TableOrEmpty(old(store), name))
    {
      var t :- ReadTable(name, fault);
      return Ok(Reads.FirstKey(t));
    }

    method LastKey(name: string, fault: Fault) returns (r: Result<Option<Key>>)
      requires Valid()
      modifies this
      ensures Valid() && savepoints == old(savepoints)
      ensures store == AfterReadOpen(old(store), name, fault)
      ensures r.Err? <==> ReadOpenFails(old(store), name, fault)
      ensures r.Ok? ==> r.value == Reads.LastKey(TableOrEmpty(old(store), name))
    {
      var t :- ReadTable(name, fault);
      return Ok(Reads.LastKey(t));
    }

    /** The pairs whose keys lie between the bounds `lo` and `hi`. */
    method Range(name: string, lo: Reads.Bound, hi: Reads.Bound, fault: Fault) returns (r: Result<map<Key, V>>)
      requires Valid()
      modifies this
      ensures Valid() && savepoints == old(savepoints)
      ensures store == AfterReadOpen(old(store), name, fault)
      ensures r.Err? <==> ReadOpenFails(old(store), name, fault)
      ensures r.Ok? ==> r.value == Reads.Range(TableOrEmpty(old(store), name), lo, hi)
    {
      var t :- ReadTable(name, fault);
      return Ok(Reads.Range(t, lo, hi));
    }

    // -------------------------------------------------------------------------
    // Reads of multimap tables (src/generic/multimap_reads.rs): no state changes.

    /** The values of the key, empty when it has none. */
    method MultimapGet(name: string, key: Key, fault: Fault) returns (r: Result<set<Value>>)
      requires Valid()
      ensures r.Err? <==> fault.BeginFails? || fault.OpenFails? || name !in store.multimaps
      ensures name !in store.multimaps && !fault.BeginFails? && !fault.OpenFails?
              ==> r == Err(TableDoesNotExist)
      ensures r.Ok? ==> name in store.multimaps && r.value == ValuesOf(store.multimaps[name], key)
    {
      var table :- ReadMultimapTable(name, fault);
      return Ok(ValuesOf(table, key));
    }

    /** Every key of the multimap table with all of its values. */
    method MultimapTableContents(name: string, fault: Fault) returns (r: Result<MultimapTable>)
      requires Valid()
      ensures r.Err? <==> fault.BeginFails? || fault.OpenFails? || name !in store.multimaps
      ensures name !in store.multimaps && !fault.BeginFails? && !fault.OpenFails?
              ==> r == Err(TableDoesNotExist)
      ensures r.Ok? ==> name in store.multimaps
                        && forall k :: ValuesOf(r.value, k) == ValuesOf(store.multimaps[name], k)
      ensures r.Ok? ==> NoEmptySets(r.value)
    {
      var table :- ReadMultimapTable(name, fault);
      return Ok(table);
    }
  }
}
