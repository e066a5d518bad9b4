/** Scenarios: call sequences on a fresh, empty database with no engine failure, whose
    outcomes are proved from the method contracts. `InsertAndGet`, `BatchInsertAndFilter` and
    `SavepointAndRestore` follow src/test.rs; the others follow what the doc comments promise
    for savepoints (src/save.rs), multimap assignment, `try_add`, `update`, table deletion
    and reads of missing tables. */
module Scenarios {
  import opened Wrappers
  import opened Storage
  import opened Database
  import Multimap
  import Batch

  /** The record stored by the tests (`TestStruct { a: u32, b: String }`). */
  type Record = (int, string)

  const TestTable := "test_table"

  function EmptyStore(): Store<Record> {
    Store(map[], map[])
  }

  /** A value inserted under a key is read back by `get`. */
  method InsertAndGet() returns (got: Result<Option<Record>>)
    ensures got == Ok(Some((10, "ten")))
  {
    var db := new CakeDb<Record>(EmptyStore());
    var previous := db.Insert(TestTable, 1, (10, "ten"), NoFault);
    got := db.Get(TestTable, 1, NoFault);
  }

  /** After a batch insert of three records, two of them have an odd `a`. */
  method BatchInsertAndFilter() returns (found: Result<map<int, Record>>)
    ensures found.Ok? && |found.value| == 2
  {
    var db := new CakeDb<Record>(EmptyStore());
    var data := [(1, (1, "one")), (2, (2, "two")), (3, (3, "three"))];
    var inserted := db.BatchInsert(TestTable, data, NoFault);
    assert data[..2] == [(1, (1, "one")), (2, (2, "two"))] && data[..2][..1] == [(1, (1, "one"))];
    var none: map<int, Record> := map[];
    assert Batch.InsertAll(none, data[..2][..1]) == map[1 := (1, "one")];
    assert Batch.InsertAll(none, data[..2]) == map[1 := (1, "one"), 2 := (2, "two")];
    assert db.store.tables[TestTable] == map[1 := (1, "one"), 2 := (2, "two"), 3 := (3, "three")];
    found := db.Filter(TestTable, (k: int, v: Record) => v.0 % 2 == 1, NoFault);
    assert found.value.Keys == {1, 3};
  }

  /** A pair inserted after a savepoint is gone once the savepoint is loaded. */
  method SavepointAndRestore() returns (key: Result<nat>, before: Result<Option<Record>>, after: Result<Option<Record>>)
    ensures key == Ok(0)
    ensures before == Ok(Some((4, "four")))
    ensures after == Ok(None)
  {
    var db := new CakeDb<Record>(EmptyStore());
    key := db.Savepoint(0, NoFault);
    var previous := db.Insert(TestTable, 1, (4, "four"), NoFault);
    before := db.Get(TestTable, 1, NoFault);
    var loaded := db.LoadSavepoint(key.value, NoFault);
    after := db.Get(TestTable, 1, NoFault);
  }

  /** Loading an earlier savepoint invalidates a later one, while the earlier one can be loaded
      again; the next savepoint then receives the key of the invalidated one. */
  method SavepointInvalidation() returns (first: Result<()>, later: Result<()>, again: Result<()>, next: Result<nat>)
    ensures first.Ok? && again.Ok?
    ensures later == Err(SavepointNotFound(1))
    ensures next == Ok(1)
  {
    var db := new CakeDb<Record>(EmptyStore());
    var p1 := db.Savepoint(0, NoFault);
    var p2 := db.Savepoint(1, NoFault);
    assert db.savepoints.Keys == {0, 1};
    first := db.LoadSavepoint(0, NoFault);
    assert db.savepoints.Keys == {0};
    later := db.LoadSavepoint(1, NoFault);
    again := db.LoadSavepoint(0, NoFault);
    next := db.Savepoint(2, NoFault);
  }

  /** Clearing the index makes the next savepoint key 0 again. */
  method ClearThenSavepoint() returns (keys: seq<Result<nat>>)
    ensures keys == [Ok(0), Ok(1), Ok(0)]
  {
    var db := new CakeDb<Record>(EmptyStore());
    var a := db.Savepoint(0, NoFault);
    var b := db.Savepoint(1, NoFault);
    db.ClearSavepoints();
    var c := db.Savepoint(2, NoFault);
    keys := [a, b, c];
  }

  /** `multimap_assign` replaces the values of a key rather than adding to them. */
  method MultimapAssignReplaces() returns (replaced: Result<bool>, got: Result<set<int>>)
    ensures replaced == Ok(true)
    ensures got == Ok({30})
  {
    var db := new CakeDb<Record>(EmptyStore());
    var added := db.MultimapInsertValues("tags", 7, [10, 20], NoFault);
    replaced := db.MultimapAssign("tags", 7, [30], NoFault);
    got := db.MultimapGet("tags", 7, NoFault);
    assert Multimap.Elements([30]) == {30};
  }

  /** The second `try_add` of a key reports false and keeps the first value. */
  method TryAddTwice() returns (first: Result<bool>, second: Result<bool>, got: Result<Option<Record>>)
    ensures first == Ok(true) && second == Ok(false)
    ensures got == Ok(Some((5, "v")))
  {
    var db := new CakeDb<Record>(EmptyStore());
    first := db.TryAdd(TestTable, 5, (5, "v"), NoFault);
    second := db.TryAdd(TestTable, 5, (6, "v2"), NoFault);
    got := db.Get(TestTable, 5, NoFault);
  }

  /** `update` returns the old value and stores the edited one; deleting the table reports true,
      deleting it again false; `update` of a key that is not there is an error. */
  method UpdateThenDelete() returns (old1: Result<Record>, got: Result<Option<Record>>,
                                     deleted: Result<bool>, deletedAgain: Result<bool>,
                                     missing: Result<Record>)
    ensures old1 == Ok((10, "ten"))
    ensures got == Ok(Some((10, "TEN")))
    ensures deleted == Ok(true) && deletedAgain == Ok(false)
    ensures missing == Err(KeyNotFound)
  {
    var db := new CakeDb<Record>(EmptyStore());
    var i1 := db.Insert(TestTable, 1, (10, "ten"), NoFault);
    var i2 := db.Insert(TestTable, 2, (20, "twenty"), NoFault);
    old1 := db.Update(TestTable, 1, (v: Record) => (v.0, "TEN"), NoFault);
    got := db.Get(TestTable, 1, NoFault);
    deleted := db.DeleteTable(TestTable, NoFault);
    deletedAgain := db.DeleteTable(TestTable, NoFault);
    missing := db.Update(TestTable, 1, (v: Record) => (v.0, "TEN"), NoFault);
  }

  /** A plain read of a missing table sees it empty and creates it; a multimap read of a name
      that no table has ever used fails and creates nothing. */
  method MissingTables() returns (plain: Result<Option<Record>>, multi: Result<set<int>>, created: bool)
    ensures plain == Ok(None) && created
    ensures multi == Err(TableDoesNotExist)
  {
    var db := new CakeDb<Record>(EmptyStore());
    plain := db.Get("absent", 1, NoFault);
    created := "absent" in db.store.tables;
    multi := db.MultimapGet("absent_tags", 1, NoFault);
  }
}
