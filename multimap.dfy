/** The contents of one multimap table and the steps the loops of
    src/generic/multimap_writes.rs apply to it. A multimap table maps each key to the
    set of its values; the engine keeps no key whose set is empty, so a key without
    values is simply absent. */
module Multimap {
  import opened Ordered

  /** Multimap values. The source requires them to be totally ordered
      (`remove_all` reports them in ascending order); the integers stand in for them. */
  type Value = int

  type MultimapTable = map<Key, set<Value>>

  /** The engine's representation invariant: no key is kept with an empty value set. */
  ghost predicate NoEmptySets(m: MultimapTable) {
    forall k :: k in m ==> m[k] != {}
  }

  /** The values mapped to `k`, empty when `k` has none (`multimap_get`). */
  function ValuesOf(m: MultimapTable, k: Key): set<Value> {
    if k in m then m[k] else {}
  }

  /** The elements of a sequence of values. */
  function Elements(vs: seq<Value>): set<Value> {
    set v | v in vs
  }

  /** The engine's multimap `insert`: adds `v` to the values of `k`. */
  function AddValue(m: MultimapTable, k: Key, v: Value): (r: MultimapTable)
    ensures ValuesOf(r, k) == ValuesOf(m, k) + {v}
    ensures forall j :: j != k ==> ValuesOf(r, j) == ValuesOf(m, j)
    ensures NoEmptySets(m) ==> NoEmptySets(r)
  {
    m[k := ValuesOf(m, k) + {v}]
  }

  /** The engine's multimap `remove`: takes `v` out of the values of `k`; a key left
      without values disappears. */
  function RemoveValue(m: MultimapTable, k: Key, v: Value): (r: MultimapTable)
    ensures ValuesOf(r, k) == ValuesOf(m, k) - {v}
    ensures forall j :: j != k ==> ValuesOf(r, j) == ValuesOf(m, j)
    ensures NoEmptySets(m) ==> NoEmptySets(r)
  {
    var rest := ValuesOf(m, k) - {v};
    if rest == {} then m - {k} else m[k := rest]
  }

  /** The loop `for v in values { table.insert(key, v) }`: the key keeps its values and gains
      every listed one; the other keys are untouched. */
  function AddValues(m: MultimapTable, k: Key, vs: seq<Value>): (r: MultimapTable)
    ensures ValuesOf(m, k) <= ValuesOf(r, k)
    ensures forall i :: 0 <= i < |vs| ==> vs[i] in ValuesOf(r, k)
    ensures forall j :: j != k ==> ValuesOf(r, j) == ValuesOf(m, j)
    decreases |vs|
  {
    if vs == [] then m
    else AddValue(AddValues(m, k, vs[..|vs| - 1]), k, vs[|vs| - 1])
  }

  /** Inserting a sequence of values under one key adds exactly its elements to that key
      and leaves every other key as it was. */
  lemma {:induction false} AddValuesUnion(m: MultimapTable, k: Key, vs: seq<Value>)
    ensures ValuesOf(AddValues(m, k, vs), k) == ValuesOf(m, k) + Elements(vs)
    ensures forall j :: j != k ==> ValuesOf(AddValues(m, k, vs), j) == ValuesOf(m, j)
    ensures NoEmptySets(m) ==> NoEmptySets(AddValues(m, k, vs))
    decreases |vs|
  {
    if vs != [] {
      var front := vs[..|vs| - 1];
      AddValuesUnion(m, k, front);
      assert vs == front + [vs[|vs| - 1]];
      assert Elements(vs) == Elements(front) + {vs[|vs| - 1]};
    }
  }

  /** The nested loop of `multimap_batch_insert`: every value of every listed key. No key
      loses a value, and each listed value ends up under its key. */
  function AddAll(m: MultimapTable, data: seq<(Key, seq<Value>)>): (r: MultimapTable)
    ensures forall j :: ValuesOf(m, j) <= ValuesOf(r, j)
    ensures forall i :: 0 <= i < |data| ==> Elements(data[i].1) <= ValuesOf(r, data[i].0)
    decreases |data|
  {
    if data == [] then m
    else
      var (k, vs) := data[|data| - 1];
      AddValues(AddAll(m, data[..|data| - 1]), k, vs)
  }

  /** How many single-value inserts the nested loop of `multimap_batch_insert` performs. */
  function ValueCount(data: seq<(Key, seq<Value>)>): nat
    decreases |data|
  {
    if data == [] then 0 else ValueCount(data[..|data| - 1]) + |data[|data| - 1].1|
  }

  /** A prefix of a batch performs no more inserts than the whole batch. */
  lemma {:induction false} ValueCountPrefix(data: seq<(Key, seq<Value>)>, i: nat)
    requires i <= |data|
    ensures ValueCount(data[..i]) <= ValueCount(data)
    decreases |data|
  {
    if i < |data| {
      var front := data[..|data| - 1];
      assert data[..i] == front[..i];
      ValueCountPrefix(front, i);
    } else {
      assert data[..i] == data;
    }
  }

  /** All the values that `data` lists for the key `k`. */
  function ListedFor(data: seq<(Key, seq<Value>)>, k: Key): set<Value>
    decreases |data|
  {
    if data == [] then {}
    else
      var (j, vs) := data[|data| - 1];
      ListedFor(data[..|data| - 1], k) + (if j == k then Elements(vs) else {})
  }

  /** After `multimap_batch_insert`, each key holds its old values plus every value the
      batch lists for it; a key the batch does not list keeps its values. */
  lemma {:induction false} AddAllUnion(m: MultimapTable, data: seq<(Key, seq<Value>)>, k: Key)
    ensures ValuesOf(AddAll(m, data), k) == ValuesOf(m, k) + ListedFor(data, k)
    decreases |data|
  {
    if data != [] {
      var (j, vs) := data[|data| - 1];
      var front := data[..|data| - 1];
      AddAllUnion(m, front, k);
      AddValuesUnion(AddAll(m, front), j, vs);
    }
  }

  /** A key that no entry of the batch names gets no values from it. */
  lemma {:induction false} ListedForUnnamed(data: seq<(Key, seq<Value>)>, k: Key)
    requires forall i :: 0 <= i < |data| ==> data[i].0 != k
    ensures ListedFor(data, k) == {}
    decreases |data|
  {
    if data != [] {
      ListedForUnnamed(data[..|data| - 1], k);
    }
  }

  /** `multimap_batch_insert` keeps the no-empty-set invariant. */
  lemma {:induction false} AddAllKeepsNoEmptySets(m: MultimapTable, data: seq<(Key, seq<Value>)>)
    requires NoEmptySets(m)
    ensures NoEmptySets(AddAll(m, data))
    decreases |data|
  {
    if data != [] {
      var (j, vs) := data[|data| - 1];
      AddAllKeepsNoEmptySets(m, data[..|data| - 1]);
      AddValuesUnion(AddAll(m, data[..|data| - 1]), j, vs);
    }
  }

  /** Once every key of `reference` has been removed from `table`, a table whose keys all
      come from `reference` is empty. */
  lemma NothingLeft(reference: MultimapTable, table: MultimapTable, removed: seq<Key>)
    requires forall k :: k in reference ==> k in removed
    requires table.Keys <= reference.Keys
    requires forall j :: 0 <= j < |removed| ==> removed[j] !in table
    ensures table == map[]
  {
    forall k
      ensures k !in table
    {
      if k in reference {
        var j :| 0 <= j < |removed| && removed[j] == k;
      }
    }
  }

  /** `multimap_assign`: the old values of `k` are removed, then the new ones inserted. */
  function Assign(m: MultimapTable, k: Key, vs: seq<Value>): (r: MultimapTable)
    ensures Elements(vs) <= ValuesOf(r, k)
    ensures forall j :: j != k ==> ValuesOf(r, j) == ValuesOf(m, j)
  {
    AddValues(m - {k}, k, vs)
  }

  /** After `multimap_assign`, the key holds exactly the given values, with nothing kept
      from before, and every other key is unchanged. */
  lemma AssignReplaces(m: MultimapTable, k: Key, vs: seq<Value>)
    ensures ValuesOf(Assign(m, k, vs), k) == Elements(vs)
    ensures forall j :: j != k ==> ValuesOf(Assign(m, k, vs), j) == ValuesOf(m, j)
    ensures NoEmptySets(m) ==> NoEmptySets(Assign(m, k, vs))
  {
    AddValuesUnion(m - {k}, k, vs);
    forall j | j != k ensures ValuesOf(m - {k}, j) == ValuesOf(m, j) {
    }
  }
}
