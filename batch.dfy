/** What the loops of src/generic/batch_writes.rs compute: a batch is a left fold of
    single-entry steps over the table of one write transaction. Each fold is defined
    with its last element applied last, the order in which the loop applies them. */
module Batch {
  import opened Wrappers
  import opened Ordered
  import opened Reads

  // ---------------------------------------------------------------------------
  // batch_insert

  /** The table after inserting the pairs of `data` one after the other: no key is lost, and
      every key of the batch is present. */
  function InsertAll<V>(t: map<Key, V>, data: seq<(Key, V)>): (r: map<Key, V>)
    ensures t.Keys <= r.Keys
    ensures forall i :: 0 <= i < |data| ==> data[i].0 in r
    decreases |data|
  {
    if data == [] then t
    else
      var (k, v) := data[|data| - 1];
      InsertAll(t, data[..|data| - 1])[k := v]
  }

  /** `data[i]` pairs `k` with `v`, and no later pair of `data` has the key `k`. */
  ghost predicate LastOccurrence<V>(data: seq<(Key, V)>, i: int, k: Key, v: V) {
    0 <= i < |data| && data[i] == (k, v) && forall j :: i < j < |data| ==> data[j].0 != k
  }

  /** A last occurrence in the front of `data` stays the last one when the final pair has
      another key. */
  lemma LastOccurrenceExtends<V>(data: seq<(Key, V)>, i: int, k: Key, v: V)
    requires data != [] && data[|data| - 1].0 != k
    requires LastOccurrence(data[..|data| - 1], i, k, v)
    ensures LastOccurrence(data, i, k, v)
  {
    assert data[i] == data[..|data| - 1][i];
  }

  /** The value paired with `k` at its last occurrence in `data`, if `k` occurs. */
  function LastValueFor<V>(data: seq<(Key, V)>, k: Key): (r: Option<V>)
    ensures r.None? <==> forall i :: 0 <= i < |data| ==> data[i].0 != k
    ensures r.Some? ==> exists i :: LastOccurrence(data, i, k, r.value)
  {
    if data == [] then None
    else if data[|data| - 1].0 == k then
      assert LastOccurrence(data, |data| - 1, k, data[|data| - 1].1);
      Some(data[|data| - 1].1)
    else
      var front := data[..|data| - 1];
      var r := LastValueFor(front, k);
      assert forall i :: 0 <= i < |front| ==> front[i] == data[i];
      assert r.Some? ==> exists i :: LastOccurrence(data, i, k, r.value) by {
        if r.Some? {
          var i :| LastOccurrence(front, i, k, r.value);
          LastOccurrenceExtends(data, i, k, r.value);
        }
      }
      r
  }

  /** After `batch_insert`, a key mentioned in the batch holds the value of its last
      occurrence (the last write wins), and every other key keeps what it had. */
  lemma {:induction false} InsertAllLastWins<V>(t: map<Key, V>, data: seq<(Key, V)>, k: Key)
    ensures Lookup(InsertAll(t, data), k)
            == match LastValueFor(data, k)
               case Some(v) => Some(v)
               case None => Lookup(t, k)
    decreases |data|
  {
    if data != [] {
      InsertAllLastWins(t, data[..|data| - 1], k);
    }
  }

  /** The keys a batch mentions. */
  function KeysOf<V>(data: seq<(Key, V)>): set<Key> {
    set i | 0 <= i < |data| :: data[i].0
  }

  /** The keys after `batch_insert` are the old keys plus the keys of the batch. */
  lemma {:induction false} InsertAllKeys<V>(t: map<Key, V>, data: seq<(Key, V)>)
    ensures InsertAll(t, data).Keys == t.Keys + KeysOf(data)
    decreases |data|
  {
    if data != [] {
      var front := data[..|data| - 1];
      InsertAllKeys(t, front);
      assert KeysOf(data) == KeysOf(front) + {data[|data| - 1].0} by {
        forall x | x in KeysOf(data) ensures x in KeysOf(front) + {data[|data| - 1].0} {
          var i :| 0 <= i < |data| && data[i].0 == x;
          if i < |front| { assert front[i].0 == x; }
        }
      }
    }
  }

  /** A key that the batch does not mention keeps its entry, or stays absent. */
  lemma InsertAllUnmentioned<V>(t: map<Key, V>, data: seq<(Key, V)>, k: Key)
    requires forall i :: 0 <= i < |data| ==> data[i].0 != k
    ensures Lookup(InsertAll(t, data), k) == Lookup(t, k)
  {
    InsertAllLastWins(t, data, k);
  }

  // ---------------------------------------------------------------------------
  // batch_update

  /** The table after editing, one after the other, the listed keys that are present;
      a listed key that is absent at its turn is skipped, so `batch_update` neither adds
      nor removes keys. */
  function UpdateAll<V>(t: map<Key, V>, keys: seq<Key>, edit: (Key, V) -> V): (r: map<Key, V>)
    ensures r.Keys == t.Keys
    decreases |keys|
  {
    if keys == [] then t
    else
      var prev := UpdateAll(t, keys[..|keys| - 1], edit);
      var k := keys[|keys| - 1];
      if k in prev then prev[k := edit(k, prev[k])] else prev
  }

  /** `edit` applied `n` times to `v` under key `k`. */
  function EditTimes<V>(edit: (Key, V) -> V, k: Key, v: V, n: nat): V {
    if n == 0 then v else edit(k, EditTimes(edit, k, v, n - 1))
  }

  /** Each present key ends up edited once per occurrence in the list, every edit seeing the
      value left by the previous ones; a key listed twice is edited twice, an unlisted key
      is untouched. */
  lemma {:induction false} UpdateAllEditsPerOccurrence<V>(t: map<Key, V>, keys: seq<Key>, edit: (Key, V) -> V, k: Key)
    requires k in t
    ensures k in UpdateAll(t, keys, edit)
    ensures UpdateAll(t, keys, edit)[k] == EditTimes(edit, k, t[k], multiset(keys)[k])
    decreases |keys|
  {
    if keys != [] {
      var front := keys[..|keys| - 1];
      UpdateAllEditsPerOccurrence(t, front, edit, k);
      assert keys == front + [keys[|keys| - 1]];
      assert multiset(keys) == multiset(front) + multiset{keys[|keys| - 1]};
    }
  }
}
