/** What the single-key writes of src/generic/writes.rs do to the table of their write
    transaction, and the results they report. The transaction around each step (begin,
    open, commit, and the abort on an early error) is modelled by the `CakeDb` class. */
module Writes {
  import opened Wrappers
  import opened Ordered
  import opened Reads

  /** `try_add`: stores the pair only when the key is absent, and reports whether it did. */
  function TryAddStep<V>(t: map<Key, V>, k: Key, v: V): (r: (map<Key, V>, bool))
    ensures r.1 <==> Lookup(t, k).None?
    ensures Lookup(r.0, k) == if r.1 then Some(v) else Lookup(t, k)
    ensures forall j :: j != k ==> Lookup(r.0, j) == Lookup(t, j)
    ensures !r.1 ==> r.0 == t
  {
    if k in t then (t, false) else (t[k := v], true)
  }

  /** `insert`: maps the key to the value, overwriting, and returns the previous value. */
  function InsertStep<V>(t: map<Key, V>, k: Key, v: V): (r: (map<Key, V>, Option<V>))
    ensures Lookup(r.0, k) == Some(v)
    ensures r.1 == Lookup(t, k)
    ensures forall j :: j != k ==> Lookup(r.0, j) == Lookup(t, j)
    ensures r.0.Keys == t.Keys + {k}
  {
    (t[k := v], Lookup(t, k))
  }

  /** `update`: replaces the value of a present key by its edited copy and returns the old
      value; an absent key is an error, before `edit` is ever applied. */
  function UpdateStep<V>(t: map<Key, V>, k: Key, edit: V -> V): (r: Result<(map<Key, V>, V)>)
    ensures r.Err? <==> k !in t
    ensures r.Err? ==> r.error == KeyNotFound
    ensures r.Ok? ==> k in t && r.value.1 == t[k] && Lookup(r.value.0, k) == Some(edit(t[k]))
    ensures r.Ok? ==> forall j :: j != k ==> Lookup(r.value.0, j) == Lookup(t, j)
    ensures r.Ok? ==> r.value.0.Keys == t.Keys
  {
    if k !in t then Err(KeyNotFound)
    else
      var edited := edit(t[k]);
      Ok((t[k := edited], t[k]))
  }

  /** `remove`: deletes the key and returns the value it had, if any. */
  function RemoveStep<V>(t: map<Key, V>, k: Key): (r: (map<Key, V>, Option<V>))
    ensures Lookup(r.0, k) == None
    ensures r.1 == Lookup(t, k)
    ensures forall j :: j != k ==> Lookup(r.0, j) == Lookup(t, j)
    ensures r.1.None? ==> r.0 == t
  {
    (t - {k}, Lookup(t, k))
  }

  /** On an absent key, `try_add` and `insert` leave the same table. */
  lemma TryAddAbsentIsInsert<V>(t: map<Key, V>, k: Key, v: V)
    requires k !in t
    ensures TryAddStep(t, k, v).0 == InsertStep(t, k, v).0
    ensures TryAddStep(t, k, v).1 && InsertStep(t, k, v).1 == None
  {
  }

  /** A second `try_add` of the same key reports false and changes nothing, whatever value
      it carries. */
  lemma TryAddTwice<V>(t: map<Key, V>, k: Key, v: V, w: V)
    ensures var t1 := TryAddStep(t, k, v).0;
            TryAddStep(t1, k, w) == (t1, false) && Lookup(t1, k).Some?
  {
  }

  /** Removing a key that was just inserted into a table without it gives the table back,
      and returns the inserted value. */
  lemma RemoveUndoesInsert<V>(t: map<Key, V>, k: Key, v: V)
    requires k !in t
    ensures RemoveStep(InsertStep(t, k, v).0, k) == (t, Some(v))
  {
    assert InsertStep(t, k, v).0 - {k} == t;
  }

  /** Inserting the same pair twice is the same as inserting it once; the second insert
      returns the value of the first. */
  lemma InsertIdempotent<V>(t: map<Key, V>, k: Key, v: V)
    ensures var t1 := InsertStep(t, k, v).0;
            InsertStep(t1, k, v) == (t1, Some(v))
  {
    var t1 := InsertStep(t, k, v).0;
    assert t1[k := v] == t1;
  }

  /** On a present key, `update` leaves the table that inserting the edited value would,
      and returns what that insert would return. */
  lemma UpdateIsInsertOfEdit<V>(t: map<Key, V>, k: Key, edit: V -> V)
    requires k in t
    ensures UpdateStep(t, k, edit).Ok?
    ensures UpdateStep(t, k, edit).value.0 == InsertStep(t, k, edit(t[k])).0
    ensures Some(UpdateStep(t, k, edit).value.1) == InsertStep(t, k, edit(t[k])).1
  {
  }
}
