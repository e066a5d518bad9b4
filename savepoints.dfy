/** The savepoint index of src/save.rs: an ordered map from savepoint keys to saved states.
    The two pieces of logic the layer owns over it are the choice of the next key and the
    invalidation of later savepoints after a restore. */
module SavepointIndex {
  import opened Ordered

  /** The key a new savepoint receives: one more than the largest key in the index, or 0
      when the index is empty. It is fresh, and above every key in use. */
  function NextKey<S>(index: map<nat, S>): (r: nat)
    ensures r !in index
    ensures forall k :: k in index ==> k < r
    ensures index == map[] ==> r == 0
    ensures index != map[] ==> r - 1 in index
  {
    if index.Keys == {} then 0
    else
      var m := Max(index.Keys);
      assert m in index;
      m + 1
  }

  /** The index after restoring the savepoint `key`: the savepoints taken after it are
      dropped, the others, `key` itself included, are kept with their states. */
  function KeepUpTo<S>(index: map<nat, S>, key: nat): (r: map<nat, S>)
    ensures forall k :: k in r <==> k in index && k <= key
    ensures forall k :: k in r ==> r[k] == index[k]
  {
    map k | k in index && k <= key :: index[k]
  }

  /** Restoring a savepoint leaves it loadable, with the state it held. */
  lemma RestoredStaysLoadable<S>(index: map<nat, S>, key: nat)
    requires key in index
    ensures key in KeepUpTo(index, key) && KeepUpTo(index, key)[key] == index[key]
  {
  }

  /** After a restore of `key`, the next savepoint receives `key + 1`: the keys of the
      savepoints that the restore dropped are handed out again. */
  lemma NextKeyAfterRestore<S>(index: map<nat, S>, key: nat)
    requires key in index
    ensures NextKey(KeepUpTo(index, key)) == key + 1
  {
    var kept := KeepUpTo(index, key);
    assert key in kept;
    var r := NextKey(kept);
    assert r - 1 <= key;
  }

  /** Keys are handed out in increasing order: while nothing is restored or cleared, each
      savepoint's key is larger than the keys of all savepoints taken before it. */
  lemma NextKeyIncreases<S>(index: map<nat, S>, s: S)
    ensures NextKey(index[NextKey(index) := s]) == NextKey(index) + 1
  {
    var k := NextKey(index);
    var after := index[k := s];
    var r := NextKey(after);
    assert k in after;
    assert r - 1 in after;
  }

  /** Restoring twice in a row to the same savepoint drops nothing the second time. */
  lemma KeepUpToIdempotent<S>(index: map<nat, S>, key: nat)
    ensures KeepUpTo(KeepUpTo(index, key), key) == KeepUpTo(index, key)
  {
  }
}
