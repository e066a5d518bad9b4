/** The queries of src/generic/reads.rs over the contents of one plain table.
    Every scan visits the entries in ascending key order, as the engine's
    ordered iteration does. */
module Reads {
  import opened Wrappers
  import opened Ordered

  /** The value stored under `k`, if any (`get`). */
  function Lookup<V>(t: map<Key, V>, k: Key): (r: Option<V>)
    ensures r.Some? <==> k in t
    ensures r.Some? ==> r.value == t[k]
  {
    if k in t then Some(t[k]) else None
  }

  // ---------------------------------------------------------------------------
  // Predicate scans

  /** Index of the first key of `ks` whose entry satisfies `p` (`Iterator::find`). */
  function FirstMatch<V>(ks: seq<Key>, t: map<Key, V>, p: (Key, V) -> bool): (r: Option<nat>)
    requires forall j :: 0 <= j < |ks| ==> ks[j] in t
    ensures r.Some? ==> r.value < |ks| && p(ks[r.value], t[ks[r.value]])
    ensures r.Some? ==> forall j :: 0 <= j < r.value ==> !p(ks[j], t[ks[j]])
    ensures r.None? ==> forall j :: 0 <= j < |ks| ==> !p(ks[j], t[ks[j]])
  {
    if ks == [] then None
    else if p(ks[0], t[ks[0]]) then Some(0)
    else match FirstMatch(ks[1..], t, p)
      case None => None
      case Some(i) => Some(i + 1)
  }

  /** Index of the last key of `ks` whose entry satisfies `p` (`Iterator::rfind`). */
  function LastMatch<V>(ks: seq<Key>, t: map<Key, V>, p: (Key, V) -> bool): (r: Option<nat>)
    requires forall j :: 0 <= j < |ks| ==> ks[j] in t
    ensures r.Some? ==> r.value < |ks| && p(ks[r.value], t[ks[r.value]])
    ensures r.Some? ==> forall j :: r.value < j < |ks| ==> !p(ks[j], t[ks[j]])
    ensures r.None? ==> forall j :: 0 <= j < |ks| ==> !p(ks[j], t[ks[j]])
  {
    if ks == [] then None
    else if p(ks[|ks| - 1], t[ks[|ks| - 1]]) then Some(|ks| - 1)
    else LastMatch(ks[..|ks| - 1], t, p)
  }

  /** `find`: the matching entry met first in ascending key order. */
  function Find<V>(t: map<Key, V>, p: (Key, V) -> bool): (r: Option<(Key, V)>)
    ensures r.Some? ==> r.value.0 in t && r.value.1 == t[r.value.0] && p(r.value.0, r.value.1)
  {
    var ks := Ascending(t.Keys);
    match FirstMatch(ks, t, p)
    case None => None
    case Some(i) => Some((ks[i], t[ks[i]]))
  }

  /** `rfind`: the matching entry met first in descending key order. */
  function RFind<V>(t: map<Key, V>, p: (Key, V) -> bool): (r: Option<(Key, V)>)
    ensures r.Some? ==> r.value.0 in t && r.value.1 == t[r.value.0] && p(r.value.0, r.value.1)
  {
    var ks := Ascending(t.Keys);
    match LastMatch(ks, t, p)
    case None => None
    case Some(i) => Some((ks[i], t[ks[i]]))
  }

  /** An entry whose key lies before the first match of the ascending scan does not match. */
  lemma BeforeFirstMatch<V>(t: map<Key, V>, p: (Key, V) -> bool, k: Key)
    requires k in t
    ensures var ks := Ascending(t.Keys);
            var r := FirstMatch(ks, t, p);
            r.None? || k < ks[r.value] ==> !p(k, t[k])
  {
    var ks := Ascending(t.Keys);
    var r := FirstMatch(ks, t, p);
    assert k in t.Keys;
    var j :| 0 <= j < |ks| && ks[j] == k;
    if r.Some? && k < ks[r.value] {
      AscendingIndexOrder(ks, j, r.value);
    }
  }

  /** An entry whose key lies after the last match of the ascending scan does not match. */
  lemma AfterLastMatch<V>(t: map<Key, V>, p: (Key, V) -> bool, k: Key)
    requires k in t
    ensures var ks := Ascending(t.Keys);
            var r := LastMatch(ks, t, p);
            r.None? || ks[r.value] < k ==> !p(k, t[k])
  {
    var ks := Ascending(t.Keys);
    var r := LastMatch(ks, t, p);
    assert k in t.Keys;
    var j :| 0 <= j < |ks| && ks[j] == k;
    if r.Some? && ks[r.value] < k {
      AscendingIndexOrder(ks, r.value, j);
    }
  }

  /** `find` answers with the matching entry of least key, and with None exactly when nothing matches. */
  lemma FindIsLeastMatch<V>(t: map<Key, V>, p: (Key, V) -> bool)
    ensures Find(t, p).None? <==> forall k :: k in t ==> !p(k, t[k])
    ensures Find(t, p).Some? ==> forall k :: k in t && k < Find(t, p).value.0 ==> !p(k, t[k])
  {
    forall k | k in t {
      BeforeFirstMatch(t, p, k);
    }
  }

  /** `rfind` answers with the matching entry of greatest key, and with None exactly when nothing matches. */
  lemma RFindIsGreatestMatch<V>(t: map<Key, V>, p: (Key, V) -> bool)
    ensures RFind(t, p).None? <==> forall k :: k in t ==> !p(k, t[k])
    ensures RFind(t, p).Some? ==> forall k :: k in t && RFind(t, p).value.0 < k ==> !p(k, t[k])
  {
    forall k | k in t {
      AfterLastMatch(t, p, k);
    }
  }

  // ---------------------------------------------------------------------------
  // Filters and counts

  /** The keys of `ks`, in their order, that have entries in `t` satisfying `p`. */
  function KeepMatching<V>(ks: seq<Key>, t: map<Key, V>, p: (Key, V) -> bool): (r: seq<Key>)
    ensures forall k :: k in r <==> k in ks && k in t && p(k, t[k])
    ensures StrictlyAscending(ks) ==> StrictlyAscending(r)
    ensures |r| <= |ks|
  {
    if ks == [] then []
    else
      var front := KeepMatching(ks[..|ks| - 1], t, p);
      var k := ks[|ks| - 1];
      assert forall j :: j in ks <==> j in ks[..|ks| - 1] || j == k by {
        assert ks == ks[..|ks| - 1] + [k];
      }
      assert StrictlyAscending(ks) ==> forall j :: 0 <= j < |front| ==> front[j] < k by {
        if StrictlyAscending(ks) {
          forall j | 0 <= j < |front| ensures front[j] < k {
            assert front[j] in front;
            var i :| 0 <= i < |ks| - 1 && ks[i] == front[j];
          }
        }
      }
      if k in t && p(k, t[k]) then front + [k] else front
  }

  /** `filter`: the sub-map of the entries that satisfy `p`. */
  function Filter<V>(t: map<Key, V>, p: (Key, V) -> bool): (r: map<Key, V>)
    ensures forall k :: k in r <==> k in t && p(k, t[k])
    ensures forall k :: k in r ==> r[k] == t[k]
  {
    map k | k in t && p(k, t[k]) :: t[k]
  }

  /** Filtering by a predicate and by its negation splits the table in two: every entry lands
      in exactly one of the results, unchanged, so their sizes add up to the table's. */
  lemma FilterPartitions<V>(t: map<Key, V>, p: (Key, V) -> bool)
    ensures Filter(t, p).Keys !! Filter(t, (k, v) => !p(k, v)).Keys
    ensures Filter(t, p).Keys + Filter(t, (k, v) => !p(k, v)).Keys == t.Keys
    ensures forall k :: k in Filter(t, p) ==> Filter(t, p)[k] == t[k]
    ensures |Filter(t, p)| + |Filter(t, (k, v) => !p(k, v))| == |t|
  {
    var yes := Filter(t, p).Keys;
    var no := Filter(t, (k, v) => !p(k, v)).Keys;
    assert yes + no == t.Keys;
    assert |yes + no| == |yes| + |no|;
    assert |Filter(t, p)| == |yes| && |Filter(t, (k, v) => !p(k, v))| == |no| && |t| == |t.Keys|;
  }

  /** `filter_keys`: the keys of the matching entries, in ascending order. */
  function FilterKeys<V>(t: map<Key, V>, p: (Key, V) -> bool): (r: seq<Key>)
    ensures StrictlyAscending(r)
    ensures forall k :: k in r <==> k in t && p(k, t[k])
    ensures |r| <= |t|
  {
    KeepMatching(Ascending(t.Keys), t, p)
  }

  /** How many keys of `ks` have entries in `t` satisfying `p`. */
  function CountIn<V>(ks: seq<Key>, t: map<Key, V>, p: (Key, V) -> bool): nat
  {
    if ks == [] then 0
    else
      var k := ks[|ks| - 1];
      CountIn(ks[..|ks| - 1], t, p) + (if k in t && p(k, t[k]) then 1 else 0)
  }

  lemma {:induction false} CountInIsKept<V>(ks: seq<Key>, t: map<Key, V>, p: (Key, V) -> bool)
    ensures CountIn(ks, t, p) == |KeepMatching(ks, t, p)|
    decreases |ks|
  {
    if ks != [] {
      CountInIsKept(ks[..|ks| - 1], t, p);
    }
  }

  /** `count_matches`: the number of entries that satisfy `p`, counted along the ascending
      scan; it is the number of keys `filter_keys` lists, and at most the table's size. */
  function CountMatches<V>(t: map<Key, V>, p: (Key, V) -> bool): (r: nat)
    ensures r == |FilterKeys(t, p)|
    ensures r <= |t|
  {
    CountInIsKept(Ascending(t.Keys), t, p);
    CountIn(Ascending(t.Keys), t, p)
  }

  /** `filter_keys` lists exactly the keys of `filter`, in ascending order. */
  lemma FilterKeysAreFilterSorted<V>(t: map<Key, V>, p: (Key, V) -> bool)
    ensures FilterKeys(t, p) == Ascending(Filter(t, p).Keys)
  {
    AscendingUnique(FilterKeys(t, p), Ascending(Filter(t, p).Keys));
  }

  /** `count_matches` is the size of `filter` (and of `filter_keys`) with the same predicate. */
  lemma CountMatchesIsFilterSize<V>(t: map<Key, V>, p: (Key, V) -> bool)
    ensures CountMatches(t, p) == |Filter(t, p)| == |FilterKeys(t, p)|
  {
    FilterKeysAreFilterSorted(t, p);
    assert |Filter(t, p)| == |Filter(t, p).Keys|;
  }

  /** The matches found among a prefix of `ks` are a prefix of those found among all of `ks`. */
  lemma {:induction false} KeepMatchingPrefix<V>(ks: seq<Key>, t: map<Key, V>, p: (Key, V) -> bool, i: nat)
    requires i <= |ks|
    ensures KeepMatching(ks[..i], t, p) <= KeepMatching(ks, t, p)
    decreases |ks| - i
  {
    if i < |ks| {
      KeepMatchingPrefix(ks, t, p, i + 1);
      assert ks[..i + 1][..i] == ks[..i];
    } else {
      assert ks[..i] == ks;
    }
  }

  /** Looking at one more key of `ks` adds it to the matches exactly when its entry satisfies `p`. */
  lemma KeepMatchingStep<V>(ks: seq<Key>, t: map<Key, V>, p: (Key, V) -> bool, i: nat)
    requires i < |ks|
    ensures KeepMatching(ks[..i + 1], t, p)
            == KeepMatching(ks[..i], t, p) + (if ks[i] in t && p(ks[i], t[ks[i]]) then [ks[i]] else [])
  {
    assert ks[..i + 1][..i] == ks[..i];
  }

  /** `find_nth`: walks the entries in ascending key order, counting the matches from zero, and
      answers with the match whose count is `n`; this is the `n`-th key of `filter_keys`. */
  method NthMatch<V>(t: map<Key, V>, n: nat, p: (Key, V) -> bool) returns (r: Option<(Key, V)>)
    ensures r.Some? <==> n < |FilterKeys(t, p)|
    ensures r.Some? ==> r.value.0 == FilterKeys(t, p)[n] && r.value.0 in t && r.value.1 == t[r.value.0]
  {
    var ks := Ascending(t.Keys);
    ghost var matches := KeepMatching(ks, t, p);
    assert matches == FilterKeys(t, p);
    var count := 0;
    var i := 0;
    while i < |ks|
      invariant 0 <= i <= |ks|
      invariant count == |KeepMatching(ks[..i], t, p)| && count <= n
    {
      var k := ks[i];
      KeepMatchingStep(ks, t, p, i);
      if p(k, t[k]) {
        if count == n {
          KeepMatchingPrefix(ks, t, p, i + 1);
          assert KeepMatching(ks[..i + 1], t, p)[n] == k;
          assert matches[n] == k;
          return Some((k, t[k]));
        }
        count := count + 1;
      }
      i := i + 1;
    }
    assert ks[..i] == ks;
    assert count == |matches|;
    return None;
  }

  // ---------------------------------------------------------------------------
  // Ends of the table

  /** `first`: the entry of least key, None on an empty table. */
  function First<V>(t: map<Key, V>): (r: Option<(Key, V)>)
    ensures r.None? <==> |t| == 0
    ensures r.Some? ==> r.value.0 in t && r.value.1 == t[r.value.0]
    ensures r.Some? ==> forall k :: k in t ==> r.value.0 <= k
  {
    if |t.Keys| == 0 then None
    else
      var k := Min(t.Keys);
      Some((k, t[k]))
  }

  /** `last`: the entry of greatest key, None on an empty table. */
  function Last<V>(t: map<Key, V>): (r: Option<(Key, V)>)
    ensures r.None? <==> |t| == 0
    ensures r.Some? ==> r.value.0 in t && r.value.1 == t[r.value.0]
    ensures r.Some? ==> forall k :: k in t ==> k <= r.value.0
  {
    if |t.Keys| == 0 then None
    else
      var k := Max(t.Keys);
      Some((k, t[k]))
  }

  /** `first_key`: the key of `first`. */
  function FirstKey<V>(t: map<Key, V>): (r: Option<Key>)
    ensures r.None? <==> |t| == 0
    ensures r.Some? ==> r.value in t && forall k :: k in t ==> r.value <= k
  {
    match First(t)
    case None => None
    case Some(e) => Some(e.0)
  }

  /** `last_key`: the key of `last`. */
  function LastKey<V>(t: map<Key, V>): (r: Option<Key>)
    ensures r.None? <==> |t| == 0
    ensures r.Some? ==> r.value in t && forall k :: k in t ==> k <= r.value
  {
    match Last(t)
    case None => None
    case Some(e) => Some(e.0)
  }

  /** `first` is the scan `find` with a predicate that accepts every entry. */
  lemma FirstIsFindAny<V>(t: map<Key, V>)
    ensures First(t) == Find(t, (k, v) => true)
  {
    var ks := Ascending(t.Keys);
    if |t.Keys| != 0 {
      assert ks[0] in t.Keys;
      forall k | k in t.Keys ensures ks[0] <= k {
        var j :| 0 <= j < |ks| && ks[j] == k;
      }
    }
  }

  /** `last` is the scan `rfind` with a predicate that accepts every entry. */
  lemma LastIsRFindAny<V>(t: map<Key, V>)
    ensures Last(t) == RFind(t, (k, v) => true)
  {
    if |t.Keys| != 0 {
      AscendingLastIsMax(t.Keys);
    }
  }

  // ---------------------------------------------------------------------------
  // Ranges

  /** One end of a key range, as `RangeBounds` describes it. */
  datatype Bound = Included(key: Key) | Excluded(key: Key) | Unbounded

  predicate AboveLower(k: Key, lo: Bound) {
    match lo
    case Included(b) => b <= k
    case Excluded(b) => b < k
    case Unbounded => true
  }

  predicate BelowUpper(k: Key, hi: Bound) {
    match hi
    case Included(b) => k <= b
    case Excluded(b) => k < b
    case Unbounded => true
  }

  /** `range`: the entries whose keys lie within the bounds, with their values. */
  function Range<V>(t: map<Key, V>, lo: Bound, hi: Bound): (r: map<Key, V>)
    ensures forall k :: k in r <==> k in t && AboveLower(k, lo) && BelowUpper(k, hi)
    ensures forall k :: k in r ==> r[k] == t[k]
  {
    map k | k in t && AboveLower(k, lo) && BelowUpper(k, hi) :: t[k]
  }

  /** Where a scan of the ascending keys `ks` from the lower bound starts: the number of
      leading keys below `lo`. */
  function LowCut(ks: seq<Key>, lo: Bound): (i: nat)
    ensures i <= |ks|
    ensures forall j :: 0 <= j < i ==> !AboveLower(ks[j], lo)
    ensures StrictlyAscending(ks) ==> forall j :: i <= j < |ks| ==> AboveLower(ks[j], lo)
  {
    if ks == [] || AboveLower(ks[0], lo) then 0
    else 1 + LowCut(ks[1..], lo)
  }

  /** Where that scan stops at the upper bound: the number of leading keys within `hi`. */
  function HighCut(ks: seq<Key>, hi: Bound): (i: nat)
    ensures i <= |ks|
    ensures forall j :: 0 <= j < i ==> BelowUpper(ks[j], hi)
    ensures StrictlyAscending(ks) ==> forall j :: i <= j < |ks| ==> !BelowUpper(ks[j], hi)
  {
    if ks == [] || !BelowUpper(ks[0], hi) then 0
    else 1 + HighCut(ks[1..], hi)
  }

  /** A slice of a strictly ascending sequence is strictly ascending and holds exactly the
      elements at the positions it spans. */
  lemma SliceOfAscending(ks: seq<Key>, i: nat, e: nat)
    requires i <= e <= |ks| && StrictlyAscending(ks)
    ensures StrictlyAscending(ks[i..e])
    ensures forall m :: i <= m < e ==> ks[m] in ks[i..e]
    ensures forall k :: k in ks[i..e] ==> exists m :: i <= m < e && ks[m] == k
  {
    var slice := ks[i..e];
    forall a, b | 0 <= a < b < |slice| ensures slice[a] < slice[b] {
      assert slice[a] == ks[i + a] && slice[b] == ks[i + b];
    }
    forall m | i <= m < e ensures ks[m] in slice {
      assert slice[m - i] == ks[m];
    }
    forall k | k in slice ensures exists m :: i <= m < e && ks[m] == k {
      var a :| 0 <= a < |slice| && slice[a] == k;
      assert ks[i + a] == k;
    }
  }

  /** The cut points of the bounds in the ascending keys `ks` of a table enclose exactly the
      keys that lie within the bounds. */
  lemma CutsEncloseRange(ks: seq<Key>, lo: Bound, hi: Bound, k: Key)
    requires StrictlyAscending(ks)
    ensures var i := LowCut(ks, lo);
            var j := HighCut(ks, hi);
            k in ks[i..if i <= j then j else i] <==> k in ks && AboveLower(k, lo) && BelowUpper(k, hi)
  {
    var i := LowCut(ks, lo);
    var j := HighCut(ks, hi);
    var e := if i <= j then j else i;
    SliceOfAscending(ks, i, e);
    if k in ks && AboveLower(k, lo) && BelowUpper(k, hi) {
      var m :| 0 <= m < |ks| && ks[m] == k;
      assert i <= m < e;
    }
  }

  /** The ascending keys of a range are one slice of the table's ascending keys, from the
      first key not below `lo` up to the first key beyond `hi`: the entries the engine's
      range scan yields, in its order. */
  lemma RangeIsSortedSlice<V>(t: map<Key, V>, lo: Bound, hi: Bound)
    ensures var ks := Ascending(t.Keys);
            var i := LowCut(ks, lo);
            var j := HighCut(ks, hi);
            Ascending(Range(t, lo, hi).Keys) == ks[i..if i <= j then j else i]
  {
    var ks := Ascending(t.Keys);
    var i := LowCut(ks, lo);
    var j := HighCut(ks, hi);
    var e := if i <= j then j else i;
    var r := Range(t, lo, hi);
    SliceOfAscending(ks, i, e);
    forall k ensures k in ks[i..e] <==> k in r.Keys {
      CutsEncloseRange(ks, lo, hi, k);
    }
    AscendingUnique(ks[i..e], Ascending(r.Keys));
  }

  /** The keys of a range form one contiguous run of the table's ascending keys. */
  lemma {:induction false} RangeIsContiguous<V>(t: map<Key, V>, lo: Bound, hi: Bound, i: nat, j: nat, m: nat)
    requires i <= m <= j < |Ascending(t.Keys)|
    requires Ascending(t.Keys)[i] in Range(t, lo, hi) && Ascending(t.Keys)[j] in Range(t, lo, hi)
    ensures Ascending(t.Keys)[m] in Range(t, lo, hi)
  {
    var ks := Ascending(t.Keys);
    assert ks[i] <= ks[m] <= ks[j];
    assert ks[m] in t.Keys;
  }
}
