/** The total order on keys that the engine's ordered tables rely on, and the
    ascending enumeration of a finite key set that every scan of a table follows. */
module Ordered {

  /** Table keys. Any totally ordered key type can be used in the source; the
      model uses the integers with their natural order in its place. */
  type Key = int

  ghost predicate StrictlyAscending(s: seq<Key>) {
    forall i, j :: 0 <= i < j < |s| ==> s[i] < s[j]
  }

  /** A non-empty key set has an element. */
  lemma Inhabited(s: set<Key>)
    requires s != {}
    ensures exists x :: x in s
  {
    if forall x :: x !in s {
      assert false;
    }
  }

  lemma {:induction false} MinExists(s: set<Key>)
    requires s != {}
    ensures exists m :: m in s && forall y :: y in s ==> m <= y
  {
    Inhabited(s);
    var x :| x in s;
    if s != {x} {
      MinExists(s - {x});
      var m :| m in s - {x} && forall y :: y in s - {x} ==> m <= y;
      var least := if x < m then x else m;
      forall y | y in s ensures least <= y {
        if y != x { assert y in s - {x}; }
      }
    } else {
      assert forall y :: y in s ==> y == x;
    }
  }

  lemma {:induction false} MaxExists(s: set<Key>)
    requires s != {}
    ensures exists m :: m in s && forall y :: y in s ==> y <= m
  {
    Inhabited(s);
    var x :| x in s;
    if s != {x} {
      MaxExists(s - {x});
      var m :| m in s - {x} && forall y :: y in s - {x} ==> y <= m;
      var greatest := if m < x then x else m;
      forall y | y in s ensures y <= greatest {
        if y != x { assert y in s - {x}; }
      }
    } else {
      assert forall y :: y in s ==> y == x;
    }
  }

  /** The least element of a non-empty key set (what an ordered table reports as its first key). */
  function Min(s: set<Key>): (m: Key)
    requires s != {}
    ensures m in s && forall y :: y in s ==> m <= y
  {
    MinExists(s);
    var m :| m in s && forall y :: y in s ==> m <= y;
    m
  }

  /** The greatest element of a non-empty key set (what an ordered map reports as its last key). */
  function Max(s: set<Key>): (m: Key)
    requires s != {}
    ensures m in s && forall y :: y in s ==> y <= m
  {
    MaxExists(s);
    var m :| m in s && forall y :: y in s ==> y <= m;
    m
  }

  /** The elements of `s` in ascending order, each once: the order in which the engine iterates
      the keys of a table, and the values of a multimap key. */
  function Ascending(s: set<Key>): (r: seq<Key>)
    ensures StrictlyAscending(r)
    ensures forall k :: k in r <==> k in s
    ensures forall i :: 0 <= i < |r| ==> r[i] in s
    ensures |r| == |s|
    decreases |s|
  {
    if s == {} then []
    else
      var m := Min(s);
      var rest := Ascending(s - {m});
      assert forall i :: 0 <= i < |rest| ==> m < rest[i] by {
        forall i | 0 <= i < |rest| ensures m < rest[i] {
          assert rest[i] in s - {m};
        }
      }
      [m] + rest
  }

  /** Two strictly ascending sequences with the same elements are the same sequence:
      an ordered enumeration of a key set is unique. */
  lemma {:induction false} AscendingUnique(a: seq<Key>, b: seq<Key>)
    requires StrictlyAscending(a) && StrictlyAscending(b)
    requires forall k :: k in a <==> k in b
    ensures a == b
  {
    if a == [] || b == [] {
      SameElementsBothEmpty(a, b);
    } else {
      assert a[0] in a && b[0] in b;
      var j :| 0 <= j < |b| && b[j] == a[0];
      var i :| 0 <= i < |a| && a[i] == b[0];
      assert a[0] == b[0];
      forall k ensures k in a[1..] <==> k in b[1..] {
        if k in a[1..] {
          var i :| 1 <= i < |a| && a[i] == k;
          assert k in b && k != b[0];
        }
        if k in b[1..] {
          var i :| 1 <= i < |b| && b[i] == k;
          assert k in a && k != a[0];
        }
      }
      AscendingUnique(a[1..], b[1..]);
      assert a == [a[0]] + a[1..];
      assert b == [b[0]] + b[1..];
    }
  }

  /** In a strictly ascending sequence, positions are ordered as their elements are. */
  lemma AscendingIndexOrder(s: seq<Key>, a: nat, b: nat)
    requires StrictlyAscending(s) && a < |s| && b < |s| && s[a] < s[b]
    ensures a < b
  {
  }

  /** Two sequences with the same elements are empty together: a non-empty one holds a first
      element the other one lacks. */
  lemma SameElementsBothEmpty(a: seq<Key>, b: seq<Key>)
    requires forall k :: k in a <==> k in b
    ensures a == [] <==> b == []
  {
    if a != [] {
      var first := a[0];
      assert first in a;
      assert first in b;
    }
    if b != [] {
      var first := b[0];
      assert first in b;
      assert first in a;
    }
  }

  /** The last key of the ascending enumeration is the greatest key. */
  lemma AscendingLastIsMax(s: set<Key>)
    requires s != {}
    ensures |Ascending(s)| > 0 && Ascending(s)[|Ascending(s)| - 1] == Max(s)
  {
    var ks := Ascending(s);
    var m := Max(s);
    assert m in ks;
    var j :| 0 <= j < |ks| && ks[j] == m;
    assert ks[|ks| - 1] in s;
    assert j == |ks| - 1;
  }
}
