/**
 * Java's `NavigableMap` with integer keys (the `TreeMap` of the hash ring and
 * the `ConcurrentSkipListMap` of timestamped responses), as its entries in
 * strictly ascending key order.
 */
module NavMap {

  predicate Sorted<V>(m: seq<(int, V)>) {
    forall i, j :: 0 <= i < j < |m| ==> m[i].0 < m[j].0
  }

  /** `containsKey`. */
  predicate ContainsKey<V>(m: seq<(int, V)>, k: int) {
    exists i :: 0 <= i < |m| && m[i].0 == k
  }

  /** `values()`: the values in ascending key order. */
  function Values<V>(m: seq<(int, V)>): (vs: seq<V>)
    ensures |vs| == |m|
    ensures forall i :: 0 <= i < |m| ==> vs[i] == m[i].1
  {
    if m == [] then [] else [m[0].1] + Values(m[1..])
  }

  lemma ValuesConcat<V>(a: seq<(int, V)>, b: seq<(int, V)>)
    ensures Values(a + b) == Values(a) + Values(b)
  {
    assert forall i :: 0 <= i < |a + b| ==> Values(a + b)[i] == (Values(a) + Values(b))[i];
  }

  /**
   * `put(k, v)`: a new key is inserted at its place in the order; an existing
   * key has its value replaced. Nothing else changes.
   */
  function Put<V>(m: seq<(int, V)>, k: int, v: V): (r: seq<(int, V)>)
    ensures |m| <= |r| <= |m| + 1
  {
    if m == [] || k < m[0].0 then [(k, v)] + m
    else if m[0].0 == k then [(k, v)] + m[1..]
    else [m[0]] + Put(m[1..], k, v)
  }

  /** `put` keeps the keys ascending, stores `(k, v)`, and keeps every other entry. */
  lemma PutEntries<V>(m: seq<(int, V)>, k: int, v: V)
    requires Sorted(m)
    ensures var r := Put(m, k, v);
      && Sorted(r)
      && (k, v) in r
      && (forall i :: 0 <= i < |r| ==> r[i] == (k, v) || r[i] in m)
      && (forall i :: 0 <= i < |m| && m[i].0 != k ==> m[i] in r)
  {
    PutMembers(m, k, v);
    PutSorted(m, k, v);
  }

  /** The entries after `put(k, v)`: `(k, v)` and every old entry with another key. */
  lemma {:induction false} PutMembers<V>(m: seq<(int, V)>, k: int, v: V)
    requires Sorted(m)
    ensures forall e :: e in Put(m, k, v) <==> e == (k, v) || (e in m && e.0 != k)
  {
    if m == [] || k < m[0].0 {
      assert Put(m, k, v) == [(k, v)] + m;
      forall e | e in m ensures e.0 != k {
        var i :| 0 <= i < |m| && m[i] == e;
        assert i == 0 || m[0].0 < m[i].0;
      }
    } else if m[0].0 == k {
      assert Put(m, k, v) == [(k, v)] + m[1..];
      assert m == [m[0]] + m[1..];
      forall e | e in m[1..] ensures e.0 != k {
        var i :| 0 <= i < |m[1..]| && m[1..][i] == e;
        assert m[0].0 < m[i + 1].0;
      }
    } else {
      SortedTail(m);
      PutMembers(m[1..], k, v);
      assert Put(m, k, v) == [m[0]] + Put(m[1..], k, v);
      assert m == [m[0]] + m[1..];
    }
  }

  /** `put` keeps the keys strictly ascending. */
  lemma {:induction false} PutSorted<V>(m: seq<(int, V)>, k: int, v: V)
    requires Sorted(m)
    ensures Sorted(Put(m, k, v))
  {
    if m == [] || k < m[0].0 {
      assert forall j :: 0 <= j < |m| ==> k < m[j].0 by {
        forall j | 0 <= j < |m| ensures k < m[j].0 {
          assert j == 0 || m[0].0 < m[j].0;
        }
      }
      ConsSorted((k, v), m);
    } else if m[0].0 == k {
      SortedTail(m);
      ConsSorted((k, v), m[1..]);
    } else {
      SortedTail(m);
      PutSorted(m[1..], k, v);
      PutAbove(m[1..], k, v, m[0].0);
      ConsSorted(m[0], Put(m[1..], k, v));
    }
  }

  /** `put` of a key above `lo` into a map whose keys are all above `lo` leaves them all above `lo`. */
  lemma {:induction false} PutAbove<V>(m: seq<(int, V)>, k: int, v: V, lo: int)
    requires lo < k && forall j :: 0 <= j < |m| ==> lo < m[j].0
    ensures forall j :: 0 <= j < |Put(m, k, v)| ==> lo < Put(m, k, v)[j].0
  {
    var r := Put(m, k, v);
    if m == [] || k < m[0].0 {
      assert forall j :: 1 <= j < |r| ==> r[j] == m[j - 1];
    } else if m[0].0 == k {
      assert forall j :: 1 <= j < |r| ==> r[j] == m[j];
    } else {
      assert forall j :: 0 <= j < |m[1..]| ==> m[1..][j] == m[j + 1];
      PutAbove(m[1..], k, v, lo);
      assert forall j :: 1 <= j < |r| ==> r[j] == Put(m[1..], k, v)[j - 1];
    }
  }

  lemma SortedTail<V>(m: seq<(int, V)>)
    requires Sorted(m) && m != []
    ensures Sorted(m[1..])
    ensures forall j :: 0 <= j < |m[1..]| ==> m[0].0 < m[1..][j].0
  {
    forall i, j | 0 <= i < j < |m[1..]| ensures m[1..][i].0 < m[1..][j].0 {
      assert m[1..][i] == m[i + 1] && m[1..][j] == m[j + 1];
    }
    forall j | 0 <= j < |m[1..]| ensures m[0].0 < m[1..][j].0 {
      assert m[1..][j] == m[j + 1];
    }
  }

  /** An entry whose key is below every key of a sorted map can go in front. */
  lemma ConsSorted<V>(e: (int, V), m: seq<(int, V)>)
    requires Sorted(m) && forall j :: 0 <= j < |m| ==> e.0 < m[j].0
    ensures Sorted([e] + m)
  {
    var r := [e] + m;
    forall i, j | 0 <= i < j < |r| ensures r[i].0 < r[j].0 {
      assert r[j] == m[j - 1];
      if i > 0 { assert r[i] == m[i - 1]; }
    }
  }

  lemma ValuesCons<V>(e: (int, V), m: seq<(int, V)>)
    ensures Values([e] + m) == [e.1] + Values(m)
  {
    assert ([e] + m)[1..] == m;
  }

  /** After `put(k, v)` the map holds exactly the old keys and `k`. */
  lemma PutKeys<V>(m: seq<(int, V)>, k: int, v: V)
    requires Sorted(m)
    ensures forall x :: ContainsKey(Put(m, k, v), x) <==> ContainsKey(m, x) || x == k
  {
    var r := Put(m, k, v);
    PutEntries(m, k, v);
    forall x ensures ContainsKey(r, x) <==> ContainsKey(m, x) || x == k {
      if ContainsKey(r, x) && x != k {
        var i :| 0 <= i < |r| && r[i].0 == x;
        var j :| 0 <= j < |m| && m[j] == r[i];
      }
      if ContainsKey(m, x) && x != k {
        var j :| 0 <= j < |m| && m[j].0 == x;
        var i :| 0 <= i < |r| && r[i] == m[j];
      }
      if x == k {
        var i :| 0 <= i < |r| && r[i] == (k, v);
      }
    }
  }

  /** `put` on a key that was absent never overwrites: it adds exactly one entry, holding `v`. */
  lemma {:induction false} PutNewKey<V>(m: seq<(int, V)>, k: int, v: V)
    requires !ContainsKey(m, k)
    ensures |Put(m, k, v)| == |m| + 1
    ensures multiset(Values(Put(m, k, v))) == multiset(Values(m)) + multiset{v}
  {
    if m == [] || k < m[0].0 {
      assert Put(m, k, v) == [(k, v)] + m;
      ValuesCons((k, v), m);
    } else {
      assert forall i :: 0 <= i < |m[1..]| ==> m[1..][i] == m[i + 1];
      var rest := Put(m[1..], k, v);
      PutNewKey(m[1..], k, v);
      assert Put(m, k, v) == [m[0]] + rest;
      ValuesCons(m[0], rest);
      ValuesCons(m[0], m[1..]);
      assert [m[0]] + m[1..] == m;
      assert multiset(Values(Put(m, k, v))) == multiset{m[0].1} + multiset(Values(rest));
      assert multiset(Values(m)) == multiset{m[0].1} + multiset(Values(m[1..]));
    }
  }

  /** `put` on a key already present keeps the size. */
  lemma {:induction false} PutExistingKey<V>(m: seq<(int, V)>, k: int, v: V)
    requires Sorted(m) && ContainsKey(m, k)
    ensures |Put(m, k, v)| == |m|
  {
    var j :| 0 <= j < |m| && m[j].0 == k;
    assert m[0].0 <= k;
    if m[0].0 != k {
      assert j > 0 && m[1..][j - 1].0 == k;
      PutExistingKey(m[1..], k, v);
    }
  }

  /** `lastEntry()` of a non-empty map: the entry with the greatest key. */
  function LastEntry<V>(m: seq<(int, V)>): (e: (int, V))
    requires Sorted(m) && m != []
    ensures e in m
    ensures forall i :: 0 <= i < |m| ==> m[i].0 <= e.0
  {
    m[|m| - 1]
  }

  /**
   * The position of `ceilingEntry(k)`: the first entry whose key is at least
   * `k`, or `|m|` when there is none (`ceilingEntry` returns null).
   */
  function CeilingIndex<V>(m: seq<(int, V)>, k: int): (c: nat)
    ensures c <= |m|
    ensures forall j :: 0 <= j < c ==> m[j].0 < k
    ensures c < |m| ==> m[c].0 >= k
  {
    if m == [] || m[0].0 >= k then 0 else 1 + CeilingIndex(m[1..], k)
  }

  /** In a sorted map the ceiling entry holds the least key that is at least `k`. */
  lemma CeilingIsLeastKeyAtLeast<V>(m: seq<(int, V)>, k: int)
    requires Sorted(m)
    ensures forall j :: CeilingIndex(m, k) <= j < |m| ==> m[j].0 >= k
  {
  }
}
