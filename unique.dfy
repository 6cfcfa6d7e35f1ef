/**
 * `np.unique(a, return_index=True)` over any strictly ordered element type: the distinct
 * values in increasing order, each with the index of its first occurrence. pandas' `groupby`
 * (used by `dissolve`) forms its sorted group keys the same way, so both uses share it.
 */
module SortedUnique {

  ghost predicate IsStrictTotalOrder<T(!new)>(less: (T, T) -> bool)
  {
    && (forall a :: !less(a, a))
    && (forall a, b, c :: less(a, b) && less(b, c) ==> less(a, c))
    && (forall a, b :: a != b ==> less(a, b) || less(b, a))
  }

  predicate StrictlySorted<T>(s: seq<T>, less: (T, T) -> bool)
  {
    forall i, j :: 0 <= i < j < |s| ==> less(s[i], s[j])
  }

  /** A distinct value and the index of its first occurrence in the input. */
  datatype Entry<T> = Entry(key: T, first: nat)

  function Keys<T>(u: seq<Entry<T>>): (ks: seq<T>)
  {
    seq(|u|, k requires 0 <= k < |u| => u[k].key)
  }

  predicate SortedEntries<T>(u: seq<Entry<T>>, less: (T, T) -> bool)
  {
    forall i, j :: 0 <= i < j < |u| ==> less(u[i].key, u[j].key)
  }

  function KeySet<T>(u: seq<Entry<T>>): set<T>
  {
    set e | e in u :: e.key
  }

  /** `s[e.first]` is the first occurrence of `e.key` in `s`. */
  predicate FirstOccurrence<T(==)>(s: seq<T>, e: Entry<T>)
  {
    e.first < |s| && s[e.first] == e.key && forall j :: 0 <= j < e.first ==> s[j] != e.key
  }

  /** Adds `e` at its place in the ordered `u`, unless its key is already there. */
  function Insert<T(==)>(u: seq<Entry<T>>, e: Entry<T>, less: (T, T) -> bool): seq<Entry<T>>
  {
    if u == [] then [e]
    else if u[0].key == e.key then u
    else if less(e.key, u[0].key) then [e] + u
    else [u[0]] + Insert(u[1..], e, less)
  }

  /** The distinct values of `s` in increasing order, each tagged with its first index. */
  function Unique<T(==)>(s: seq<T>, less: (T, T) -> bool): seq<Entry<T>>
  {
    if s == [] then []
    else Insert(Unique(s[..|s| - 1], less), Entry(s[|s| - 1], |s| - 1), less)
  }

  lemma ConsSorted<T>(h: Entry<T>, r: seq<Entry<T>>, less: (T, T) -> bool)
    requires SortedEntries(r, less)
    requires forall x :: x in r ==> less(h.key, x.key)
    ensures SortedEntries([h] + r, less)
  {
    forall i, j | 0 <= i < j < |[h] + r| ensures less(([h] + r)[i].key, ([h] + r)[j].key) {
      if i > 0 {
        assert ([h] + r)[i] == r[i - 1] && ([h] + r)[j] == r[j - 1];
      } else {
        assert ([h] + r)[j] in r;
      }
    }
  }

  /** Inserting a key that is already present changes nothing: the earlier index is kept. */
  lemma {:induction false} InsertPresent<T(!new)>(u: seq<Entry<T>>, e: Entry<T>, less: (T, T) -> bool)
    requires IsStrictTotalOrder(less)
    requires SortedEntries(u, less)
    requires e.key in KeySet(u)
    ensures Insert(u, e, less) == u
    decreases |u|
  {
    var x :| x in u && x.key == e.key;
    var j :| 0 <= j < |u| && u[j] == x;
    InsertPresentAt(u, e, less, j);
  }

  lemma {:induction false} InsertPresentAt<T(!new)>(u: seq<Entry<T>>, e: Entry<T>, less: (T, T) -> bool, j: nat)
    requires IsStrictTotalOrder(less)
    requires SortedEntries(u, less)
    requires j < |u| && u[j].key == e.key
    ensures Insert(u, e, less) == u
    decreases j
  {
    if j > 0 {
      assert less(u[0].key, u[j].key);
      Asymmetric(less, u[0].key, e.key);
      var tail := u[1..];
      assert tail[j - 1] == u[j];
      TailSorted(u, less);
      InsertPresentAt(tail, e, less, j - 1);
      assert u == [u[0]] + tail;
    }
  }

  lemma Asymmetric<T(!new)>(less: (T, T) -> bool, a: T, b: T)
    requires IsStrictTotalOrder(less)
    requires less(a, b)
    ensures !less(b, a) && a != b
  {
    assert less(b, a) ==> less(a, a);
    assert a == b ==> less(a, a);
  }

  lemma TailSorted<T>(u: seq<Entry<T>>, less: (T, T) -> bool)
    requires u != [] && SortedEntries(u, less)
    ensures SortedEntries(u[1..], less)
  {
    forall i, k | 0 <= i < k < |u| - 1 ensures less(u[1..][i].key, u[1..][k].key) {
      assert u[1..][i] == u[i + 1] && u[1..][k] == u[k + 1];
    }
  }

  /** Inserting a new key adds exactly that entry. */
  lemma {:induction false} InsertAbsent<T>(u: seq<Entry<T>>, e: Entry<T>, less: (T, T) -> bool)
    requires e.key !in KeySet(u)
    ensures forall x :: x in Insert(u, e, less) <==> x in u || x == e
    decreases |u|
  {
    if u != [] {
      assert u[0] in u;
      if !less(e.key, u[0].key) {
        assert KeySet(u[1..]) <= KeySet(u) by {
          forall x | x in u[1..] ensures x in u { }
        }
        InsertAbsent(u[1..], e, less);
        assert u == [u[0]] + u[1..];
      }
    }
  }

  /** Insertion keeps the entries in strictly increasing key order. */
  lemma {:induction false} InsertSorted<T(!new)>(u: seq<Entry<T>>, e: Entry<T>, less: (T, T) -> bool)
    requires IsStrictTotalOrder(less)
    requires SortedEntries(u, less)
    ensures SortedEntries(Insert(u, e, less), less)
    decreases |u|
  {
    if u == [] || u[0].key == e.key {
    } else if less(e.key, u[0].key) {
      forall x | x in u ensures less(e.key, x.key) {
        var j :| 0 <= j < |u| && u[j] == x;
        if j > 0 {
          assert less(u[0].key, u[j].key);
        }
      }
      ConsSorted(e, u, less);
    } else {
      var tail := u[1..];
      InsertSorted(tail, e, less);
      var r := Insert(tail, e, less);
      assert less(u[0].key, e.key);
      forall x | x in tail ensures less(u[0].key, x.key) {
        var j :| 0 <= j < |tail| && tail[j] == x;
        assert u[j + 1] == x;
      }
      if e.key in KeySet(tail) {
        InsertPresent(tail, e, less);
      } else {
        InsertAbsent(tail, e, less);
      }
      ConsSorted(u[0], r, less);
    }
  }

  /**
   * What `np.unique(s, return_index=True)` returns: the values strictly increase (so no value
   * repeats), they are exactly the values of `s`, and each carries its first index in `s`.
   */
  lemma UniqueSpec<T(!new)>(s: seq<T>, less: (T, T) -> bool)
    requires IsStrictTotalOrder(less)
    ensures SortedEntries(Unique(s, less), less)
    ensures KeySet(Unique(s, less)) == set x | x in s
    ensures forall e :: e in Unique(s, less) ==> FirstOccurrence(s, e)
  {
    UniqueSorted(s, less);
    UniqueKeySet(s, less);
    UniqueFirst(s, less);
  }

  lemma {:induction false} UniqueSorted<T(!new)>(s: seq<T>, less: (T, T) -> bool)
    requires IsStrictTotalOrder(less)
    ensures SortedEntries(Unique(s, less), less)
    decreases |s|
  {
    if s != [] {
      var n := |s| - 1;
      UniqueSorted(s[..n], less);
      InsertSorted(Unique(s[..n], less), Entry(s[n], n), less);
    }
  }

  lemma {:induction false} UniqueKeySet<T(!new)>(s: seq<T>, less: (T, T) -> bool)
    requires IsStrictTotalOrder(less)
    ensures KeySet(Unique(s, less)) == set x | x in s
    decreases |s|
  {
    if s != [] {
      var n := |s| - 1;
      var p, x := s[..n], s[n];
      UniqueKeySet(p, less);
      var u := Unique(p, less);
      assert s == p + [x];
      assert (set y | y in s) == (set y | y in p) + {x};
      if x in KeySet(u) {
        UniqueSorted(p, less);
        InsertPresent(u, Entry(x, n), less);
      } else {
        InsertAbsent(u, Entry(x, n), less);
        assert KeySet(Unique(s, less)) == KeySet(u) + {x};
      }
    }
  }

  lemma {:induction false} UniqueFirst<T(!new)>(s: seq<T>, less: (T, T) -> bool)
    requires IsStrictTotalOrder(less)
    ensures forall e :: e in Unique(s, less) ==> FirstOccurrence(s, e)
    decreases |s|
  {
    if s != [] {
      var n := |s| - 1;
      var p, x := s[..n], s[n];
      UniqueFirst(p, less);
      var u := Unique(p, less);
      assert s == p + [x];
      if x in KeySet(u) {
        UniqueSorted(p, less);
        InsertPresent(u, Entry(x, n), less);
        forall e | e in Unique(s, less) ensures FirstOccurrence(s, e) {
          assert FirstOccurrence(p, e);
        }
      } else {
        UniqueKeySet(p, less);
        InsertAbsent(u, Entry(x, n), less);
        forall e | e in Unique(s, less) ensures FirstOccurrence(s, e) {
          if e in u {
            assert FirstOccurrence(p, e);
          } else {
            assert x !in p;
          }
        }
      }
    }
  }

  /** Sorted distinct keys, as the plain sequence `np.unique` returns as its first result. */
  lemma UniqueKeysSorted<T(!new)>(s: seq<T>, less: (T, T) -> bool)
    requires IsStrictTotalOrder(less)
    ensures StrictlySorted(Keys(Unique(s, less)), less)
    ensures forall x :: x in Keys(Unique(s, less)) <==> x in s
  {
    UniqueSpec(s, less);
    var u := Unique(s, less);
    forall x ensures x in Keys(u) <==> x in s {
      if x in Keys(u) {
        var k :| 0 <= k < |u| && Keys(u)[k] == x;
        assert u[k] in u;
      }
      if x in s {
        assert x in KeySet(u);
        var e :| e in u && e.key == x;
        var k :| 0 <= k < |u| && u[k] == e;
        assert Keys(u)[k] == x;
      }
    }
  }

  /**
   * A strictly sorted sequence is determined by its elements: whatever algorithm computes it,
   * the sorted distinct values of `s` can only be `Keys(Unique(s, less))`.
   */
  lemma {:induction false} SortedIsDeterminedByElements<T(!new)>(a: seq<T>, b: seq<T>, less: (T, T) -> bool)
    requires IsStrictTotalOrder(less)
    requires StrictlySorted(a, less) && StrictlySorted(b, less)
    requires forall x :: x in a <==> x in b
    ensures a == b
    decreases |a|
  {
    if a != [] {
      assert a[0] in b;
    }
    if b != [] {
      assert b[0] in a;
    }
    if a != [] {
      SortedHeadIsLeast(a, b[0], less);
      SortedHeadIsLeast(b, a[0], less);
      assert a[0] == b[0];
      forall x ensures x in a[1..] <==> x in b[1..] {
        if x in a[1..] {
          var k :| 1 <= k < |a| && a[k] == x;
          assert less(a[0], x);
          assert x in b && x != b[0];
        }
        if x in b[1..] {
          var k :| 1 <= k < |b| && b[k] == x;
          assert less(b[0], x);
          assert x in a && x != a[0];
        }
      }
      SortedIsDeterminedByElements(a[1..], b[1..], less);
      assert a == [a[0]] + a[1..] && b == [b[0]] + b[1..];
    }
  }

  lemma SortedHeadIsLeast<T>(a: seq<T>, x: T, less: (T, T) -> bool)
    requires StrictlySorted(a, less)
    requires x in a
    ensures x == a[0] || less(a[0], x)
  {
    var k :| 0 <= k < |a| && a[k] == x;
    if k > 0 {
      assert less(a[0], a[k]);
    }
  }
}
