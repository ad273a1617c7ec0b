/**
 * A stable sort into non-increasing order of a timestamp key: the meaning of
 * Python's `list.sort(key=k, reverse=True)`, which keeps elements with equal
 * keys in their original relative order.
 */
module Sorting {
  import opened Dates
  import opened Seqs

  /** Keys never increase along the sequence. */
  ghost predicate NonIncreasing<T>(s: seq<T>, key: T -> DateTime)
  {
    forall i, j :: 0 <= i < j < |s| ==> !Before(key(s[i]), key(s[j]))
  }

  function HasKey<T>(key: T -> DateTime, k: DateTime): T -> bool
  {
    (x: T) => key(x) == k
  }

  /** `x` placed into `t` after every element with a strictly later key, before the rest. */
  function Insert<T>(x: T, t: seq<T>, key: T -> DateTime): (r: seq<T>)
    ensures multiset(r) == multiset(t) + multiset{x}
    decreases |t|
  {
    if t == [] || !Before(key(x), key(t[0])) then [x] + t
    else
      var r := [t[0]] + Insert(x, t[1..], key);
      assert t == [t[0]] + t[1..];
      r
  }

  /** Insertion sort, newest key first; each element goes before the later-inserted ones of its key. */
  function SortDescending<T>(s: seq<T>, key: T -> DateTime): (r: seq<T>)
    ensures multiset(r) == multiset(s)
    decreases |s|
  {
    if s == [] then []
    else
      var r := Insert(s[0], SortDescending(s[1..], key), key);
      assert s == [s[0]] + s[1..];
      r
  }

  /** Not-later-than is transitive on dates. */
  lemma NotBeforeTransitive(a: DateTime, b: DateTime, c: DateTime)
    requires !Before(a, b) && !Before(b, c)
    ensures !Before(a, c)
  {
  }

  lemma {:induction false} InsertOrdered<T>(x: T, t: seq<T>, key: T -> DateTime)
    requires NonIncreasing(t, key)
    ensures NonIncreasing(Insert(x, t, key), key)
    decreases |t|
  {
    var r := Insert(x, t, key);
    if t == [] || !Before(key(x), key(t[0])) {
      forall i, j | 0 <= i < j < |r| ensures !Before(key(r[i]), key(r[j])) {
        if i == 0 {
          if j > 1 {
            NotBeforeTransitive(key(x), key(t[0]), key(t[j - 1]));
          }
        } else {
          assert r[i] == t[i - 1] && r[j] == t[j - 1];
        }
      }
    } else {
      var u := Insert(x, t[1..], key);
      InsertOrdered(x, t[1..], key);
      forall i, j | 0 <= i < j < |r| ensures !Before(key(r[i]), key(r[j])) {
        if i == 0 {
          assert r[j] in multiset(u);
          if r[j] != x {
            assert r[j] in t[1..];
            var m :| 0 <= m < |t[1..]| && t[1..][m] == r[j];
            assert t[m + 1] == r[j];
          }
        } else {
          assert r[i] == u[i - 1] && r[j] == u[j - 1];
        }
      }
    }
  }

  /** After the sort the keys never increase. */
  lemma {:induction false} SortDescendingOrdered<T>(s: seq<T>, key: T -> DateTime)
    ensures NonIncreasing(SortDescending(s, key), key)
    decreases |s|
  {
    if s != [] {
      SortDescendingOrdered(s[1..], key);
      InsertOrdered(s[0], SortDescending(s[1..], key), key);
    }
  }

  /** An inserted element comes first among the elements of its key; no other key's elements move. */
  lemma {:induction false} InsertWithKey<T>(x: T, t: seq<T>, key: T -> DateTime, k: DateTime)
    ensures Filter(Insert(x, t, key), HasKey(key, k)) == (if key(x) == k then [x] else []) + Filter(t, HasKey(key, k))
    decreases |t|
  {
    var p := HasKey(key, k);
    if t == [] || !Before(key(x), key(t[0])) {
      FilterAppend([x], t, p);
    } else {
      InsertWithKey(x, t[1..], key, k);
      FilterAppend([t[0]], Insert(x, t[1..], key), p);
      FilterAppend([t[0]], t[1..], p);
      assert [t[0]] + t[1..] == t;
    }
  }

  /** The sort is stable: the elements sharing any one key keep their relative order. */
  lemma {:induction false} SortDescendingStable<T>(s: seq<T>, key: T -> DateTime, k: DateTime)
    ensures Filter(SortDescending(s, key), HasKey(key, k)) == Filter(s, HasKey(key, k))
    decreases |s|
  {
    if s != [] {
      SortDescendingStable(s[1..], key, k);
      InsertWithKey(s[0], SortDescending(s[1..], key), key, k);
      FilterAppend([s[0]], s[1..], HasKey(key, k));
      assert [s[0]] + s[1..] == s;
    }
  }

  /** Filtering by the key of the first element of a non-increasing sequence: that element comes first. */
  lemma FilterHeadKey<T>(a: seq<T>, key: T -> DateTime, k: DateTime)
    requires a != []
    ensures Filter(a, HasKey(key, k)) == (if key(a[0]) == k then [a[0]] else []) + Filter(a[1..], HasKey(key, k))
  {
  }

  /**
   * Two non-increasing sequences that agree, key by key, on which elements
   * carry that key and in what order, are the same sequence.
   */
  lemma {:induction false} ArrangementUnique<T>(a: seq<T>, b: seq<T>, key: T -> DateTime)
    requires NonIncreasing(a, key) && NonIncreasing(b, key)
    requires forall k :: Filter(a, HasKey(key, k)) == Filter(b, HasKey(key, k))
    ensures a == b
    decreases |a| + |b|
  {
    if a == [] && b != [] {
      FilterHeadKey(b, key, key(b[0]));
    } else if a != [] && b == [] {
      FilterHeadKey(a, key, key(a[0]));
    } else if a != [] {
      var ka, kb := key(a[0]), key(b[0]);
      // The first keys agree: each sequence holds an element of the other's first key.
      FilterHeadKey(a, key, ka);
      FilterMembership(b, HasKey(key, ka), a[0]);
      var m :| 0 <= m < |b| && b[m] == a[0];
      FilterHeadKey(b, key, kb);
      FilterMembership(a, HasKey(key, kb), b[0]);
      var n :| 0 <= n < |a| && a[n] == b[0];
      assert !Before(kb, key(b[m])) && !Before(ka, key(a[n]));
      assert ka == kb;
      // So do the first elements, and the tails agree key by key.
      assert a[0] == Filter(a, HasKey(key, ka))[0] == Filter(b, HasKey(key, ka))[0] == b[0];
      forall k ensures Filter(a[1..], HasKey(key, k)) == Filter(b[1..], HasKey(key, k)) {
        FilterHeadKey(a, key, k);
        FilterHeadKey(b, key, k);
        assert Filter(a, HasKey(key, k)) == Filter(b, HasKey(key, k));
        if k == ka {
          assert Filter(a[1..], HasKey(key, k)) == Filter(a, HasKey(key, k))[1..];
          assert Filter(b[1..], HasKey(key, k)) == Filter(b, HasKey(key, k))[1..];
        } else {
          assert key(a[0]) != k && key(b[0]) != k;
          assert Filter(a[1..], HasKey(key, k)) == Filter(a, HasKey(key, k));
          assert Filter(b[1..], HasKey(key, k)) == Filter(b, HasKey(key, k));
        }
      }
      ArrangementUnique(a[1..], b[1..], key);
      assert a == [a[0]] + a[1..] && b == [b[0]] + b[1..];
    }
  }

  /**
   * The sort is the one arrangement that is non-increasing and keeps each
   * key's elements in their input order: any other sort with those two
   * properties returns the same list.
   */
  lemma SortDescendingUnique<T>(s: seq<T>, r: seq<T>, key: T -> DateTime)
    requires NonIncreasing(r, key)
    requires forall k :: Filter(r, HasKey(key, k)) == Filter(s, HasKey(key, k))
    ensures r == SortDescending(s, key)
  {
    SortDescendingOrdered(s, key);
    forall k ensures Filter(r, HasKey(key, k)) == Filter(SortDescending(s, key), HasKey(key, k)) {
      SortDescendingStable(s, key, k);
    }
    ArrangementUnique(r, SortDescending(s, key), key);
  }
}
