/**
 * `sorted(xs, key=k)` for a string-valued key: Python's sort is stable, so
 * elements with equal keys keep their relative order. Modelled as an
 * insertion sort that puts each new element after every element whose key is
 * not greater than its own.
 */
module StableSort {
  import opened PyStrings

  /** Ordered by key, non-strictly. */
  predicate SortedBy<T>(s: seq<T>, key: T -> string) {
    forall i, j :: 0 <= i < j < |s| ==> !LexLess(key(s[j]), key(s[i]))
  }

  /** The elements of `s` whose key is `k`, in order. */
  function WithKey<T>(s: seq<T>, key: T -> string, k: string): seq<T> {
    if s == [] then []
    else if key(s[0]) == k then [s[0]] + WithKey(s[1..], key, k)
    else WithKey(s[1..], key, k)
  }

  function Insert<T>(x: T, s: seq<T>, key: T -> string): (r: seq<T>)
    ensures multiset(r) == multiset(s) + multiset{x}
  {
    if s == [] then [x]
    else if LexLess(key(x), key(s[0])) then [x] + s
    else
      assert s == [s[0]] + s[1..];
      [s[0]] + Insert(x, s[1..], key)
  }

  /** `sorted(xs, key=key)`. */
  function Sort<T>(xs: seq<T>, key: T -> string): (r: seq<T>)
    ensures multiset(r) == multiset(xs)
  {
    if xs == [] then []
    else
      assert xs == xs[..|xs| - 1] + [xs[|xs| - 1]];
      Insert(xs[|xs| - 1], Sort(xs[..|xs| - 1], key), key)
  }

  /** A new element whose key is below the first key goes in front, and the order is kept. */
  lemma InsertFrontSorted<T>(x: T, s: seq<T>, key: T -> string)
    requires SortedBy(s, key) && s != [] && LexLess(key(x), key(s[0]))
    ensures SortedBy([x] + s, key)
  {
    var r := [x] + s;
    forall j | 1 <= j < |r| ensures !LexLess(key(r[j]), key(x)) {
      assert r[j] == s[j - 1];
      if j > 1 {
        LexLessTotal(key(s[0]), key(s[j - 1]));
        if LexLess(key(s[0]), key(s[j - 1])) {
          LexLessTransitive(key(x), key(s[0]), key(s[j - 1]));
        }
      }
      LexLessAsymmetric(key(x), key(s[j - 1]));
    }
    forall i, j | 0 <= i < j < |r| ensures !LexLess(key(r[j]), key(r[i])) {
      if i > 0 {
        assert r[i] == s[i - 1] && r[j] == s[j - 1];
      }
    }
  }

  /** Putting the first element in front of a sorted sequence of elements no smaller than it keeps the order. */
  lemma ConsSorted<T>(y: T, t: seq<T>, key: T -> string)
    requires SortedBy(t, key)
    requires forall j :: 0 <= j < |t| ==> !LexLess(key(t[j]), key(y))
    ensures SortedBy([y] + t, key)
  {
    var r := [y] + t;
    forall i, j | 0 <= i < j < |r| ensures !LexLess(key(r[j]), key(r[i])) {
      if i == 0 {
        assert r[j] == t[j - 1];
      } else {
        assert r[i] == t[i - 1] && r[j] == t[j - 1];
      }
    }
  }

  lemma {:induction false} InsertSorted<T>(x: T, s: seq<T>, key: T -> string)
    requires SortedBy(s, key)
    ensures SortedBy(Insert(x, s, key), key)
  {
    if s == [] {
    } else if LexLess(key(x), key(s[0])) {
      InsertFrontSorted(x, s, key);
    } else {
      assert SortedBy(s[1..], key) by {
        forall i, j | 0 <= i < j < |s[1..]| ensures !LexLess(key(s[1..][j]), key(s[1..][i])) {
          assert s[1..][i] == s[i + 1] && s[1..][j] == s[j + 1];
        }
      }
      InsertSorted(x, s[1..], key);
      var t := Insert(x, s[1..], key);
      assert forall y :: y in multiset(t) ==> y == x || y in s[1..];
      forall j | 0 <= j < |t| ensures !LexLess(key(t[j]), key(s[0])) {
        assert t[j] in multiset(t);
        if t[j] != x {
          var m :| 0 <= m < |s[1..]| && s[1..][m] == t[j];
          assert s[m + 1] == t[j];
        }
      }
      ConsSorted(s[0], t, key);
    }
  }

  /** The result of `sorted` is ordered by the key. */
  lemma {:induction false} SortSorted<T>(xs: seq<T>, key: T -> string)
    ensures SortedBy(Sort(xs, key), key)
  {
    if xs != [] {
      SortSorted(xs[..|xs| - 1], key);
      InsertSorted(xs[|xs| - 1], Sort(xs[..|xs| - 1], key), key);
    }
  }

  lemma {:induction false} WithKeyAppend<T>(a: seq<T>, b: seq<T>, key: T -> string, k: string)
    ensures WithKey(a + b, key, k) == WithKey(a, key, k) + WithKey(b, key, k)
  {
    if a == [] {
      assert a + b == b;
    } else {
      assert (a + b)[1..] == a[1..] + b;
      WithKeyAppend(a[1..], b, key, k);
    }
  }

  lemma WithKeyLast<T>(s: seq<T>, key: T -> string, k: string)
    requires s != []
    ensures WithKey(s, key, k) == WithKey(s[..|s| - 1], key, k) + WithKey([s[|s| - 1]], key, k)
  {
    assert s == s[..|s| - 1] + [s[|s| - 1]];
    WithKeyAppend(s[..|s| - 1], [s[|s| - 1]], key, k);
  }

  /** In a sorted sequence whose first key is above `k`, no element has key `k`. */
  lemma {:induction false} WithKeyAbove<T>(s: seq<T>, key: T -> string, k: string)
    requires SortedBy(s, key) && s != [] && LexLess(k, key(s[0]))
    ensures WithKey(s, key, k) == []
  {
    LexLessIrreflexive(k);
    if |s| > 1 {
      LexLessTotal(key(s[0]), key(s[1]));
      if LexLess(key(s[0]), key(s[1])) {
        LexLessTransitive(k, key(s[0]), key(s[1]));
      }
      assert SortedBy(s[1..], key) by {
        forall i, j | 0 <= i < j < |s[1..]| ensures !LexLess(key(s[1..][j]), key(s[1..][i])) {
          assert s[1..][i] == s[i + 1] && s[1..][j] == s[j + 1];
        }
      }
      WithKeyAbove(s[1..], key, k);
    }
  }

  /** Inserting into a sorted sequence puts the new element after every element with the same key. */
  lemma {:induction false} InsertStable<T>(x: T, s: seq<T>, key: T -> string, k: string)
    requires SortedBy(s, key)
    ensures WithKey(Insert(x, s, key), key, k) == WithKey(s, key, k) + WithKey([x], key, k)
  {
    if s == [] {
    } else if LexLess(key(x), key(s[0])) {
      if key(x) == k {
        WithKeyAbove(s, key, k);
      }
    } else {
      assert SortedBy(s[1..], key) by {
        forall i, j | 0 <= i < j < |s[1..]| ensures !LexLess(key(s[1..][j]), key(s[1..][i])) {
          assert s[1..][i] == s[i + 1] && s[1..][j] == s[j + 1];
        }
      }
      InsertStable(x, s[1..], key, k);
    }
  }

  /** `sorted` is stable: the elements with any one key come out in the order they went in. */
  lemma {:induction false} SortStable<T>(xs: seq<T>, key: T -> string, k: string)
    ensures WithKey(Sort(xs, key), key, k) == WithKey(xs, key, k)
  {
    if xs != [] {
      var init := xs[..|xs| - 1];
      var x := xs[|xs| - 1];
      var s := Sort(init, key);
      assert WithKey(s, key, k) == WithKey(init, key, k) by {
        SortStable(init, key, k);
      }
      assert WithKey(Insert(x, s, key), key, k) == WithKey(s, key, k) + WithKey([x], key, k) by {
        SortSorted(init, key);
        InsertStable(x, s, key, k);
      }
      WithKeyLast(xs, key, k);
      assert Sort(xs, key) == Insert(x, s, key);
    }
  }

  /** No two elements of `s` agree on `f`. */
  predicate DistinctBy<T, K(==)>(s: seq<T>, f: T -> K) {
    forall i, j :: 0 <= i < j < |s| ==> f(s[i]) != f(s[j])
  }

  /** Putting in front an element that agrees with none of a distinct sequence keeps it distinct. */
  lemma ConsDistinctBy<T, K>(y: T, t: seq<T>, f: T -> K)
    requires DistinctBy(t, f)
    requires forall j :: 0 <= j < |t| ==> f(t[j]) != f(y)
    ensures DistinctBy([y] + t, f)
  {
    var r := [y] + t;
    forall i, j | 0 <= i < j < |r| ensures f(r[i]) != f(r[j]) {
      if i == 0 {
        assert r[j] == t[j - 1];
      } else {
        assert r[i] == t[i - 1] && r[j] == t[j - 1];
      }
    }
  }

  lemma {:induction false} InsertDistinctBy<T, K>(x: T, s: seq<T>, key: T -> string, f: T -> K)
    requires DistinctBy(s, f)
    requires forall i :: 0 <= i < |s| ==> f(s[i]) != f(x)
    ensures DistinctBy(Insert(x, s, key), f)
  {
    if s != [] && !LexLess(key(x), key(s[0])) {
      assert DistinctBy(s[1..], f) by {
        forall i, j | 0 <= i < j < |s[1..]| ensures f(s[1..][i]) != f(s[1..][j]) {
          assert s[1..][i] == s[i + 1] && s[1..][j] == s[j + 1];
        }
      }
      InsertDistinctBy(x, s[1..], key, f);
      var t := Insert(x, s[1..], key);
      assert forall y :: y in multiset(t) ==> y == x || y in s[1..];
      forall j | 0 <= j < |t| ensures f(t[j]) != f(s[0]) {
        assert t[j] in multiset(t);
        if t[j] != x {
          var m :| 0 <= m < |s[1..]| && s[1..][m] == t[j];
          assert s[m + 1] == t[j];
        }
      }
      ConsDistinctBy(s[0], t, f);
    }
  }

  /** Sorting neither merges nor duplicates elements: distinctness under any `f` is kept. */
  lemma {:induction false} SortDistinctBy<T, K>(xs: seq<T>, key: T -> string, f: T -> K)
    requires DistinctBy(xs, f)
    ensures DistinctBy(Sort(xs, key), f)
  {
    if xs != [] {
      var init := xs[..|xs| - 1];
      var x := xs[|xs| - 1];
      assert DistinctBy(init, f);
      SortDistinctBy(init, key, f);
      var s := Sort(init, key);
      forall i | 0 <= i < |s| ensures f(s[i]) != f(x) {
        assert s[i] in multiset(s);
        var m :| 0 <= m < |init| && init[m] == s[i];
      }
      InsertDistinctBy(x, s, key, f);
    }
  }
}
