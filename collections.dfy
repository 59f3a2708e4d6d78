/**
 * Sets and counts built up by a loop over a list, one element at a time, as
 * the `set.add` loops of the watermarker and the change counter of the
 * synchronizer do.
 */
module Collections {
  import opened JsonValues

  /** The values `f` yields on the first elements of `items`, for the elements where it yields one. */
  function CollectSome<T, U>(items: seq<T>, f: T -> Option<U>): set<U> {
    if items == [] then {}
    else
      var last := f(items[|items| - 1]);
      CollectSome(items[..|items| - 1], f) + (if last.Some? then {last.value} else {})
  }

  lemma {:induction false} CollectSomeIff<T, U>(items: seq<T>, f: T -> Option<U>, p: U)
    ensures p in CollectSome(items, f) <==> exists i :: 0 <= i < |items| && f(items[i]) == Some(p)
  {
    if items != [] {
      var n := |items| - 1;
      var init := items[..n];
      CollectSomeIff(init, f, p);
      if p in CollectSome(items, f) {
        if p in CollectSome(init, f) {
          var i :| 0 <= i < |init| && f(init[i]) == Some(p);
          assert items[i] == init[i];
        } else {
          assert f(items[n]) == Some(p);
        }
      }
      if exists i :: 0 <= i < |items| && f(items[i]) == Some(p) {
        var i :| 0 <= i < |items| && f(items[i]) == Some(p);
        if i < n {
          assert init[i] == items[i];
        }
      }
    }
  }

  /** The union of the sets `f` gives the first elements of `items`. */
  function UnionOf<T, U>(items: seq<T>, f: T -> set<U>): set<U> {
    if items == [] then {}
    else UnionOf(items[..|items| - 1], f) + f(items[|items| - 1])
  }

  lemma {:induction false} UnionOfIff<T, U>(items: seq<T>, f: T -> set<U>, p: U)
    ensures p in UnionOf(items, f) <==> exists i :: 0 <= i < |items| && p in f(items[i])
  {
    if items != [] {
      var n := |items| - 1;
      var init := items[..n];
      UnionOfIff(init, f, p);
      if p in UnionOf(items, f) {
        if p in UnionOf(init, f) {
          var i :| 0 <= i < |init| && p in f(init[i]);
          assert items[i] == init[i];
        } else {
          assert p in f(items[n]);
        }
      }
      if exists i :: 0 <= i < |items| && p in f(items[i]) {
        var i :| 0 <= i < |items| && p in f(items[i]);
        if i < n {
          assert init[i] == items[i];
        }
      }
    }
  }

  /** Each element's set is part of the union. */
  lemma {:induction false} UnionOfHas<T, U>(items: seq<T>, f: T -> set<U>, i: int)
    requires 0 <= i < |items|
    ensures f(items[i]) <= UnionOf(items, f)
  {
    var n := |items| - 1;
    if i < n {
      UnionOfHas(items[..n], f, i);
      assert items[..n][i] == items[i];
    }
  }

  /** Every member of the union comes from some element's set. */
  lemma {:induction false} UnionOfWitness<T, U>(items: seq<T>, f: T -> set<U>, p: U) returns (i: int)
    requires p in UnionOf(items, f)
    ensures 0 <= i < |items| && p in f(items[i])
  {
    var n := |items| - 1;
    if p in f(items[n]) {
      i := n;
    } else {
      i := UnionOfWitness(items[..n], f, p);
      assert items[..n][i] == items[i];
    }
  }

  /** The number of elements of `items` that satisfy `p`. */
  function CountWhere<T>(items: seq<T>, p: T -> bool): nat {
    if items == [] then 0
    else CountWhere(items[..|items| - 1], p) + (if p(items[|items| - 1]) then 1 else 0)
  }

  /** Counting over one more element adds one exactly when that element satisfies `p`. */
  lemma CountWhereStep<T>(items: seq<T>, p: T -> bool, i: int)
    requires 0 <= i < |items|
    ensures CountWhere(items[..i + 1], p) == CountWhere(items[..i], p) + (if p(items[i]) then 1 else 0)
  {
    assert items[..i + 1][..i] == items[..i];
  }
}
