/**
 * `dedupe_prefer`: among paths that differ only in extension (compared by a
 * case-insensitive parent-and-stem key), keep the one with the preferred
 * extension, the first one seen on a tie, and return the survivors sorted by
 * their lower-cased posix form.
 */
module Dedupe {
  import opened PyStrings
  import opened PyPaths
  import opened StableSort

  /** The grouping key: lower-cased parent, "/", lower-cased and stripped stem, with backslashes made slashes. */
  function StemKey(p: Path): string {
    ReplaceAll(Lower(AsPosix(Parent(p))) + "/" + Strip(Lower(Stem(p))), "\\", "/")
  }

  /** `EXT_PREFERENCE.get(p.suffix.lower(), 99)`: smaller is preferred. */
  function Rank(p: Path): nat {
    var e := Lower(Suffix(p));
    if e == ".webp" then 0
    else if e == ".jpg" then 1
    else if e == ".jpeg" then 2
    else if e == ".png" then 3
    else 99
  }

  /** The sort key `x.as_posix().lower()`. */
  function SortKey(p: Path): string {
    Lower(AsPosix(p))
  }

  /** The `selected` dictionary: its entries, and its keys in insertion order. */
  datatype Selection<T> = Selection(chosen: map<string, T>, order: seq<string>)

  /** The insertion order lists every key of the dictionary exactly once. */
  predicate Coherent<T>(s: Selection<T>) {
    && (forall i :: 0 <= i < |s.order| ==> s.order[i] in s.chosen)
    && (forall k :: k in s.chosen ==> k in s.order)
    && (forall i, j :: 0 <= i < j < |s.order| ==> s.order[i] != s.order[j])
  }

  /**
   * `selected` after the loop has gone through `items`: a new key is added at
   * the end of the order, and an entry is replaced only by a strictly better
   * rank.
   */
  function Select<T>(items: seq<T>, key: T -> string, rank: T -> nat): Selection<T> {
    if items == [] then Selection(map[], [])
    else Admit(Select(items[..|items| - 1], key, rank), items[|items| - 1], key, rank)
  }

  /** One iteration of the loop. */
  function Admit<T>(s: Selection<T>, p: T, key: T -> string, rank: T -> nat): Selection<T> {
    var k := key(p);
    if k !in s.chosen then Selection(s.chosen[k := p], s.order + [k])
    else if rank(p) < rank(s.chosen[k]) then Selection(s.chosen[k := p], s.order)
    else s
  }

  lemma SelectPrefix<T>(items: seq<T>, i: nat, key: T -> string, rank: T -> nat)
    requires i < |items|
    ensures Select(items[..i + 1], key, rank) == Admit(Select(items[..i], key, rank), items[i], key, rank)
  {
    assert items[..i + 1][..i] == items[..i];
  }

  lemma {:induction false} SelectCoherent<T>(items: seq<T>, key: T -> string, rank: T -> nat)
    ensures Coherent(Select(items, key, rank))
  {
    if items != [] {
      var init := items[..|items| - 1];
      SelectCoherent(init, key, rank);
    }
  }

  /** `selected.values()`, in insertion order. */
  function Values<T>(s: Selection<T>): seq<T>
    requires Coherent(s)
  {
    seq(|s.order|, i requires 0 <= i < |s.order| => s.chosen[s.order[i]])
  }

  /** The selected values sorted by `sortKey`. */
  function DedupeBy<T>(items: seq<T>, key: T -> string, rank: T -> nat, sortKey: T -> string): seq<T> {
    SelectCoherent(items, key, rank);
    Sort(Values(Select(items, key, rank)), sortKey)
  }

  /** What `dedupe_prefer(paths)` returns. */
  function Deduped(paths: seq<Path>): seq<Path> {
    DedupeBy(paths, StemKey, Rank, SortKey)
  }

  /**
   * `items[j]` is the item a left-to-right scan keeps for its key: no item of
   * the group has a smaller rank, and every earlier one has a larger rank.
   */
  predicate BestIn<T>(items: seq<T>, j: int, key: T -> string, rank: T -> nat)
    requires 0 <= j < |items|
  {
    forall i :: 0 <= i < |items| && key(items[i]) == key(items[j]) ==>
      rank(items[j]) <= rank(items[i]) && (i < j ==> rank(items[j]) < rank(items[i]))
  }

  /** The loop of `dedupe_prefer` that fills `selected`, for the key and rank it is given. */
  method SelectLoop<T>(items: seq<T>, key: T -> string, rank: T -> nat) returns (selected: map<string, T>, order: seq<string>)
    ensures Selection(selected, order) == Select(items, key, rank)
  {
    selected := map[];
    order := [];
    var i := 0;
    while i < |items|
      invariant 0 <= i <= |items|
      invariant Selection(selected, order) == Select(items[..i], key, rank)
    {
      var p := items[i];
      SelectPrefix(items, i, key, rank);
      var stemKey := key(p);
      if stemKey !in selected {
        selected := selected[stemKey := p];
        order := order + [stemKey];
      } else {
        var current := selected[stemKey];
        if rank(p) < rank(current) {
          selected := selected[stemKey := p];
        }
      }
      i := i + 1;
    }
    assert items[..i] == items;
  }

  /** `dedupe_prefer`. */
  method DedupePrefer(paths: seq<Path>) returns (r: seq<Path>)
    ensures r == Deduped(paths)
    ensures DistinctBy(r, StemKey)
    ensures forall q :: q in r ==> q in paths
    ensures Keys(r) == Keys(paths)
    ensures forall q :: q in r ==> exists j :: 0 <= j < |paths| && paths[j] == q && BestIn(paths, j, StemKey, Rank)
    ensures SortedBy(r, SortKey)
  {
    var selected, order := SelectLoop(paths, StemKey, Rank);
    SelectCoherent(paths, StemKey, Rank);
    var values := seq(|order|, j requires 0 <= j < |order| => selected[order[j]]);
    assert values == Values(Select(paths, StemKey, Rank));
    r := Sort(values, SortKey);
    DedupeByFacts(paths, StemKey, Rank, SortKey);
    DedupedCoversKeys(paths);
  }

  // ---------------------------------------------------------------------------
  // Properties of the selection.

  /** Every entry is filed under its own key and comes from the input. */
  lemma {:induction false} SelectEntries<T>(items: seq<T>, key: T -> string, rank: T -> nat)
    ensures forall k :: k in Select(items, key, rank).chosen ==>
              key(Select(items, key, rank).chosen[k]) == k && Select(items, key, rank).chosen[k] in items
  {
    if items != [] {
      var n := |items| - 1;
      var init := items[..n];
      var s := Select(init, key, rank);
      var p := items[n];
      var s' := Select(items, key, rank);
      SelectEntries(init, key, rank);
      assert p in items;
      forall k | k in s.chosen ensures s.chosen[k] in items {
        var m :| 0 <= m < |init| && init[m] == s.chosen[k];
        assert items[m] == init[m];
      }
      var k0 := key(p);
      if k0 !in s.chosen {
        assert s' == Selection(s.chosen[k0 := p], s.order + [k0]);
      } else if rank(p) < rank(s.chosen[k0]) {
        assert s' == Selection(s.chosen[k0 := p], s.order);
      } else {
        assert s' == s;
      }
    }
  }

  /** Every input's key has an entry. */
  lemma {:induction false} SelectCovers<T>(items: seq<T>, key: T -> string, rank: T -> nat)
    ensures forall i :: 0 <= i < |items| ==> key(items[i]) in Select(items, key, rank).chosen
  {
    if items != [] {
      var n := |items| - 1;
      var init := items[..n];
      SelectCovers(init, key, rank);
      var s := Select(init, key, rank);
      var s' := Select(items, key, rank);
      assert s.chosen.Keys <= s'.chosen.Keys;
      forall i | 0 <= i < n ensures key(items[i]) in s'.chosen {
        assert items[i] == init[i];
      }
    }
  }

  lemma SelectFacts<T>(items: seq<T>, key: T -> string, rank: T -> nat)
    ensures forall k :: k in Select(items, key, rank).chosen ==>
              key(Select(items, key, rank).chosen[k]) == k && Select(items, key, rank).chosen[k] in items
    ensures forall i :: 0 <= i < |items| ==> key(items[i]) in Select(items, key, rank).chosen
  {
    SelectEntries(items, key, rank);
    SelectCovers(items, key, rank);
  }

  /** The entry kept for a key is the first item of that group with the smallest rank. */
  lemma {:induction false} SelectedIndex<T>(items: seq<T>, k: string, key: T -> string, rank: T -> nat) returns (j: nat)
    requires k in Select(items, key, rank).chosen
    ensures j < |items| && items[j] == Select(items, key, rank).chosen[k] && key(items[j]) == k
    ensures BestIn(items, j, key, rank)
  {
    var n := |items| - 1;
    var init := items[..n];
    var s := Select(init, key, rank);
    var p := items[n];
    assert forall i :: 0 <= i < n ==> init[i] == items[i];
    SelectCovers(init, key, rank);
    if k != key(p) {
      assert Select(items, key, rank).chosen[k] == s.chosen[k];
      j := SelectedIndex(init, k, key, rank);
      forall i | 0 <= i < |items| && key(items[i]) == key(items[j])
        ensures rank(items[j]) <= rank(items[i]) && (i < j ==> rank(items[j]) < rank(items[i]))
      {
        assert i < n;
      }
    } else if k !in s.chosen {
      j := n;
      forall i | 0 <= i < |items| && key(items[i]) == key(items[j])
        ensures rank(items[j]) <= rank(items[i]) && (i < j ==> rank(items[j]) < rank(items[i]))
      {
        assert i == n;
      }
    } else {
      var j0 := SelectedIndex(init, k, key, rank);
      if rank(p) < rank(s.chosen[k]) {
        j := n;
        forall i | 0 <= i < |items| && key(items[i]) == key(items[j])
          ensures rank(items[j]) <= rank(items[i]) && (i < j ==> rank(items[j]) < rank(items[i]))
        {
          if i < n {
            assert BestIn(init, j0, key, rank);
            assert rank(init[j0]) <= rank(init[i]);
          }
        }
      } else {
        assert Select(items, key, rank) == s;
        j := j0;
        forall i | 0 <= i < |items| && key(items[i]) == key(items[j])
          ensures rank(items[j]) <= rank(items[i]) && (i < j ==> rank(items[j]) < rank(items[i]))
        {
          if i < n {
            assert BestIn(init, j0, key, rank);
          }
        }
      }
    }
  }

  /** The values are filed under the keys in insertion order, so no two share a key. */
  lemma ValuesDistinct<T>(items: seq<T>, key: T -> string, rank: T -> nat)
    ensures Coherent(Select(items, key, rank)) && DistinctBy(Values(Select(items, key, rank)), key)
  {
    SelectCoherent(items, key, rank);
    var s := Select(items, key, rank);
    SelectFacts(items, key, rank);
    assert forall i :: 0 <= i < |s.order| ==> key(Values(s)[i]) == s.order[i];
  }

  // ---------------------------------------------------------------------------
  // Properties of the result.

  lemma DedupeByFacts<T>(items: seq<T>, key: T -> string, rank: T -> nat, sortKey: T -> string)
    ensures DistinctBy(DedupeBy(items, key, rank, sortKey), key)
    ensures forall q :: q in DedupeBy(items, key, rank, sortKey) ==> q in items
    ensures forall q :: q in DedupeBy(items, key, rank, sortKey) ==>
              exists j :: 0 <= j < |items| && items[j] == q && BestIn(items, j, key, rank)
    ensures SortedBy(DedupeBy(items, key, rank, sortKey), sortKey)
  {
    SelectCoherent(items, key, rank);
    var s := Select(items, key, rank);
    var r := DedupeBy(items, key, rank, sortKey);
    ValuesDistinct(items, key, rank);
    SortDistinctBy(Values(s), sortKey, key);
    SortSorted(Values(s), sortKey);
    SelectEntries(items, key, rank);
    forall q | q in r ensures q in items && exists j :: 0 <= j < |items| && items[j] == q && BestIn(items, j, key, rank) {
      assert q in multiset(r);
      assert q in Values(s);
      var m :| 0 <= m < |s.order| && Values(s)[m] == q;
      var j := SelectedIndex(items, s.order[m], key, rank);
    }
  }

  lemma DedupeByCovers<T>(items: seq<T>, i: nat, key: T -> string, rank: T -> nat, sortKey: T -> string) returns (q: T)
    requires i < |items|
    ensures q in DedupeBy(items, key, rank, sortKey) && key(q) == key(items[i])
  {
    SelectCoherent(items, key, rank);
    var s := Select(items, key, rank);
    var r := DedupeBy(items, key, rank, sortKey);
    SelectEntries(items, key, rank);
    SelectCovers(items, key, rank);
    var k := key(items[i]);
    var m :| 0 <= m < |s.order| && s.order[m] == k;
    q := Values(s)[m];
    assert q in multiset(Values(s));
    assert q in multiset(r);
  }

  /** At most one path per key survives. */
  lemma DedupedOnePerKey(paths: seq<Path>)
    ensures DistinctBy(Deduped(paths), StemKey)
  {
    DedupeByFacts(paths, StemKey, Rank, SortKey);
  }

  /** Every survivor is one of the inputs. */
  lemma DedupedSubset(paths: seq<Path>)
    ensures forall q :: q in Deduped(paths) ==> q in paths
  {
    DedupeByFacts(paths, StemKey, Rank, SortKey);
  }

  /** The keys that occur in a sequence of paths. */
  function Keys(ps: seq<Path>): set<string> {
    set q | q in ps :: StemKey(q)
  }

  /** The survivors have exactly the keys of the input: every key keeps a representative. */
  lemma DedupedCoversKeys(paths: seq<Path>)
    ensures Keys(Deduped(paths)) == Keys(paths)
  {
    DedupeByFacts(paths, StemKey, Rank, SortKey);
    forall k | k in Keys(paths) ensures k in Keys(Deduped(paths)) {
      var i :| 0 <= i < |paths| && StemKey(paths[i]) == k;
      var q := DedupeByCovers(paths, i, StemKey, Rank, SortKey);
      assert StemKey(q) == k;
    }
  }

  /** Every survivor is the best of its group, and the earliest among equally good ones. */
  lemma DedupedKeepsBest(paths: seq<Path>)
    ensures forall q :: q in Deduped(paths) ==> exists j :: 0 <= j < |paths| && paths[j] == q && BestIn(paths, j, StemKey, Rank)
  {
    DedupeByFacts(paths, StemKey, Rank, SortKey);
  }

  /** The result is ordered by lower-cased posix form. */
  lemma DedupedSorted(paths: seq<Path>)
    ensures SortedBy(Deduped(paths), SortKey)
  {
    DedupeByFacts(paths, StemKey, Rank, SortKey);
  }
}
