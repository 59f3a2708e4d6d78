/**
 * `list_images` and `list_top_level_images` of the asset synchronizer: the
 * entries of a directory (all of them recursively, or the top level only),
 * sorted, narrowed to files with an accepted extension, and deduplicated.
 */
module AssetListing {
  import opened PyStrings
  import opened PyPaths
  import opened ImageScan
  import opened StableSort
  import opened Dedupe

  /** The extensions of gallery images. */
  const ImageExt: set<string> := {".jpg", ".jpeg", ".png", ".webp"}

  /** The extensions of asset files: the images and PDF documents. */
  const AssetExt: set<string> := ImageExt + {".pdf"}

  /** `p.is_file() and p.suffix.lower() in exts`. */
  predicate Wanted(tree: Tree, p: Path, exts: set<string>) {
    p in tree.files && Lower(Suffix(p)) in exts
  }

  /** The entries the loop appends to `out`, in the order it meets them. */
  function Matching(tree: Tree, ps: seq<Path>, exts: set<string>): (r: seq<Path>)
    ensures forall p :: p in r <==> p in ps && Wanted(tree, p, exts)
  {
    if ps == [] then []
    else
      var init := ps[..|ps| - 1];
      var p := ps[|ps| - 1];
      assert ps == init + [p];
      if Wanted(tree, p, exts) then Matching(tree, init, exts) + [p] else Matching(tree, init, exts)
  }

  /** The loop that appends every wanted entry to `out`. */
  method CollectMatching(tree: Tree, ps: seq<Path>, exts: set<string>) returns (out: seq<Path>)
    ensures out == Matching(tree, ps, exts)
  {
    out := [];
    for i := 0 to |ps|
      invariant out == Matching(tree, ps[..i], exts)
    {
      assert ps[..i + 1][..i] == ps[..i];
      if ps[i] in tree.files && Lower(Suffix(ps[i])) in exts {
        out := out + [ps[i]];
      }
    }
    assert ps[..|ps|] == ps;
  }

  /** What a listing of `entries` returns once sorted, filtered and deduplicated. */
  function Listed(tree: Tree, entries: seq<Path>, exts: set<string>): seq<Path> {
    Deduped(Matching(tree, Sort(entries, SortKey), exts))
  }

  /** The keys of the wanted entries. */
  function WantedKeys(tree: Tree, entries: seq<Path>, exts: set<string>): set<string> {
    set q | q in entries && Wanted(tree, q, exts) :: StemKey(q)
  }

  /**
   * A listing holds only wanted entries, one per key and one for every key of
   * a wanted entry, sorted by lower-cased posix form.
   */
  lemma ListedFacts(tree: Tree, entries: seq<Path>, exts: set<string>)
    ensures forall q :: q in Listed(tree, entries, exts) ==> q in entries && Wanted(tree, q, exts)
    ensures DistinctBy(Listed(tree, entries, exts), StemKey)
    ensures Keys(Listed(tree, entries, exts)) == WantedKeys(tree, entries, exts)
    ensures SortedBy(Listed(tree, entries, exts), SortKey)
  {
    var sorted := Sort(entries, SortKey);
    var m := Matching(tree, sorted, exts);
    assert forall q :: q in sorted <==> q in entries by {
      forall q ensures q in sorted <==> q in entries {
        assert q in sorted <==> q in multiset(sorted);
      }
    }
    DedupedSubset(m);
    DedupedOnePerKey(m);
    DedupedCoversKeys(m);
    DedupedSorted(m);
    assert Keys(m) == WantedKeys(tree, entries, exts);
  }

  /** `list_images(path)`: a path that is not an existing directory lists nothing. */
  function ListImagesOf(tree: Tree, dir: Path): seq<Path> {
    if IsDir(tree, dir) then Listed(tree, tree.walks[dir], AssetExt) else []
  }

  /** `list_top_level_images(path)`. */
  function ListTopLevelImagesOf(tree: Tree, dir: Path): seq<Path> {
    if IsDir(tree, dir) then Listed(tree, Listing(tree, dir), ImageExt) else []
  }

  /** `list_images`: every asset file under `dir`, one per name, preferring the better image format. */
  method ListImages(tree: Tree, dir: Path) returns (out: seq<Path>)
    ensures out == ListImagesOf(tree, dir)
    ensures !IsDir(tree, dir) ==> out == []
    ensures IsDir(tree, dir) ==>
              && (forall q :: q in out ==> q in tree.walks[dir] && Wanted(tree, q, AssetExt))
              && Keys(out) == WantedKeys(tree, tree.walks[dir], AssetExt)
    ensures DistinctBy(out, StemKey) && SortedBy(out, SortKey)
  {
    if !Exists(tree, dir) || !IsDir(tree, dir) {
      return [];
    }
    var candidates := Sort(tree.walks[dir], SortKey);
    var kept := CollectMatching(tree, candidates, AssetExt);
    out := DedupePrefer(kept);
    ListedFacts(tree, tree.walks[dir], AssetExt);
  }

  /** `list_top_level_images`: the image files directly in `dir`, one per name. */
  method ListTopLevelImages(tree: Tree, dir: Path) returns (out: seq<Path>)
    ensures out == ListTopLevelImagesOf(tree, dir)
    ensures !IsDir(tree, dir) ==> out == []
    ensures IsDir(tree, dir) ==>
              && (forall q :: q in out ==> q in Listing(tree, dir) && Wanted(tree, q, ImageExt))
              && Keys(out) == WantedKeys(tree, Listing(tree, dir), ImageExt)
    ensures DistinctBy(out, StemKey) && SortedBy(out, SortKey)
  {
    if !Exists(tree, dir) || !IsDir(tree, dir) {
      return [];
    }
    var candidates := Sort(Listing(tree, dir), SortKey);
    var kept := CollectMatching(tree, candidates, ImageExt);
    out := DedupePrefer(kept);
    ListedFacts(tree, Listing(tree, dir), ImageExt);
  }

  /** A top-level listing holds images only, never a PDF. */
  lemma TopLevelHasNoPdf(tree: Tree, dir: Path)
    ensures forall q :: q in ListTopLevelImagesOf(tree, dir) ==> Lower(Suffix(q)) in ImageExt && Lower(Suffix(q)) != ".pdf"
  {
    if IsDir(tree, dir) {
      ListedFacts(tree, Listing(tree, dir), ImageExt);
      assert ".pdf" !in ImageExt;
    }
  }
}
