/**
 * `git_changed_images`: the NUL-separated output of
 * `git status --porcelain -z -uall`, turned into the set of image files the
 * `--changed-only` mode restricts the run to.
 */
module GitStatus {
  import opened PyStrings
  import opened PyPaths
  import opened JsonValues
  import opened ImageScan
  import opened Collections

  /** `entry[3:]`: the two status letters and the space dropped; slicing clamps, so a short entry gives "". */
  function DropStatus(entry: string): string {
    if |entry| <= 3 then "" else entry[3..]
  }

  /** The path a non-empty porcelain entry names. */
  function EntryPath(entry: string): Path {
    FromString(DropStatus(entry))
  }

  /** The prefix test on strings: `str(p).startswith(str(root))`. */
  predicate PassesRootTest(entry: string, root: Path) {
    entry != "" && StartsWith(AsPosix(EntryPath(entry)), AsPosix(root))
  }

  /**
   * The images one porcelain entry contributes to the changed set: when its
   * path passes the prefix test, the image files of the walk under it if it
   * is a directory, and otherwise the path itself if it is an image file.
   */
  function EntryImages(entry: string, root: Path, tree: Tree): (r: set<Path>)
    ensures forall q :: q in r <==>
              && PassesRootTest(entry, root)
              && IsImageFile(tree, q)
              && (if EntryPath(entry) in tree.walks then q in tree.walks[EntryPath(entry)] else q == EntryPath(entry))
  {
    if entry == "" then {}
    else
      var p := EntryPath(entry);
      if !StartsWith(AsPosix(p), AsPosix(root)) then {}
      else if p in tree.walks then set q | q in IterImages(tree, p)
      else if Lower(Suffix(p)) !in SupportedExt then {}
      else if Exists(tree, p) then {p}
      else {}
  }

  /** The body of the loop over the entries: what one entry adds to the changed set. */
  method AddEntryImages(changed: set<Path>, entry: string, root: Path, tree: Tree) returns (next: set<Path>)
    ensures next == changed + EntryImages(entry, root, tree)
  {
    next := changed;
    if entry == "" {
      return;
    }
    var p := EntryPath(entry);
    if !StartsWith(AsPosix(p), AsPosix(root)) {
      return;
    }
    if p in tree.walks {
      var children := IterImages(tree, p);
      var k := 0;
      while k < |children|
        invariant 0 <= k <= |children|
        invariant next == changed + set q | q in children[..k]
      {
        assert children[..k + 1] == children[..k] + [children[k]];
        next := next + {children[k]};
        k := k + 1;
      }
      assert children[..k] == children;
      return;
    }
    if Lower(Suffix(p)) !in SupportedExt {
      return;
    }
    if Exists(tree, p) {
      next := next + {p};
    }
  }

  /** `EntryImages` as a function of the entry alone. */
  function EntryImagesUnder(root: Path, tree: Tree): string -> set<Path> {
    e => EntryImages(e, root, tree)
  }

  /** The images of every entry of the git output; nothing when running git raised. */
  function ChangedImages(status: Option<string>, root: Path, tree: Tree): set<Path> {
    if status.None? then {} else UnionOf(Split(status.value, '\0'), EntryImagesUnder(root, tree))
  }

  /** Every image an entry of the git output contributes is in the changed set. */
  lemma EntryImagesChanged(text: string, root: Path, tree: Tree, j: int)
    requires 0 <= j < |Split(text, '\0')|
    ensures EntryImages(Split(text, '\0')[j], root, tree) <= ChangedImages(Some(text), root, tree)
  {
    UnionOfHas(Split(text, '\0'), EntryImagesUnder(root, tree), j);
  }

  /** Every member of the changed set is an image file some entry of the git output contributes. */
  lemma ChangedImageEntry(text: string, root: Path, tree: Tree, p: Path) returns (j: int)
    requires p in ChangedImages(Some(text), root, tree)
    ensures 0 <= j < |Split(text, '\0')| && p in EntryImages(Split(text, '\0')[j], root, tree)
    ensures IsImageFile(tree, p)
  {
    j := UnionOfWitness(Split(text, '\0'), EntryImagesUnder(root, tree), p);
  }

  /** An entry adds only paths whose POSIX form starts with that of the root, unless the root is ".". */
  lemma EntryImagesUnderRoot(entry: string, root: Path, tree: Tree, q: Path)
    requires Consistent(tree) && WellFormed(root) && AsPosix(root) != "."
    requires q in EntryImages(entry, root, tree)
    ensures StartsWith(AsPosix(q), AsPosix(root))
  {
    var p := EntryPath(entry);
    if p in tree.walks {
      assert InParents(p, q);
      AsPosixNonEmpty(root);
      AncestorPrefix(p, q);
      StartsWithTransitive(AsPosix(q), AsPosix(p), AsPosix(root));
    }
  }

  /** Every member of the changed set lies under the root, as the string test of `str(root)` reads it. */
  lemma ChangedUnderRoot(status: Option<string>, root: Path, tree: Tree, q: Path)
    requires Consistent(tree) && WellFormed(root) && AsPosix(root) != "."
    requires q in ChangedImages(status, root, tree)
    ensures StartsWith(AsPosix(q), AsPosix(root))
  {
    var j := ChangedImageEntry(status.value, root, tree, q);
    EntryImagesUnderRoot(Split(status.value, '\0')[j], root, tree, q);
  }

  /**
   * An entry naming an image file under the root adds it; an entry naming a
   * directory under the root adds every image file of its walk.
   */
  lemma ChangedIncludesEntry(text: string, root: Path, tree: Tree, j: int)
    requires Consistent(tree) && 0 <= j < |Split(text, '\0')|
    ensures var entry := Split(text, '\0')[j];
            var p := EntryPath(entry);
            PassesRootTest(entry, root) ==>
              && (IsImageFile(tree, p) ==> p in ChangedImages(Some(text), root, tree))
              && (p in tree.walks ==>
                    forall q :: q in tree.walks[p] && IsImageFile(tree, q) ==> q in ChangedImages(Some(text), root, tree))
  {
    EntryImagesChanged(text, root, tree, j);
  }

  /**
   * With the root ".", the prefix test rejects a changed image whose path does
   * not start with a dot: `str(Path("."))` is ".", and `str(Path("a.jpg"))` is "a.jpg".
   */
  lemma DotRootRejectsPlainNames(tree: Tree)
    ensures EntryImages("?? a.jpg", Path(false, []), tree) == {}
  {
    var entry := "?? a.jpg";
    assert DropStatus(entry) == "a.jpg";
    SingleName("a.jpg");
    assert AsPosix(EntryPath(entry)) == "a.jpg";
    assert !StartsWith("a.jpg", ".");
  }

  /**
   * `git_changed_images`. `status` is the decoded output of the git command,
   * or `None` when running it raised.
   */
  method GitChangedImages(status: Option<string>, root: Path, tree: Tree) returns (changed: set<Path>)
    ensures changed == ChangedImages(status, root, tree)
    ensures status.None? ==> changed == {}
  {
    changed := {};
    if status.None? {
      return;
    }
    var entries := Split(status.value, '\0');
    ghost var f := EntryImagesUnder(root, tree);
    var i := 0;
    while i < |entries|
      invariant 0 <= i <= |entries|
      invariant changed == UnionOf(entries[..i], f)
    {
      assert entries[..i + 1][..i] == entries[..i];
      changed := AddEntryImages(changed, entries[i], root, tree);
      i := i + 1;
    }
    assert entries[..i] == entries;
  }
}
