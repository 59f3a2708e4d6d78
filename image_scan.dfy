/**
 * The view both scripts have of the file tree: which paths are files, what a
 * recursive walk and a one-level listing of each directory yield; and the
 * watermarker's `iter_images`, which keeps the files with a supported
 * extension.
 */
module ImageScan {
  import opened PyStrings
  import opened PyPaths

  /** The extensions the watermarker handles, compared lower-cased. */
  const SupportedExt: set<string> := {".jpg", ".jpeg", ".png", ".webp"}

  /**
   * `files` are the regular files; `walks` maps every directory to what
   * `rglob("*")` yields under it, and `listings` to what `iterdir()` yields,
   * in the order they yield them. A directory missing from `listings` lists
   * nothing.
   */
  datatype Tree = Tree(files: set<Path>, walks: map<Path, seq<Path>>, listings: map<Path, seq<Path>>)

  /** What a real file system guarantees: `rglob` yields descendants only, and no file is a directory. */
  predicate Consistent(tree: Tree) {
    && (forall d, q :: d in tree.walks && q in tree.walks[d] ==> InParents(d, q))
    && (forall p :: p in tree.files ==> p !in tree.walks)
  }

  /** `p.exists()`. */
  predicate Exists(tree: Tree, p: Path) {
    p in tree.files || p in tree.walks
  }

  /** `p.is_dir()`. */
  predicate IsDir(tree: Tree, p: Path) {
    p in tree.walks
  }

  /** `p.iterdir()` for a directory. */
  function Listing(tree: Tree, p: Path): seq<Path> {
    if p in tree.listings then tree.listings[p] else []
  }

  predicate IsImageFile(tree: Tree, p: Path) {
    p in tree.files && Lower(Suffix(p)) in SupportedExt
  }

  /** The loop body of `iter_images`: non-files and unsupported extensions are passed over. */
  function FilterImages(tree: Tree, ps: seq<Path>): (r: seq<Path>)
    ensures |r| <= |ps|
    ensures forall p :: p in r <==> p in ps && IsImageFile(tree, p)
  {
    if ps == [] then []
    else if IsImageFile(tree, ps[0]) then [ps[0]] + FilterImages(tree, ps[1..])
    else FilterImages(tree, ps[1..])
  }

  /** `iter_images(root)`: a root that is not a directory yields nothing. */
  function IterImages(tree: Tree, root: Path): (r: seq<Path>)
    ensures forall p :: p in r <==> root in tree.walks && p in tree.walks[root] && IsImageFile(tree, p)
    ensures root !in tree.walks ==> r == []
  {
    if root in tree.walks then FilterImages(tree, tree.walks[root]) else []
  }
}
