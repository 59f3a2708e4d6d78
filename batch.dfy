/**
 * The main loop of the watermarker: for each image it decides between
 * "skipped_unchanged", "skip_manifest", recording the hash only, and
 * processing the file; it bumps one summary counter and keeps the manifest of
 * file hashes up to date.
 */
module Batch {
  import opened PyPaths
  import opened JsonValues
  import opened ProcessFile

  /** The keys of the summary: the five results of `process_file`, and the two skips decided by the loop itself. */
  datatype Counter = Result(outcome: Outcome) | SkippedUnchanged | SkipManifest

  /**
   * One image as the loop sees it: its path, the SHA-256 of its contents, what
   * the image library makes of it, and the SHA-256 of the file once the
   * watermarked image has been saved over it.
   */
  datatype ImageFile = ImageFile(path: Path, hash: string, pic: Picture, savedHash: string)

  datatype Flags = Flags(dryRun: bool, recordOnly: bool)

  /** The manifest (posix path to hash) and the counters. */
  datatype State = State(manifest: map<string, string>, counts: map<Counter, nat>)

  /** The counters as `main` creates them, all zero. */
  const InitialCounts: map<Counter, nat> := map[
    Result(Processed) := 0, SkippedUnchanged := 0, Result(SkipProjectCard) := 0,
    Result(SkipWatermarkedName) := 0, Result(SkipSmall) := 0, SkipManifest := 0, Result(Error) := 0]

  function Key(img: ImageFile): string {
    AsPosix(img.path)
  }

  /** `counts.get(key, 0)`. */
  function Count(counts: map<Counter, nat>, c: Counter): nat {
    if c in counts then counts[c] else 0
  }

  /** `counts[c] = counts.get(c, 0) + 1`. */
  function Bump(counts: map<Counter, nat>, c: Counter): map<Counter, nat> {
    counts[c := Count(counts, c) + 1]
  }

  /** The sum of the seven counters. */
  function Total(counts: map<Counter, nat>): nat {
    Count(counts, Result(Processed)) + Count(counts, SkippedUnchanged) + Count(counts, SkipManifest)
    + Count(counts, Result(SkipProjectCard)) + Count(counts, Result(SkipWatermarkedName))
    + Count(counts, Result(SkipSmall)) + Count(counts, Result(Error))
  }

  /** `manifest.get(key)`. */
  function Lookup(m: map<string, string>, k: string): Option<string> {
    if k in m then Some(m[k]) else None
  }

  /** An empty changed set restricts nothing; a non-empty one admits only its members. */
  predicate Selected(changed: set<Path>, img: ImageFile) {
    changed == {} || img.path in changed
  }

  /** The counter one iteration bumps, given the manifest before it. */
  function StepCounter(m: map<string, string>, img: ImageFile, flags: Flags, changed: set<Path>,
                       cards: set<Path>, root: Path): Counter
  {
    if !Selected(changed, img) then SkippedUnchanged
    else if Lookup(m, Key(img)) == Some(img.hash) then SkipManifest
    else if flags.recordOnly then SkipManifest
    else Result(Process(img.path, img.pic, flags.dryRun, cards, root).outcome)
  }

  /** The manifest after one iteration. */
  function StepManifest(m: map<string, string>, img: ImageFile, flags: Flags, changed: set<Path>,
                        cards: set<Path>, root: Path): map<string, string>
  {
    if !Selected(changed, img) then m
    else if Lookup(m, Key(img)) == Some(img.hash) then m
    else if flags.recordOnly then m[Key(img) := img.hash]
    else if Process(img.path, img.pic, flags.dryRun, cards, root).outcome == Processed && !flags.dryRun
    then m[Key(img) := img.savedHash]
    else m
  }

  function Step(st: State, img: ImageFile, flags: Flags, changed: set<Path>, cards: set<Path>, root: Path): State {
    State(StepManifest(st.manifest, img, flags, changed, cards, root),
          Bump(st.counts, StepCounter(st.manifest, img, flags, changed, cards, root)))
  }

  /** The state after the loop has gone through `imgs` in order. */
  function Run(st: State, imgs: seq<ImageFile>, flags: Flags, changed: set<Path>, cards: set<Path>, root: Path): State {
    if imgs == [] then st
    else Step(Run(st, imgs[..|imgs| - 1], flags, changed, cards, root), imgs[|imgs| - 1], flags, changed, cards, root)
  }

  /** The manifest just before image `i` is handled. */
  function ManifestBefore(m0: map<string, string>, imgs: seq<ImageFile>, i: nat, flags: Flags, changed: set<Path>,
                          cards: set<Path>, root: Path): map<string, string>
    requires i <= |imgs|
  {
    Run(State(m0, InitialCounts), imgs[..i], flags, changed, cards, root).manifest
  }

  /**
   * The manifest file once `main` has finished: an apply run writes the
   * manifest the loop built, a dry run (record-only or not) writes nothing.
   */
  function SavedManifest(m0: map<string, string>, imgs: seq<ImageFile>, flags: Flags, changed: set<Path>,
                         cards: set<Path>, root: Path): map<string, string>
  {
    if flags.dryRun then m0 else Run(State(m0, InitialCounts), imgs, flags, changed, cards, root).manifest
  }

  /** The body of the loop for one image: the dictionaries are updated as `main` updates them. */
  method HandleImage(manifest0: map<string, string>, counts0: map<Counter, nat>, img: ImageFile, flags: Flags,
                     changed: set<Path>, cards: set<Path>, root: Path)
    returns (manifest: map<string, string>, counts: map<Counter, nat>)
    ensures State(manifest, counts) == Step(State(manifest0, counts0), img, flags, changed, cards, root)
  {
    manifest, counts := manifest0, counts0;
    if changed != {} && img.path !in changed {
      counts := counts[SkippedUnchanged := Count(counts, SkippedUnchanged) + 1];
      return;
    }
    var key := AsPosix(img.path);
    var currentHash := img.hash;
    if key in manifest && manifest[key] == currentHash {
      counts := counts[SkipManifest := Count(counts, SkipManifest) + 1];
      return;
    }
    if flags.recordOnly {
      manifest := manifest[key := currentHash];
      counts := counts[SkipManifest := Count(counts, SkipManifest) + 1];
      return;
    }
    var result := Process(img.path, img.pic, flags.dryRun, cards, root);
    counts := counts[Result(result.outcome) := Count(counts, Result(result.outcome)) + 1];
    if result.outcome == Processed && !flags.dryRun {
      manifest := manifest[key := img.savedHash];
    }
  }

  /**
   * The loop of `main` over `iter_images(root)`. The manifest and the counters
   * are the dictionaries it updates in place; `changed` is the changed-only
   * set, empty when that mode is off.
   */
  method RunBatch(images: seq<ImageFile>, manifest0: map<string, string>, flags: Flags, changed: set<Path>,
                  cards: set<Path>, root: Path)
    returns (manifest: map<string, string>, counts: map<Counter, nat>)
    ensures State(manifest, counts) == Run(State(manifest0, InitialCounts), images, flags, changed, cards, root)
    ensures Total(counts) == |images|
    ensures manifest0.Keys <= manifest.Keys
  {
    ghost var st0 := State(manifest0, InitialCounts);
    manifest := manifest0;
    counts := InitialCounts;
    var i := 0;
    while i < |images|
      invariant 0 <= i <= |images|
      invariant State(manifest, counts) == Run(st0, images[..i], flags, changed, cards, root)
    {
      assert images[..i + 1][..i] == images[..i];
      ghost var next := Run(st0, images[..i + 1], flags, changed, cards, root);
      assert next == Step(State(manifest, counts), images[i], flags, changed, cards, root);
      manifest, counts := HandleImage(manifest, counts, images[i], flags, changed, cards, root);
      i := i + 1;
    }
    assert images[..i] == images;
    assert Total(counts) == |images| by {
      RunCountsEveryImage(st0, images, flags, changed, cards, root);
    }
    assert manifest0.Keys <= manifest.Keys by {
      RunKeepsKeys(st0, images, flags, changed, cards, root);
    }
  }

  // ---------------------------------------------------------------------------
  // Properties of one iteration.

  /** Every iteration bumps exactly one counter by one. */
  lemma BumpAddsOne(counts: map<Counter, nat>, c: Counter)
    ensures Total(Bump(counts, c)) == Total(counts) + 1
    ensures Count(Bump(counts, c), c) == Count(counts, c) + 1
    ensures forall d :: d != c ==> Count(Bump(counts, c), d) == Count(counts, d)
  {
    match c
    case SkippedUnchanged =>
    case SkipManifest =>
    case Result(o) =>
      match o
      case Processed =>
      case SkipProjectCard =>
      case SkipWatermarkedName =>
      case SkipSmall =>
      case Error =>
  }

  /** An image outside a non-empty changed set is counted as unchanged and leaves the manifest alone. */
  lemma UnselectedIsSkipped(m: map<string, string>, img: ImageFile, flags: Flags, changed: set<Path>,
                            cards: set<Path>, root: Path)
    requires changed != {} && img.path !in changed
    ensures StepCounter(m, img, flags, changed, cards, root) == SkippedUnchanged
    ensures StepManifest(m, img, flags, changed, cards, root) == m
  {
  }

  /** A selected image whose stored hash is its current hash is counted as skip_manifest and left alone. */
  lemma KnownHashIsSkipped(m: map<string, string>, img: ImageFile, flags: Flags, changed: set<Path>,
                           cards: set<Path>, root: Path)
    requires Selected(changed, img) && Key(img) in m && m[Key(img)] == img.hash
    ensures StepCounter(m, img, flags, changed, cards, root) == SkipManifest
    ensures StepManifest(m, img, flags, changed, cards, root) == m
  {
  }

  /**
   * An iteration changes the manifest only at the image's own key, and only
   * to record the current hash (record-only) or the hash of the saved file
   * (an apply run that processed it).
   */
  lemma StepWritesOwnKey(m: map<string, string>, img: ImageFile, flags: Flags, changed: set<Path>,
                         cards: set<Path>, root: Path)
    ensures var m' := StepManifest(m, img, flags, changed, cards, root);
            var c := StepCounter(m, img, flags, changed, cards, root);
            && m.Keys <= m'.Keys
            && (forall k :: k != Key(img) ==> Lookup(m', k) == Lookup(m, k))
            && (m' != m ==>
                  (flags.recordOnly && c == SkipManifest && m' == m[Key(img) := img.hash])
                  || (!flags.recordOnly && !flags.dryRun && c == Result(Processed) && m' == m[Key(img) := img.savedHash]))
  {
  }

  /** What an iteration decides depends on the manifest only through the entry at the image's key. */
  lemma StepDependsOnOwnEntry(m1: map<string, string>, m2: map<string, string>, img: ImageFile, flags: Flags,
                              changed: set<Path>, cards: set<Path>, root: Path)
    requires Lookup(m1, Key(img)) == Lookup(m2, Key(img))
    ensures StepCounter(m1, img, flags, changed, cards, root) == StepCounter(m2, img, flags, changed, cards, root)
    ensures Lookup(StepManifest(m1, img, flags, changed, cards, root), Key(img))
            == Lookup(StepManifest(m2, img, flags, changed, cards, root), Key(img))
  {
  }

  // ---------------------------------------------------------------------------
  // Properties of the whole loop.

  /** Each image bumps exactly one counter, so the counters add up to the number of images. */
  lemma {:induction false} RunCountsEveryImage(st: State, imgs: seq<ImageFile>, flags: Flags, changed: set<Path>,
                                               cards: set<Path>, root: Path)
    ensures Total(Run(st, imgs, flags, changed, cards, root).counts) == Total(st.counts) + |imgs|
  {
    if imgs != [] {
      var before := Run(st, imgs[..|imgs| - 1], flags, changed, cards, root);
      RunCountsEveryImage(st, imgs[..|imgs| - 1], flags, changed, cards, root);
      BumpAddsOne(before.counts, StepCounter(before.manifest, imgs[|imgs| - 1], flags, changed, cards, root));
    }
  }

  /** Manifest entries are never removed, and an entry no image of the run maps to keeps its value. */
  lemma {:induction false} RunKeepsKeys(st: State, imgs: seq<ImageFile>, flags: Flags, changed: set<Path>,
                                        cards: set<Path>, root: Path)
    ensures st.manifest.Keys <= Run(st, imgs, flags, changed, cards, root).manifest.Keys
    ensures forall k :: (forall i :: 0 <= i < |imgs| ==> Key(imgs[i]) != k) ==>
              Lookup(Run(st, imgs, flags, changed, cards, root).manifest, k) == Lookup(st.manifest, k)
  {
    if imgs != [] {
      var init := imgs[..|imgs| - 1];
      var before := Run(st, init, flags, changed, cards, root);
      RunKeepsKeys(st, init, flags, changed, cards, root);
      StepWritesOwnKey(before.manifest, imgs[|imgs| - 1], flags, changed, cards, root);
      assert forall i :: 0 <= i < |init| ==> init[i] == imgs[i];
    }
  }

  /** A dry run that is not record-only leaves the manifest exactly as it found it. */
  lemma {:induction false} DryRunKeepsManifest(st: State, imgs: seq<ImageFile>, flags: Flags, changed: set<Path>,
                                               cards: set<Path>, root: Path)
    requires flags.dryRun && !flags.recordOnly
    ensures Run(st, imgs, flags, changed, cards, root).manifest == st.manifest
  {
    if imgs != [] {
      DryRunKeepsManifest(st, imgs[..|imgs| - 1], flags, changed, cards, root);
    }
  }

  /**
   * No dry run changes the manifest file, a record-only one included, even
   * though a record-only dry run updates the manifest in memory.
   */
  lemma DryRunSavesNothing(m0: map<string, string>, imgs: seq<ImageFile>, flags: Flags, changed: set<Path>,
                           cards: set<Path>, root: Path)
    requires flags.dryRun
    ensures SavedManifest(m0, imgs, flags, changed, cards, root) == m0
    ensures !flags.recordOnly ==> Run(State(m0, InitialCounts), imgs, flags, changed, cards, root).manifest == m0
  {
    if !flags.recordOnly {
      DryRunKeepsManifest(State(m0, InitialCounts), imgs, flags, changed, cards, root);
    }
  }

  /** With an empty changed set no image is counted as skipped_unchanged. */
  lemma {:induction false} EmptyChangedSetRestrictsNothing(st: State, imgs: seq<ImageFile>, flags: Flags,
                                                           cards: set<Path>, root: Path)
    ensures Count(Run(st, imgs, flags, {}, cards, root).counts, SkippedUnchanged) == Count(st.counts, SkippedUnchanged)
  {
    if imgs != [] {
      var before := Run(st, imgs[..|imgs| - 1], flags, {}, cards, root);
      EmptyChangedSetRestrictsNothing(st, imgs[..|imgs| - 1], flags, cards, root);
      BumpAddsOne(before.counts, StepCounter(before.manifest, imgs[|imgs| - 1], flags, {}, cards, root));
    }
  }

  /** Running over `a` and then over `b` is running over `a + b`. */
  lemma {:induction false} RunAppend(st: State, a: seq<ImageFile>, b: seq<ImageFile>, flags: Flags, changed: set<Path>,
                                     cards: set<Path>, root: Path)
    ensures Run(st, a + b, flags, changed, cards, root) == Run(Run(st, a, flags, changed, cards, root), b, flags, changed, cards, root)
  {
    if b == [] {
      assert a + b == a;
    } else {
      assert (a + b)[..|a + b| - 1] == a + b[..|b| - 1];
      RunAppend(st, a, b[..|b| - 1], flags, changed, cards, root);
    }
  }

  predicate DistinctKeys(imgs: seq<ImageFile>) {
    forall i, j :: 0 <= i < j < |imgs| ==> Key(imgs[i]) != Key(imgs[j])
  }

  /** With distinct keys, the final manifest holds at image `i`'s key what iteration `i` left there. */
  lemma FinalEntryIsStepEntry(m0: map<string, string>, imgs: seq<ImageFile>, i: nat, flags: Flags, changed: set<Path>,
                              cards: set<Path>, root: Path)
    requires i < |imgs| && DistinctKeys(imgs)
    ensures var st0 := State(m0, InitialCounts);
            Lookup(Run(st0, imgs, flags, changed, cards, root).manifest, Key(imgs[i]))
            == Lookup(StepManifest(ManifestBefore(m0, imgs, i, flags, changed, cards, root), imgs[i], flags, changed, cards, root),
                      Key(imgs[i]))
  {
    var st0 := State(m0, InitialCounts);
    var upTo := imgs[..i + 1];
    var rest := imgs[i + 1..];
    var k := Key(imgs[i]);
    assert imgs == upTo + rest;
    RunAppend(st0, upTo, rest, flags, changed, cards, root);
    assert upTo[..i] == imgs[..i] && upTo[i] == imgs[i];
    var mid := Run(st0, upTo, flags, changed, cards, root);
    assert mid.manifest == StepManifest(ManifestBefore(m0, imgs, i, flags, changed, cards, root), imgs[i], flags, changed, cards, root);
    assert forall j :: 0 <= j < |rest| ==> Key(rest[j]) != k by {
      forall j | 0 <= j < |rest| ensures Key(rest[j]) != k {
        assert rest[j] == imgs[i + 1 + j];
      }
    }
    RunKeepsKeys(mid, rest, flags, changed, cards, root);
  }

  /** With distinct keys, the manifest before image `i` still holds the initial entry at its key. */
  lemma EntryBeforeIsInitial(m0: map<string, string>, imgs: seq<ImageFile>, i: nat, flags: Flags, changed: set<Path>,
                             cards: set<Path>, root: Path)
    requires i < |imgs| && DistinctKeys(imgs)
    ensures Lookup(ManifestBefore(m0, imgs, i, flags, changed, cards, root), Key(imgs[i])) == Lookup(m0, Key(imgs[i]))
  {
    var prefix := imgs[..i];
    RunKeepsKeys(State(m0, InitialCounts), prefix, flags, changed, cards, root);
    assert forall j :: 0 <= j < |prefix| ==> prefix[j] == imgs[j];
  }

  /** A counter no iteration bumps keeps its starting value. */
  lemma {:induction false} UnbumpedCounter(st: State, imgs: seq<ImageFile>, c: Counter, flags: Flags, changed: set<Path>,
                                           cards: set<Path>, root: Path)
    requires forall i :: 0 <= i < |imgs| ==>
               StepCounter(Run(st, imgs[..i], flags, changed, cards, root).manifest, imgs[i], flags, changed, cards, root) != c
    ensures Count(Run(st, imgs, flags, changed, cards, root).counts, c) == Count(st.counts, c)
  {
    if imgs != [] {
      var n := |imgs| - 1;
      var init := imgs[..n];
      forall i | 0 <= i < |init|
        ensures StepCounter(Run(st, init[..i], flags, changed, cards, root).manifest, init[i], flags, changed, cards, root) != c
      {
        assert init[..i] == imgs[..i] && init[i] == imgs[i];
      }
      UnbumpedCounter(st, init, c, flags, changed, cards, root);
      BumpAddsOne(Run(st, init, flags, changed, cards, root).counts,
                  StepCounter(Run(st, init, flags, changed, cards, root).manifest, imgs[n], flags, changed, cards, root));
    }
  }

  /** Whether iteration `i` of a run from `m0` processed its image. */
  predicate ProcessedAt(m0: map<string, string>, imgs: seq<ImageFile>, i: nat, flags: Flags, changed: set<Path>,
                        cards: set<Path>, root: Path)
    requires i < |imgs|
  {
    StepCounter(ManifestBefore(m0, imgs, i, flags, changed, cards, root), imgs[i], flags, changed, cards, root) == Result(Processed)
  }

  /**
   * The files as an apply run leaves them: a processed file now has the hash
   * of its watermarked contents (and whatever the library makes of those);
   * every other file is as it was.
   */
  predicate LeftBy(m0: map<string, string>, imgs: seq<ImageFile>, after: seq<ImageFile>, flags: Flags, changed: set<Path>,
                   cards: set<Path>, root: Path)
  {
    && |after| == |imgs|
    && forall i :: 0 <= i < |imgs| ==>
         if ProcessedAt(m0, imgs, i, flags, changed, cards, root)
         then after[i].path == imgs[i].path && after[i].hash == imgs[i].savedHash
         else after[i] == imgs[i]
  }

  /** Iteration `i` of the second run does not process its image. */
  lemma RerunStepNotProcessed(m0: map<string, string>, imgs: seq<ImageFile>, after: seq<ImageFile>, i: nat, flags: Flags,
                              changed: set<Path>, cards: set<Path>, root: Path)
    requires !flags.dryRun && !flags.recordOnly && DistinctKeys(imgs)
    requires LeftBy(m0, imgs, after, flags, changed, cards, root)
    requires i < |imgs|
    ensures var m1 := Run(State(m0, InitialCounts), imgs, flags, changed, cards, root).manifest;
            StepCounter(ManifestBefore(m1, after, i, flags, changed, cards, root), after[i], flags, changed, cards, root)
            != Result(Processed)
  {
    var m1 := Run(State(m0, InitialCounts), imgs, flags, changed, cards, root).manifest;
    var mi := ManifestBefore(m0, imgs, i, flags, changed, cards, root);
    var ni := ManifestBefore(m1, after, i, flags, changed, cards, root);
    assert Key(after[i]) == Key(imgs[i]);
    assert DistinctKeys(after) by {
      forall a, b | 0 <= a < b < |after| ensures Key(after[a]) != Key(after[b]) {
        assert Key(after[a]) == Key(imgs[a]) && Key(after[b]) == Key(imgs[b]);
      }
    }
    EntryBeforeIsInitial(m1, after, i, flags, changed, cards, root);
    FinalEntryIsStepEntry(m0, imgs, i, flags, changed, cards, root);
    EntryBeforeIsInitial(m0, imgs, i, flags, changed, cards, root);
    if !ProcessedAt(m0, imgs, i, flags, changed, cards, root) {
      StepWritesOwnKey(mi, imgs[i], flags, changed, cards, root);
      StepDependsOnOwnEntry(ni, mi, imgs[i], flags, changed, cards, root);
    }
  }

  /**
   * Re-running an apply run over the files it left, with the manifest file it
   * saved, processes nothing: every file it processed is now recognised by its
   * new hash, and every other file meets the same decision as before. Both
   * runs are given the same changed set.
   */
  lemma RerunProcessesNothing(m0: map<string, string>, imgs: seq<ImageFile>, after: seq<ImageFile>, flags: Flags,
                              changed: set<Path>, cards: set<Path>, root: Path)
    requires !flags.dryRun && !flags.recordOnly && DistinctKeys(imgs)
    requires LeftBy(m0, imgs, after, flags, changed, cards, root)
    ensures var m1 := SavedManifest(m0, imgs, flags, changed, cards, root);
            Count(Run(State(m1, InitialCounts), after, flags, changed, cards, root).counts, Result(Processed)) == 0
  {
    var m1 := Run(State(m0, InitialCounts), imgs, flags, changed, cards, root).manifest;
    forall i | 0 <= i < |after|
      ensures StepCounter(Run(State(m1, InitialCounts), after[..i], flags, changed, cards, root).manifest, after[i],
                          flags, changed, cards, root) != Result(Processed)
    {
      RerunStepNotProcessed(m0, imgs, after, i, flags, changed, cards, root);
    }
    UnbumpedCounter(State(m1, InitialCounts), after, Result(Processed), flags, changed, cards, root);
  }

  /**
   * After a record-only run that is not a dry run, any later run over the
   * same files, from the manifest file it saved, counts every selected image
   * as skip_manifest, so none is processed. A record-only dry run saves
   * nothing (`DryRunSavesNothing`), so the later run starts from the old file.
   */
  lemma RecordOnlyThenAllKnown(m0: map<string, string>, imgs: seq<ImageFile>, i: nat, record: Flags, later: Flags,
                               changed: set<Path>, cards: set<Path>, root: Path)
    requires record.recordOnly && !record.dryRun && DistinctKeys(imgs) && i < |imgs| && Selected(changed, imgs[i])
    ensures var m1 := SavedManifest(m0, imgs, record, changed, cards, root);
            StepCounter(ManifestBefore(m1, imgs, i, later, changed, cards, root), imgs[i], later, changed, cards, root)
            == SkipManifest
  {
    var m1 := Run(State(m0, InitialCounts), imgs, record, changed, cards, root).manifest;
    FinalEntryIsStepEntry(m0, imgs, i, record, changed, cards, root);
    EntryBeforeIsInitial(m1, imgs, i, later, changed, cards, root);
  }
}
