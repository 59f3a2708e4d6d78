/**
 * `process_file`: the ordered decision chain that classifies one image, and
 * the integer placement `apply_mark` gives the watermark.
 */
module ProcessFile {
  import opened PyStrings
  import opened PyPaths
  import opened ImageNames

  /** The values `process_file` returns. */
  datatype Outcome = Processed | SkipProjectCard | SkipWatermarkedName | SkipSmall | Error

  /**
   * What the image library makes of the file: whether it decodes, its size,
   * and whether preparing and compositing the watermark, or saving the result,
   * raises.
   */
  datatype Picture = Picture(decodes: bool, width: nat, height: nat, markFails: bool, saveFails: bool)

  /** The outcome, and whether the file on disk was overwritten with the watermarked image. */
  datatype FileResult = FileResult(outcome: Outcome, saved: bool)

  /** Images smaller than this on either side are left alone. */
  const MinSide: int := 300

  /** `rel_path`: the path relative to the root's parent when that is one of its parents. */
  function RelPath(path: Path, rootDir: Path): Path {
    var base := Parent(rootDir);
    if InParents(base, path) then RelativeTo(path, base) else path
  }

  /** The two card tests, decided from the path alone. */
  predicate IsCard(path: Path, rootDir: Path, cards: set<Path>) {
    RelPath(path, rootDir) in cards || IsProjectCardVariant(path)
  }

  /** `process_file`: the first test that applies decides the result. */
  function Process(path: Path, pic: Picture, dryRun: bool, cards: set<Path>, rootDir: Path): FileResult {
    if RelPath(path, rootDir) in cards then FileResult(SkipProjectCard, false)
    else if IsProjectCardVariant(path) then FileResult(SkipProjectCard, false)
    else if IsAlreadyWatermarked(path) then FileResult(SkipWatermarkedName, false)
    else if !pic.decodes then FileResult(Error, false)
    else if pic.width < MinSide || pic.height < MinSide then FileResult(SkipSmall, false)
    else if pic.markFails then FileResult(Error, false)
    else if dryRun then FileResult(Processed, false)
    else if pic.saveFails then FileResult(Error, false)
    else FileResult(Processed, true)
  }

  /** A card image is reported as one whatever its name, contents or size. */
  lemma CardTakesPrecedence(path: Path, pic: Picture, dryRun: bool, cards: set<Path>, rootDir: Path)
    requires IsCard(path, rootDir, cards)
    ensures Process(path, pic, dryRun, cards, rootDir) == FileResult(SkipProjectCard, false)
  {
  }

  /** The result is "skip_project_card" exactly for card images. */
  lemma ProjectCardIff(path: Path, pic: Picture, dryRun: bool, cards: set<Path>, rootDir: Path)
    ensures Process(path, pic, dryRun, cards, rootDir).outcome == SkipProjectCard <==> IsCard(path, rootDir, cards)
  {
  }

  /** The result is "skip_watermarked_name" exactly for a branded name that is not a card. */
  lemma WatermarkedNameIff(path: Path, pic: Picture, dryRun: bool, cards: set<Path>, rootDir: Path)
    ensures Process(path, pic, dryRun, cards, rootDir).outcome == SkipWatermarkedName
            <==> !IsCard(path, rootDir, cards) && IsAlreadyWatermarked(path)
  {
  }

  /**
   * Both name-based skips are decided before the image is opened: the result
   * does not depend on what the image library would make of the file.
   */
  lemma NameSkipsIgnoreContents(path: Path, pic1: Picture, pic2: Picture, dryRun: bool, cards: set<Path>, rootDir: Path)
    requires Process(path, pic1, dryRun, cards, rootDir).outcome in {SkipProjectCard, SkipWatermarkedName}
    ensures Process(path, pic2, dryRun, cards, rootDir) == Process(path, pic1, dryRun, cards, rootDir)
  {
  }

  /** Among images that reach the size gate, "skip_small" is the result exactly when a side is below 300. */
  lemma SizeGate(path: Path, pic: Picture, dryRun: bool, cards: set<Path>, rootDir: Path)
    requires !IsCard(path, rootDir, cards) && !IsAlreadyWatermarked(path) && pic.decodes
    ensures Process(path, pic, dryRun, cards, rootDir).outcome == SkipSmall <==> pic.width < 300 || pic.height < 300
  {
  }

  /** The bound is inclusive: 300 by 300 is processed, 299 by 300 is skipped. */
  lemma SizeGateBoundary(path: Path, dryRun: bool, cards: set<Path>, rootDir: Path)
    requires !IsCard(path, rootDir, cards) && !IsAlreadyWatermarked(path)
    ensures Process(path, Picture(true, 300, 300, false, false), dryRun, cards, rootDir).outcome == Processed
    ensures Process(path, Picture(true, 299, 300, false, false), dryRun, cards, rootDir).outcome == SkipSmall
  {
  }

  /** Only an apply run that reports "processed" overwrites the file. */
  lemma SavedOnlyWhenProcessedApplied(path: Path, pic: Picture, dryRun: bool, cards: set<Path>, rootDir: Path)
    ensures var r := Process(path, pic, dryRun, cards, rootDir);
            r.saved <==> r.outcome == Processed && !dryRun
  {
  }

  /**
   * A dry run reports "processed" for exactly the files an apply run would
   * process if saving succeeded, and writes none of them.
   */
  lemma DryRunMatchesApply(path: Path, pic: Picture, cards: set<Path>, rootDir: Path)
    ensures Process(path, pic, true, cards, rootDir).outcome == Processed
            <==> Process(path, pic.(saveFails := false), false, cards, rootDir).outcome == Processed
    ensures !Process(path, pic, true, cards, rootDir).saved
  {
  }

  /**
   * `apply_mark`: the offset at which the mark is composited, each coordinate
   * `(canvas - mark) // 2` with floor division; `margin` is not used.
   */
  function MarkOffset(canvasWidth: int, canvasHeight: int, markWidth: int, markHeight: int, margin: int): (offset: (int, int))
    ensures 2 * offset.0 <= canvasWidth - markWidth <= 2 * offset.0 + 1
    ensures 2 * offset.1 <= canvasHeight - markHeight <= 2 * offset.1 + 1
  {
    ((canvasWidth - markWidth) / 2, (canvasHeight - markHeight) / 2)
  }

  /** The margin argument has no effect on the placement. */
  lemma OffsetIgnoresMargin(cw: int, ch: int, mw: int, mh: int, m1: int, m2: int)
    ensures MarkOffset(cw, ch, mw, mh, m1) == MarkOffset(cw, ch, mw, mh, m2)
  {
  }

  /** The mark is centred: the space left on its two sides differs by at most one pixel, the extra one on the right or bottom. */
  lemma OffsetCentres(cw: int, ch: int, mw: int, mh: int, margin: int)
    ensures var (x, y) := MarkOffset(cw, ch, mw, mh, margin);
            (cw - mw - x) - x in {0, 1} && (ch - mh - y) - y in {0, 1}
  {
  }
}
