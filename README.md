# Image watermarking and asset sync for a property-listing site

This project models the two maintenance scripts of a property-listing site in
Dafny and proves properties of the model.

- `scripts/process_project_images.py`, the watermarker. It walks the image
  folder. An image it has not seen before gets a centred watermark, and the
  script records the file's SHA-256 in a manifest so that later runs skip it.
  Three kinds of image are left alone:
  - project "card" images: the images the catalog `projects.json` names, and
    every image whose lower-cased name ends in `main.<ext>` or
    `main-<digits>w.<ext>` for one of the four extensions `jpg`, `jpeg`,
    `png` and `webp` (so `domain.jpg` counts too);
  - images whose names already mark them as watermarked;
  - images smaller than 300 pixels on either side.

  A `--changed-only` run counts every image outside the set that
  `git status` reports as `skipped_unchanged`; an empty report, or a failed
  `git`, restricts nothing. A `--record-only` run only records hashes. A dry
  run, record-only or not, classifies without writing anything, the manifest
  file included.
- `scripts/sync_project_assets.py`, the asset synchronizer. For every catalog
  project whose name `PROJECT_FOLDER_MAP` maps to an existing folder, it
  rebuilds four string arrays of the project from the folder's contents:
  - `images`: the top-level images, minus the main image;
  - `floorPlans`: from `Floor Plan/`, or `Floorplans/` when that is missing;
  - `facilities`: from `Facility/`;
  - `unitLayouts`: from `Unit Layout/`.

  Each listing is sorted by lower-cased path. One file is kept per name, and
  the kept file's format is the best of WebP, then JPEG, then PNG. Each entry
  is URL-quoted. The script counts the projects whose arrays changed.

Everything the scripts take from outside is an input of the model:

- The file tree is a value, `ImageScan.Tree`. It holds the set of regular
  files, what `rglob("*")` yields under each directory, and what `iterdir()`
  yields. `ImageScan.Consistent` states what a real file system guarantees:
  a walk yields descendants of its directory only, and no file is a
  directory. Lemmas that need this say so.
- The output of `git status` is an `Option<string>`; `None` stands for a
  failed command.
- The parsed catalog is an `Option<Json>`.
- The manifest is a map from posix path to hash.
- The hashes of a file before and after watermarking are fields of the image
  value (`Batch.ImageFile`).
- What the image library makes of a file is the value `ProcessFile.Picture`:
  whether it decodes, its size, and whether watermarking or saving raises.

The main loop of each script is an imperative method, and each method is
proved against a specification function on values:

- `Batch.RunBatch` against `Batch.Run`;
- `SyncAssets.SyncProjects` against `SyncAssets.Synced` and
  `SyncAssets.ChangedCount`.

In the synchronizer, each catalog project is a `SyncAssets.Project` object
whose field map the loop updates in place. Python helpers whose behaviour the
proofs depend on are modelled in `PyStrings`, `PyPaths`, `StableSort` and
`UrlEncoding`:

- ASCII `lower`, `strip`, `in`, `replace` and `split`;
- `<` on strings, and the stable `sorted`;
- `pathlib` parsing, `name`, `suffix`, `stem`, `parent` and `relative_to`;
- `urllib.parse.quote`.

The synchronizer compares the before and after arrays with Python's `!=`.
The arrays it writes are lists of strings, so that `!=` coincides with
inequality of the modelled JSON values.

## Model

| member | source | states |
|---|---|---|
| PyStrings.StripLeft | scripts/sync_project_assets.py:39 | the result is a suffix of the input, everything removed is whitespace, and the result does not start with whitespace |
| PyStrings.StripRight | scripts/sync_project_assets.py:39 | the result is a prefix of the input, everything removed is whitespace, and the result does not end with whitespace |
| PyStrings.StripEmptyIffAllSpace | scripts/process_project_images.py:76 | a string strips to nothing exactly when every character is whitespace (including the empty string) |
| PyStrings.LowerAppend | scripts/sync_project_assets.py:39 | lower-casing distributes over concatenation |
| PyStrings.LowerNoUpper | scripts/process_project_images.py:55 | lower-casing a string with no capital letters changes nothing |
| PyStrings.EndsWithSplit | scripts/process_project_images.py:61 | a string that ends with `t` is the part before `t` followed by `t` |
| PyStrings.StartsWithTransitive | scripts/process_project_images.py:41 | a prefix of a prefix is a prefix |
| PyStrings.OccursInTail | scripts/process_project_images.py:56 | an occurrence in the tail of a string is an occurrence in the string one position later, and conversely |
| PyStrings.Contains | scripts/process_project_images.py:56 | `t in s` holds exactly when `t` occurs in `s` at some index |
| PyStrings.ReplaceAbsent | scripts/process_project_images.py:78-83 | replacing a pattern that does not occur returns the string unchanged |
| PyStrings.Split | scripts/process_project_images.py:35 | splitting yields at least one piece, and no piece contains the separator |
| PyStrings.SplitNoSep | scripts/process_project_images.py:35 | a string without the separator splits into itself alone |
| PyStrings.SplitAtSep | scripts/process_project_images.py:35 | splitting at the first separator gives the part before it, followed by the split of the rest |
| PyStrings.LexLessIrreflexive | scripts/sync_project_assets.py:48 | no string is less than itself |
| PyStrings.LexLessTotal | scripts/sync_project_assets.py:48 | any two different strings are ordered one way or the other |
| PyStrings.LexLessTransitive | scripts/sync_project_assets.py:48 | the string order is transitive |
| PyStrings.LexLessAsymmetric | scripts/sync_project_assets.py:48 | two strings are never each less than the other |
| PyPaths.DropEmpty | scripts/process_project_images.py:40 | the parts kept when a string is parsed are non-empty, not `.`, and free of `/` |
| PyPaths.FromString | scripts/process_project_images.py:40 | `Path(s)` is always a well-formed path |
| PyPaths.SingleName | scripts/sync_project_assets.py:101-105 | a plain name parses to the one-part relative path of that name |
| PyPaths.SplitJoin | scripts/sync_project_assets.py:95-96 | joining parts that have no `/` with `/` and splitting at `/` gives the parts back |
| PyPaths.DropEmptyKeepsValid | scripts/sync_project_assets.py:95-96 | parsing drops nothing from a sequence of valid parts |
| PyPaths.FromStringAsPosix | scripts/sync_project_assets.py:95-96 | `Path(p.as_posix()) == p` for every well-formed path |
| PyPaths.LastDot | scripts/sync_project_assets.py:44 | the index found is that of the last `.` in the string, or -1 when there is none |
| PyPaths.StemSuffixSplitName | scripts/sync_project_assets.py:39 | stem followed by suffix is the name, and the suffix is empty or a dot followed by no further dot |
| PyPaths.RelativeTo | scripts/process_project_images.py:137 | `p.relative_to(q)` is relative and non-empty, and `q` followed by it is `p` |
| PyPaths.JoinSlashAppend | scripts/process_project_images.py:41 | the POSIX form of joined parts is the two forms with a `/` between them |
| PyPaths.AsPosixNonEmpty | scripts/process_project_images.py:41 | `str()` of a well-formed path is never empty |
| PyPaths.AncestorPrefix | scripts/process_project_images.py:41 | the POSIX form of a path starts with that of each ancestor, unless the ancestor is `.` |
| PyPaths.Slash | scripts/sync_project_assets.py:88 | `root / name` is well-formed |
| PyPaths.ParentInParents | scripts/process_project_images.py:137 | a path's parent is among its parents, and is the longest of them |
| ImageScan.FilterImages | scripts/process_project_images.py:19-24 | a path is kept exactly when it is in the walk and is a file with a supported extension |
| ImageScan.IterImages | scripts/process_project_images.py:18-24 | `iter_images` yields exactly the files of the walk whose lower-cased suffix is supported, and nothing for a path that is not a directory |
| ImageNames.AnyTokenIn | scripts/process_project_images.py:56 | `any(token in name …)` holds exactly when some token occurs in the name |
| ImageNames.AlreadyWatermarkedIff | scripts/process_project_images.py:54-56 | a file counts as already watermarked exactly when `_wm`, `watermark` or `logo` occurs in its lower-cased name |
| ImageNames.TrailingDigits | scripts/process_project_images.py:61 | counts the digits that end a string: all of them are digits, and the character before them is not |
| ImageNames.TrailingDigitsExact | scripts/process_project_images.py:61 | after a non-digit, the count of trailing digits is exactly the number of digits appended |
| ImageNames.DigitsAfterMainShape | scripts/process_project_images.py:61 | a string whose trailing digits, at least one, follow `main-` is a prefix, `main-` and those digits |
| ImageNames.PlainToken | scripts/process_project_images.py:61 | `main.<ext>` is a card token for each of the four extensions |
| ImageNames.ResponsiveToken | scripts/process_project_images.py:60-61 | `main-<digits>w.<ext>` is a card token when there is at least one digit |
| ImageNames.TokenAt | scripts/process_project_images.py:61 | a string ending in a card token matches the pattern |
| ImageNames.PlainStemSound | scripts/process_project_images.py:61 | any name ending in `main.<ext>` matches the pattern |
| ImageNames.ResponsiveStemSound | scripts/process_project_images.py:60-61 | any name ending in `main-<digits>w.<ext>` matches the pattern |
| ImageNames.PlainStemCase | scripts/process_project_images.py:61 | the suffix test for `main.<ext>` implies a pattern match |
| ImageNames.ResponsiveShape | scripts/process_project_images.py:60-61 | a name passing the suffix test through `main-<digits>w` splits into a prefix, `main-`, at least one digit, `w.` and the extension |
| ImageNames.ResponsiveStemCase | scripts/process_project_images.py:60-61 | the suffix test for `main-<digits>w.<ext>` implies a pattern match |
| ImageNames.EndsWithCardExtSound | scripts/process_project_images.py:61 | the suffix test for one extension implies a pattern match |
| ImageNames.PlainTokenComplete | scripts/process_project_images.py:61 | a name ending in `main.<ext>` passes the suffix test for that extension |
| ImageNames.ResponsiveNameMatches | scripts/process_project_images.py:60-61 | any prefix followed by `main-<digits>w.<ext>` passes the suffix test for that extension |
| ImageNames.ResponsiveTokenComplete | scripts/process_project_images.py:60-61 | a name ending in `main-<digits>w.<ext>` passes the suffix test for that extension |
| ImageNames.EndsWithCardNameComplete | scripts/process_project_images.py:61 | a name ending in any card token passes the suffix test |
| ImageNames.EndsWithCardNameIff | scripts/process_project_images.py:61 | the suffix test holds exactly when the name ends in a card token, in both directions |
| ImageNames.ProjectCardVariantIff | scripts/process_project_images.py:59-61 | `is_project_card_variant` holds exactly when the `re.search` pattern, anchored at the end and with `\d` read as ASCII `0-9`, matches the lower-cased name |
| ImageNames.SuffixSearchAcceptsDomain | scripts/process_project_images.py:61 | the unanchored search also accepts `Domain.JPG`, a name that merely ends in `main.jpg` |
| ImageNames.ResponsiveVariantIsCard | scripts/process_project_images.py:60-61 | `main-640w.webp` is a card variant |
| ImageNames.DashWithoutDigitsNotWebp | scripts/process_project_images.py:61 | `main-w.webp` fails the suffix test for `webp` |
| ImageNames.DashWithoutDigitsIsNoCard | scripts/process_project_images.py:61 | `main-w.webp` is not a card variant, because the width needs at least one digit |
| JsonValues.NatToString | scripts/sync_project_assets.py:92 | the decimal form of a number is non-empty and starts with a digit |
| JsonValues.PyStr | scripts/sync_project_assets.py:92 | `str()` of a non-string value never starts with `.`, so it can never equal an entry `./…` |
| Collections.CollectSomeIff | scripts/process_project_images.py:71-85 | a value is collected exactly when some item yields it |
| Collections.UnionOfIff | scripts/process_project_images.py:34-51 | a value is in the union exactly when some item contributes it |
| Collections.UnionOfHas | scripts/process_project_images.py:34-51 | every item's contribution is contained in the union |
| Collections.UnionOfWitness | scripts/process_project_images.py:34-51 | for every member of the union, returns an item that contributed it |
| Collections.CountWhereStep | scripts/sync_project_assets.py:130-131 | counting over one more element adds one exactly when that element satisfies the test |
| GitStatus.EntryImages | scripts/process_project_images.py:37-50 | an entry whose path passes the `str` prefix test adds exactly the image files of the walk under it when it is a directory, and otherwise the path itself when it is an image file; any other entry adds nothing |
| GitStatus.AddEntryImages | scripts/process_project_images.py:36-50 | one loop iteration adds to the set exactly the images of its entry |
| GitStatus.EntryImagesChanged | scripts/process_project_images.py:34-51 | the images of every NUL-separated entry are in the changed set |
| GitStatus.ChangedImageEntry | scripts/process_project_images.py:34-51 | every member of the changed set comes from some entry and is an image file |
| GitStatus.GitChangedImages | scripts/process_project_images.py:27-51 | the loop computes the union over the entries of their images, and the empty set when `git` fails |
| GitStatus.EntryImagesUnderRoot | scripts/process_project_images.py:37-50 | on a consistent tree, everything one entry adds has a POSIX form starting with that of the root, for any root other than `.` |
| GitStatus.ChangedUnderRoot | scripts/process_project_images.py:27-51 | on a consistent tree, every member of the changed set lies under the root in the sense of the prefix test, for any root other than `.` |
| GitStatus.ChangedIncludesEntry | scripts/process_project_images.py:34-50 | an entry naming an image file under the root puts it in the changed set, and an entry naming a directory under the root puts in every image file of its walk |
| GitStatus.DotRootRejectsPlainNames | scripts/process_project_images.py:41 | with the root `.`, the entry `?? a.jpg` adds nothing, because `a.jpg` does not start with `.` |
| CardCatalog.LoadProjectCardImages | scripts/process_project_images.py:64-85 | the empty set when the catalog is absent, unparsable or not a list; otherwise a path is included exactly when some object item has a non-blank string `image` that normalises to it |
| CardCatalog.BlankImageNamesNothing | scripts/process_project_images.py:73-77 | an item with no `image`, a non-string `image` or a blank one contributes nothing |
| CardCatalog.DotSlashRemovalIsOnePass | scripts/process_project_images.py:78 | removing `./` is a single pass: `..//` becomes `./` |
| CatalogLinks.QuotePlain | scripts/sync_project_assets.py:33 | on strings without reserved characters, quoting only turns each space into `%20` |
| CatalogLinks.ReplaceAllHead | scripts/process_project_images.py:78 | when the pattern does not start the string, `replace` keeps the first character and goes on with the rest |
| CatalogLinks.RemoveDotSlashAbsent | scripts/process_project_images.py:78 | removing `./` changes nothing in a string without `./` |
| CatalogLinks.EncodeSpacesNoDotSlash | scripts/sync_project_assets.py:33 | encoding spaces creates no `./` and changes only a leading space |
| CatalogLinks.DecodeSpaces | scripts/process_project_images.py:83 | replacing `%20` by a space undoes the space encoding |
| CatalogLinks.UrlizedCardRecognised | scripts/process_project_images.py:78-84 | for a path made of letters, digits, `/._-()` and spaces, with no `./` in it, the watermarker's normalisation of an `image` string in the form `urlize` writes gives the path back |
| CatalogLinks.PercentUrlized | scripts/sync_project_assets.py:32-33 | a file named `%` is written to the catalog as `./%25` |
| CatalogLinks.PercentNotDecoded | scripts/process_project_images.py:78-84 | the watermarker reads `./%25` as the path `%25` |
| CatalogLinks.PercentNameNotRecognised | scripts/process_project_images.py:83 | the catalog entry for a file named `%` does not name that file back to the watermarker |
| UrlEncoding.Utf8 | scripts/sync_project_assets.py:33 | a character is one to four UTF-8 bytes, a single byte exactly for ASCII, and continuation bytes after the first |
| UrlEncoding.Digits3 | scripts/sync_project_assets.py:33 | a natural number is recovered from the three 6-bit groups a three-byte UTF-8 sequence carries |
| UrlEncoding.Digits4 | scripts/sync_project_assets.py:33 | a natural number is recovered from the four 6-bit groups a four-byte UTF-8 sequence carries |
| UrlEncoding.Utf8DecodeChar | scripts/sync_project_assets.py:33 | decoding reads back the bytes of one encoded character, and then goes on with the rest |
| UrlEncoding.Utf8RoundTrip | scripts/sync_project_assets.py:33 | UTF-8 decoding inverts UTF-8 encoding |
| UrlEncoding.HexRoundTrip | scripts/sync_project_assets.py:33 | each of the 16 hex digits `quote` writes reads back as its value |
| UrlEncoding.DecodeQuoteByte | scripts/sync_project_assets.py:33 | percent-decoding reads back any one quoted byte |
| UrlEncoding.DecodeKeptByte | scripts/sync_project_assets.py:33 | percent-decoding reads back a byte `quote` leaves as itself |
| UrlEncoding.DecodeEscapedByte | scripts/sync_project_assets.py:33 | percent-decoding reads back a `%XX` escape |
| UrlEncoding.PercentRoundTrip | scripts/sync_project_assets.py:33 | percent-decoding inverts the byte quoting |
| UrlEncoding.QuoteRoundTrip | scripts/sync_project_assets.py:33 | percent-decoding and then UTF-8 decoding give back the string that was quoted |
| UrlEncoding.QuoteBytesAlphabet | scripts/sync_project_assets.py:33 | quoted output uses only ASCII letters, digits, `_.-~/()` and `%` |
| UrlEncoding.QuoteByteAlphabet | scripts/sync_project_assets.py:33 | the quoted form of one byte uses only ASCII letters, digits, `_.-~/()` and `%` |
| UrlEncoding.UrlizeForm | scripts/sync_project_assets.py:32-33 | `urlize` output starts with `./`, and what follows uses only that alphabet and decodes to the UTF-8 form of the posix path |
| UrlEncoding.QuoteKeepsKept | scripts/sync_project_assets.py:33 | a string made only of ASCII letters, digits and `_.-~/()` is quoted as itself |
| UrlEncoding.SpaceBecomes20 | scripts/sync_project_assets.py:33 | a space is quoted `%20`, and parentheses are kept |
| StableSort.Insert | scripts/sync_project_assets.py:48 | inserting adds exactly one element and loses none |
| StableSort.Sort | scripts/sync_project_assets.py:48 | `sorted` is a permutation of its input |
| StableSort.InsertFrontSorted | scripts/sync_project_assets.py:48 | an element below the first key goes in front of a sorted sequence and keeps it sorted |
| StableSort.ConsSorted | scripts/sync_project_assets.py:48 | putting an element no larger than any other in front of a sorted sequence keeps it sorted |
| StableSort.InsertSorted | scripts/sync_project_assets.py:48 | insertion keeps a sequence sorted |
| StableSort.SortSorted | scripts/sync_project_assets.py:48 | the result of `sorted` is ordered by its key |
| StableSort.WithKeyAppend | scripts/sync_project_assets.py:48 | the elements with one key in a concatenation are those of each half, in order |
| StableSort.WithKeyLast | scripts/sync_project_assets.py:48 | the elements with one key are those before the last element, then the last one if its key matches |
| StableSort.WithKeyAbove | scripts/sync_project_assets.py:48 | a sorted sequence whose smallest key is above `k` holds no element with key `k` |
| StableSort.InsertStable | scripts/sync_project_assets.py:48 | an inserted element goes after every element with the same key |
| StableSort.SortStable | scripts/sync_project_assets.py:48 | `sorted` is stable: the elements with any one key keep their input order |
| StableSort.ConsDistinctBy | scripts/sync_project_assets.py:48 | putting in front an element that agrees with none of a distinct sequence keeps it distinct |
| StableSort.InsertDistinctBy | scripts/sync_project_assets.py:48 | inserting an element that agrees with none of a distinct sequence keeps it distinct |
| StableSort.SortDistinctBy | scripts/sync_project_assets.py:48 | sorting neither merges nor duplicates elements |
| Dedupe.SelectPrefix | scripts/sync_project_assets.py:38-47 | the selection after `i + 1` paths is the selection after `i` paths with path `i` admitted |
| Dedupe.SelectCoherent | scripts/sync_project_assets.py:37-47 | the dictionary's insertion order lists each chosen key exactly once |
| Dedupe.SelectLoop | scripts/sync_project_assets.py:37-47 | the loop builds the selection the specification describes: the dictionary and its insertion order |
| Dedupe.SelectEntries | scripts/sync_project_assets.py:38-47 | the path stored under a key has that key and is one of the input paths |
| Dedupe.SelectCovers | scripts/sync_project_assets.py:38-47 | every key of the input is chosen |
| Dedupe.SelectFacts | scripts/sync_project_assets.py:38-47 | every stored path has its key and comes from the input, and every input key is stored |
| Dedupe.SelectedIndex | scripts/sync_project_assets.py:38-47 | returns the position of the chosen path in the input, where no path with that key ranks lower and every earlier one ranks strictly higher |
| Dedupe.ValuesDistinct | scripts/sync_project_assets.py:48 | `selected.values()` holds one path per key |
| Dedupe.DedupeByFacts | scripts/sync_project_assets.py:36-48 | the result holds one item per key, only items of the input, each the best of its key, sorted |
| Dedupe.DedupeByCovers | scripts/sync_project_assets.py:36-48 | for every input item the result holds an item with the same key |
| Dedupe.DedupedOnePerKey | scripts/sync_project_assets.py:36-48 | no two survivors share a name key |
| Dedupe.DedupedSubset | scripts/sync_project_assets.py:36-48 | every survivor is an input path |
| Dedupe.DedupedCoversKeys | scripts/sync_project_assets.py:36-48 | the survivors have exactly the name keys of the input |
| Dedupe.DedupedKeepsBest | scripts/sync_project_assets.py:10-48 | each survivor has the lowest rank (`webp` 0, `jpg` 1, `jpeg` 2, `png` 3, else 99) of its key, and among equals it is the first |
| Dedupe.DedupedSorted | scripts/sync_project_assets.py:48 | the survivors are sorted by lower-cased posix path |
| Dedupe.DedupePrefer | scripts/sync_project_assets.py:36-48 | `dedupe_prefer` returns one best-ranked input path for every name key of its input, and nothing else, sorted by lower-cased posix path |
| AssetListing.Matching | scripts/sync_project_assets.py:55-57 | a path is kept exactly when it is in the input and is a file with a wanted extension |
| AssetListing.CollectMatching | scripts/sync_project_assets.py:54-57 | the filtering loop appends the wanted entries in the order it meets them |
| AssetListing.ListedFacts | scripts/sync_project_assets.py:54-58 | a listing holds only wanted entries, one per name key and one for every key of a wanted entry, sorted |
| AssetListing.ListImages | scripts/sync_project_assets.py:51-58 | nothing unless the path is an existing directory; otherwise one asset file (image or PDF) for every name key found by the recursive walk, nothing else, distinct and sorted |
| AssetListing.ListTopLevelImages | scripts/sync_project_assets.py:61-68 | the same for the images directly inside the directory |
| AssetListing.TopLevelHasNoPdf | scripts/sync_project_assets.py:61-68 | the top-level listing never holds a PDF |
| ProcessFile.CardTakesPrecedence | scripts/process_project_images.py:137-141 | a card image is reported as `skip_project_card` and never written, whatever its contents or size |
| ProcessFile.ProjectCardIff | scripts/process_project_images.py:137-141 | `skip_project_card` exactly when the relative path is a catalog card or the name is a card variant |
| ProcessFile.WatermarkedNameIff | scripts/process_project_images.py:142-143 | `skip_watermarked_name` exactly when the file is not a card and its name marks it as watermarked |
| ProcessFile.NameSkipsIgnoreContents | scripts/process_project_images.py:137-143 | the two name-based skips do not depend on the file's contents |
| ProcessFile.SizeGate | scripts/process_project_images.py:145-149 | for a decodable image not skipped by name, `skip_small` exactly when a side is below 300 |
| ProcessFile.SizeGateBoundary | scripts/process_project_images.py:148 | 300 × 300 is processed; 299 × 300 is too small |
| ProcessFile.SavedOnlyWhenProcessedApplied | scripts/process_project_images.py:150-156 | the file is overwritten only when the outcome is `processed` and the run is not a dry run |
| ProcessFile.DryRunMatchesApply | scripts/process_project_images.py:150-154 | a dry run reports `processed` exactly when an apply run whose save succeeds would, and it never writes |
| ProcessFile.MarkOffset | scripts/process_project_images.py:102-108 | the watermark offset centres it on both axes, by floor division |
| ProcessFile.OffsetIgnoresMargin | scripts/process_project_images.py:102-108 | the placement does not depend on the margin |
| ProcessFile.OffsetCentres | scripts/process_project_images.py:104-106 | the space left on one side equals the space on the other, or is one less |
| Batch.HandleImage | scripts/process_project_images.py:228-257 | one loop iteration updates the manifest and the counters as the specification step does |
| Batch.RunBatch | scripts/process_project_images.py:217-257 | the loop ends in the specified state; the counters add up to the number of images; every manifest key is kept |
| Batch.BumpAddsOne | scripts/process_project_images.py:229-255 | bumping a counter adds one to it and leaves the others unchanged |
| Batch.UnselectedIsSkipped | scripts/process_project_images.py:228-230 | an image outside a non-empty changed set is counted `skipped_unchanged` and leaves the manifest alone |
| Batch.KnownHashIsSkipped | scripts/process_project_images.py:231-235 | a selected image whose hash is already in the manifest is counted `skip_manifest` and is not processed |
| Batch.StepWritesOwnKey | scripts/process_project_images.py:231-257 | an iteration writes the manifest only at its own key: the current hash in a record-only run, or the saved file's hash after an applied `processed` |
| Batch.StepDependsOnOwnEntry | scripts/process_project_images.py:231-257 | an iteration looks at the manifest only at its own key |
| Batch.RunCountsEveryImage | scripts/process_project_images.py:227-255 | each image bumps exactly one counter, so the counters add up to the number of images |
| Batch.RunKeepsKeys | scripts/process_project_images.py:227-257 | no key is removed from the manifest, and a key that no image has keeps its entry |
| Batch.DryRunKeepsManifest | scripts/process_project_images.py:236-257 | a dry run that is not record-only leaves the in-memory manifest as it found it (a record-only dry run does update it in memory) |
| Batch.DryRunSavesNothing | scripts/process_project_images.py:236-272 | no dry run, record-only included, changes the manifest file; one that is not record-only does not even change the manifest in memory |
| Batch.EmptyChangedSetRestrictsNothing | scripts/process_project_images.py:210-228 | with an empty changed set (no `--changed-only`, or nothing changed) no image is counted `skipped_unchanged` |
| Batch.RunAppend | scripts/process_project_images.py:227 | running over two lists in turn is the same as running over their concatenation |
| Batch.FinalEntryIsStepEntry | scripts/process_project_images.py:231-257 | with distinct paths, the final manifest entry of an image is what its own iteration left |
| Batch.EntryBeforeIsInitial | scripts/process_project_images.py:231-233 | with distinct paths, an image's iteration sees the manifest entry the run started with |
| Batch.UnbumpedCounter | scripts/process_project_images.py:217-255 | a counter that no iteration bumps keeps its starting value |
| Batch.RerunStepNotProcessed | scripts/process_project_images.py:192-257 | in a second apply run over the files the first left, with the manifest it wrote, no iteration processes its image |
| Batch.RerunProcessesNothing | scripts/process_project_images.py:192-272 | re-running an apply run over the files it left, from the manifest file it saved, processes nothing; both runs are given the same changed set, whereas under `--changed-only` the second run asks `git status` again after the first has rewritten files |
| Batch.RecordOnlyThenAllKnown | scripts/process_project_images.py:196-272 | after a record-only run that is not a dry run, any later run from the manifest file it saved counts every selected image as `skip_manifest` |
| SyncAssets.Project.constructor | scripts/sync_project_assets.py:80 | a project starts with the fields the catalog gave it |
| SyncAssets.MapAll | scripts/sync_project_assets.py:107-109 | the list comprehension has one entry per path, in order |
| SyncAssets.MapWithoutLoop | scripts/sync_project_assets.py:93-99 | the gallery loop appends the entry of every path except those equal to the main image |
| SyncAssets.NewArrays | scripts/sync_project_assets.py:93-109 | there are exactly four new arrays |
| SyncAssets.FieldsOf | scripts/sync_project_assets.py:83 | the field maps of the projects, in catalog order |
| SyncAssets.BuildGallery | scripts/sync_project_assets.py:93-99 | the gallery is the urlized top-level images minus the main image |
| SyncAssets.ListArrays | scripts/sync_project_assets.py:93-109 | the four arrays are the specified gallery, floor plans, facilities and unit layouts |
| SyncAssets.RefreshProject | scripts/sync_project_assets.py:84-131 | one loop iteration leaves the project's fields as specified, and reports a change exactly when the specification counts one |
| SyncAssets.SyncProjects | scripts/sync_project_assets.py:82-131 | every project ends with its specified fields, and the count is the number of projects whose arrays changed |
| SyncAssets.SyncedAll | scripts/sync_project_assets.py:82-131 | one entry per project, each the field map one pass of the loop leaves it with |
| SyncAssets.UnmappedUntouched | scripts/sync_project_assets.py:84-87 | a project whose name is missing, not a string or not mapped is left as it is and not counted |
| SyncAssets.AssignFacts | scripts/sync_project_assets.py:119-122 | after the assignments the four arrays are the new ones; assigning them again changes nothing; every other key is kept |
| SyncAssets.MappedArraysReplaced | scripts/sync_project_assets.py:111-129 | a mapped project with an existing folder holds the four new arrays afterwards, under all four keys, and keeps every other field |
| SyncAssets.ChangedIffArraysDiffer | scripts/sync_project_assets.py:111-131 | such a project is counted exactly when its old arrays, with a missing key read as `[]`, differ from the new ones |
| SyncAssets.EmptyArraysAddedNotCounted | scripts/sync_project_assets.py:111-131 | a project lacking all four keys whose folders yield nothing gains four empty arrays but is not counted as changed |
| SyncAssets.FloorPlanFallback | scripts/sync_project_assets.py:101-103 | floor plans come from `Floor Plan` when it exists, and otherwise from `Floorplans` |
| SyncAssets.MapWithoutFilters | scripts/sync_project_assets.py:93-99 | an entry is kept exactly when it is not the excluded one, and the length drops by the number of excluded entries |
| SyncAssets.MapWithoutAbsent | scripts/sync_project_assets.py:93-99 | when no entry equals the excluded string, nothing is dropped |
| SyncAssets.MapWithoutOrder | scripts/sync_project_assets.py:93-99 | the loop keeps values at increasing positions and keeps every position whose value is not the excluded one, so it is the ordered subsequence without that value |
| SyncAssets.GalleryFilters | scripts/sync_project_assets.py:92-99 | the gallery holds exactly the top-level entries other than the main image, in their original order, one per position not equal to the main image |
| SyncAssets.CountAppend | scripts/sync_project_assets.py:97-98 | the count of a string grows by one exactly when the appended element is that string |
| SyncAssets.NonStringImageRemovesNothing | scripts/sync_project_assets.py:92-99 | when the project's `image` is not a string, no gallery entry is dropped |
| SyncAssets.AssignKeepsTarget | scripts/sync_project_assets.py:84-122 | the assignments do not touch the name or image fields, so the folder and main image stay the same |
| SyncAssets.SyncIdempotent | scripts/sync_project_assets.py:82-131 | syncing a project against the same tree a second time changes nothing and counts nothing |
| SyncAssets.SecondRunCountsNothing | scripts/sync_project_assets.py:82-131 | a second run of the whole loop over the synced catalog reports zero changes |

## Left out

- The Pillow image work is not modelled. This covers `prepare_watermark`, with its floating-point scaling and its alpha blending; the compositing in `apply_mark`; and `save_optimized`, with its per-format options. Its effects become the inputs of `ProcessFile.Picture`, whose fields say whether the file decodes, its size, and whether watermarking or saving raises. The placement arithmetic of `apply_mark` is modelled, by `ProcessFile.MarkOffset`.
- A save that fails is modelled as writing nothing. The model does not capture a file left partly written by such a save.
- `sha256_file` is not modelled: a file's hash, and its hash after watermarking, are fields of `Batch.ImageFile`. A file that cannot be read while being hashed would make the script crash; the model leaves that out.
- The `git status` subprocess is not run: its decoded output is an `Option<string>` input, and `None` stands for any failure. Decoding with replacement characters is left out.
- Filesystem access is the value `ImageScan.Tree`. Its walks and listings give the order in which `rglob` and `iterdir` yield entries. Symbolic links and changes to the tree during a run are left out.
- JSON reading and writing are left out, and so is `load_manifest`. The catalog is a parsed `Option<JsonValues.Json>` value. The manifest is a parsed map from string to string. The final `json.dumps` and the file writes are left out.
- Argument parsing, printing and the `SystemExit` cases for a missing root or watermark are left out. The flags `Batch.Flags` keeps, `--dry-run` and `--record-only`, are inputs. So is the changed set that `--changed-only` yields.
- Backups under `--backup-dir` are left out. A successful copy does not affect what the loop decides. A failed `shutil.copy2` (scripts/process_project_images.py:243) raises outside the `try` of `process_file`, so it ends the whole run before the manifest is saved; the model does not capture that abort.
- ImageNames.ProjectCardVariantIff: reads `\d` as the ASCII digits `0-9`. Python's `\d` in a `str` pattern matches every Unicode decimal digit, so a name such as `main-٦٤٠w.jpg` or `main-６４０w.jpg` is a card variant in the script and not in the model.
- PyStrings.Lower: lower-cases ASCII letters only. Python's `str.lower` also folds non-ASCII letters, which the model does not capture.
- PyPaths.FromString: does not model pathlib's special case for a path that starts with exactly two slashes.
- JsonValues.PyStr: gives the exact `str()` only for strings, integers, booleans and `None`. Lists and objects render as placeholders that also begin with `[` or `{`. The only fact used about them is that they never start with `.`.
- The synchronizer crashes on a catalog item that is not an object, and on an unhashable `name`. Such catalogs are not modelled: every project is a `SyncAssets.Project` with a field map, and `FolderName` reads only a string name as a key.
- GitStatus.ChangedUnderRoot and GitStatus.EntryImagesUnderRoot: stated for roots whose POSIX form is not `.`. With `--root .` the string test at scripts/process_project_images.py:41 rejects every changed path that does not start with a dot (`GitStatus.DotRootRejectsPlainNames`), so the changed set can miss images under the root; the model keeps that behaviour.
- JSON floats are not a variant of `JsonValues.Json`, so `"image": 1.5` cannot be written. A float behaves like the other non-string values: in the watermarker it contributes nothing, and in the synchronizer its `str()` never starts with `.`.
- A Python `str` holding lone surrogates, as a file name decoded with `surrogateescape` can, makes `quote` raise in the synchronizer. A Dafny `char` cannot hold such a value, so the model leaves that crash out.
- SyncAssets.SyncProjects: requires the project objects to be distinct. `json.loads` never returns the same object twice in a list, so this holds for every catalog the script reads.
- The synchronizer's dry run differs from an apply run only in whether the catalog file is written, which is left out. The count it reports is the same in both.
- UrlEncoding.PercentDecode and UrlEncoding.Utf8Decode: reference decoders used to state the round trip of `quote`, stricter than `urllib.parse.unquote` on malformed input. Neither script calls a decoder.
- The UTF-8 encode/decode round trip in `load_project_card_images` (lines 79-82) returns its input for every Python string, so the model leaves it out.
- PyPaths.Suffix: follows the rule of Python 3.13 and earlier, where a name ending in `.` has no suffix.
