/**
 * The `main` of the asset synchronizer: for every catalog project whose name
 * maps to an existing folder, rebuild the four asset arrays from the folder's
 * contents and count the projects whose arrays changed.
 */
module SyncAssets {
  import opened PyPaths
  import opened JsonValues
  import opened ImageScan
  import opened AssetListing
  import opened UrlEncoding
  import opened Collections

  /** One project object of the catalog; `main` updates its fields in place. */
  class Project {
    var fields: map<string, Json>

    constructor (fields0: map<string, Json>)
      ensures fields == fields0
    {
      fields := fields0;
    }
  }

  /** The catalog names of the projects and the folders their assets live in. */
  const ProjectFolderMap: map<string, string> := map[
    "Time Square 7" := "Time Square 7",
    "Time Square 8" := "Time Square 8",
    "Time Square 9" := "Time Square 9",
    "Time Square 10" := "Time Square 10",
    "Kingston Royale" := "Kingston Royale",
    "Le Conde" := "Le Conde",
    "J Tower 3" := "J-Tower 3",
    "Odom Tower" := "ODOM Tower",
    "Odom Living" := "Odom Living",
    "UC88 Wyndham Garden" := "UC88 (Wyndham Garden)",
    "Diamond Bay Garden" := "Diamond Bay Garden",
    "Angkor Grace" := "Angkor Grace",
    "Rose Apple Square" := "Rose Apple Square",
    "LZ Sea View Premium" := "LZ Sea View Premium",
    "Picasso Sky Gemme" := "Picasso Sky Gemme",
    "GATO Tower" := "GATO Tower"
  ]

  /** `d.get(key, default)`. */
  function GetOr(fields: map<string, Json>, key: string, default: Json): Json {
    if key in fields then fields[key] else default
  }

  /** `PROJECT_FOLDER_MAP.get(name)`, with "" standing for no folder: only a string name can be a key. */
  function FolderName(folderMap: map<string, string>, name: Option<Json>): string {
    if name.Some? && name.value.JStr? && name.value.s in folderMap then folderMap[name.value.s] else ""
  }

  /** The folder a project is refreshed from, when its name is mapped to a non-empty folder that exists. */
  function ProjectDir(folderMap: map<string, string>, root: Path, tree: Tree, fields: map<string, Json>): Option<Path>
    requires WellFormed(root)
  {
    var folder := FolderName(folderMap, Get(fields, "name"));
    if folder == "" then None
    else if Exists(tree, Slash(root, folder)) then Some(Slash(root, folder))
    else None
  }

  /** `str(project.get("image", ""))`. */
  function MainImage(fields: map<string, Json>): string {
    PyStr(GetOr(fields, "image", JStr("")))
  }

  /** `urlize(Path(p.as_posix()))`. */
  function Entry(p: Path): string {
    Urlize(FromString(AsPosix(p)))
  }

  /** `[f(p) for p in ps]`. */
  function MapAll<T>(ps: seq<T>, f: T -> string): (r: seq<string>)
    ensures |r| == |ps| && forall i :: 0 <= i < |ps| ==> r[i] == f(ps[i])
  {
    seq(|ps|, i requires 0 <= i < |ps| => f(ps[i]))
  }

  /** The values of `f` over `ps` in order, leaving out those equal to `x`. */
  function MapWithout<T>(ps: seq<T>, f: T -> string, x: string): seq<string> {
    if ps == [] then []
    else
      var rest := MapWithout(ps[..|ps| - 1], f, x);
      if f(ps[|ps| - 1]) == x then rest else rest + [f(ps[|ps| - 1])]
  }

  /** The loop that appends every value of `f` over `ps` except those equal to `x`. */
  method MapWithoutLoop<T>(ps: seq<T>, f: T -> string, x: string) returns (out: seq<string>)
    ensures out == MapWithout(ps, f, x)
  {
    out := [];
    for i := 0 to |ps|
      invariant out == MapWithout(ps[..i], f, x)
    {
      assert ps[..i + 1][..i] == ps[..i];
      var entry := f(ps[i]);
      if entry == x {
        continue;
      }
      out := out + [entry];
    }
    assert ps[..|ps|] == ps;
  }

  /** `[urlize(Path(p.as_posix())) for p in ps]`. */
  function Entries(ps: seq<Path>): seq<string> {
    MapAll(ps, Entry)
  }

  /** The gallery built from the listing `ps`: every entry except those equal to the main image, in order. */
  function Gallery(ps: seq<Path>, mainImage: string): seq<string> {
    MapWithout(ps, Entry, mainImage)
  }

  /** A list of strings as a JSON array. */
  function Strings(ss: seq<string>): Json {
    JArr(seq(|ss|, i requires 0 <= i < |ss| => JStr(ss[i])))
  }

  /** The floor-plan folder: "Floor Plan" when it exists, otherwise "Floorplans". */
  function FloorDir(tree: Tree, projectDir: Path): Path
    requires WellFormed(projectDir)
  {
    if Exists(tree, Slash(projectDir, "Floor Plan")) then Slash(projectDir, "Floor Plan")
    else Slash(projectDir, "Floorplans")
  }

  /** The keys of the four arrays, in the order of the before and after tuples. */
  const ArrayKeys: seq<string> := ["images", "floorPlans", "facilities", "unitLayouts"]

  /** The four new arrays of a project refreshed from `projectDir`. */
  function NewArrays(tree: Tree, projectDir: Path, mainImage: string): (a: seq<Json>)
    requires WellFormed(projectDir)
    ensures |a| == 4
  {
    [ Strings(Gallery(ListTopLevelImagesOf(tree, projectDir), mainImage)),
      Strings(Entries(ListImagesOf(tree, FloorDir(tree, projectDir)))),
      Strings(Entries(ListImagesOf(tree, Slash(projectDir, "Facility")))),
      Strings(Entries(ListImagesOf(tree, Slash(projectDir, "Unit Layout")))) ]
  }

  /** The before/after tuple: each array, or `[]` when the key is absent. */
  function Snapshot(fields: map<string, Json>): seq<Json> {
    [ GetOr(fields, "images", JArr([])), GetOr(fields, "floorPlans", JArr([])),
      GetOr(fields, "facilities", JArr([])), GetOr(fields, "unitLayouts", JArr([])) ]
  }

  /** The four assignments. */
  function Assign(fields: map<string, Json>, a: seq<Json>): map<string, Json>
    requires |a| == 4
  {
    fields["images" := a[0]]["floorPlans" := a[1]]["facilities" := a[2]]["unitLayouts" := a[3]]
  }

  /** A project's fields after one pass of the loop. */
  function Synced(folderMap: map<string, string>, root: Path, tree: Tree, fields: map<string, Json>): map<string, Json>
    requires WellFormed(root)
  {
    var dir := ProjectDir(folderMap, root, tree, fields);
    if dir.None? then fields
    else Assign(fields, NewArrays(tree, dir.value, MainImage(fields)))
  }

  /** Whether the pass over this project increments `changes`. */
  predicate Changed(folderMap: map<string, string>, root: Path, tree: Tree, fields: map<string, Json>)
    requires WellFormed(root)
  {
    ProjectDir(folderMap, root, tree, fields).Some?
    && Snapshot(fields) != Snapshot(Synced(folderMap, root, tree, fields))
  }

  /** `Changed` as a predicate on field maps, for counting. */
  function ChangedUnder(folderMap: map<string, string>, root: Path, tree: Tree): map<string, Json> -> bool
    requires WellFormed(root)
  {
    fields => Changed(folderMap, root, tree, fields)
  }

  /** The number of projects among `fs` whose pass increments `changes`. */
  function ChangedCount(folderMap: map<string, string>, root: Path, tree: Tree, fs: seq<map<string, Json>>): nat
    requires WellFormed(root)
  {
    CountWhere(fs, ChangedUnder(folderMap, root, tree))
  }

  /** The fields of every project, in order. */
  function FieldsOf(projects: seq<Project>): (r: seq<map<string, Json>>)
    reads set p | p in projects
    ensures |r| == |projects| && forall i :: 0 <= i < |projects| ==> r[i] == projects[i].fields
  {
    if projects == [] then [] else FieldsOf(projects[..|projects| - 1]) + [projects[|projects| - 1].fields]
  }

  /** Every field map of `fs` as one pass leaves it. */
  function SyncedAll(folderMap: map<string, string>, root: Path, tree: Tree, fs: seq<map<string, Json>>): (r: seq<map<string, Json>>)
    requires WellFormed(root)
    ensures |r| == |fs| && forall i :: 0 <= i < |fs| ==> r[i] == Synced(folderMap, root, tree, fs[i])
  {
    if fs == [] then [] else SyncedAll(folderMap, root, tree, fs[..|fs| - 1]) + [Synced(folderMap, root, tree, fs[|fs| - 1])]
  }

  // ---------------------------------------------------------------------------
  // The loops of `main`.

  /** The loop that builds the gallery from the top-level listing. */
  method BuildGallery(tree: Tree, projectDir: Path, mainImage: string) returns (gallery: seq<string>)
    ensures gallery == Gallery(ListTopLevelImagesOf(tree, projectDir), mainImage)
  {
    var ps := ListTopLevelImages(tree, projectDir);
    gallery := MapWithoutLoop(ps, Entry, mainImage);
  }

  /** The four listings of a mapped project, as JSON arrays of urlized paths. */
  method ListArrays(tree: Tree, projectDir: Path, mainImage: string) returns (arrays: seq<Json>)
    requires WellFormed(projectDir)
    ensures arrays == NewArrays(tree, projectDir, mainImage)
  {
    var gallery := BuildGallery(tree, projectDir, mainImage);
    var floorDir := Slash(projectDir, "Floor Plan");
    if !Exists(tree, floorDir) {
      floorDir := Slash(projectDir, "Floorplans");
    }
    var floorPlans := ListImages(tree, floorDir);
    var facilities := ListImages(tree, Slash(projectDir, "Facility"));
    var unitLayouts := ListImages(tree, Slash(projectDir, "Unit Layout"));
    arrays := [Strings(gallery), Strings(Entries(floorPlans)), Strings(Entries(facilities)), Strings(Entries(unitLayouts))];
  }

  /** One pass of the loop of `main`: refresh a mapped project and say whether its arrays changed. */
  method RefreshProject(project: Project, root: Path, tree: Tree) returns (changed: bool)
    requires WellFormed(root)
    modifies project
    ensures project.fields == Synced(ProjectFolderMap, root, tree, old(project.fields))
    ensures changed <==> Changed(ProjectFolderMap, root, tree, old(project.fields))
  {
    changed := false;
    var folderName := FolderName(ProjectFolderMap, Get(project.fields, "name"));
    if folderName == "" {
      return;
    }
    var projectDir := Slash(root, folderName);
    if !Exists(tree, projectDir) {
      return;
    }
    var arrays := ListArrays(tree, projectDir, MainImage(project.fields));
    var before := Snapshot(project.fields);
    project.fields := project.fields["images" := arrays[0]];
    project.fields := project.fields["floorPlans" := arrays[1]];
    project.fields := project.fields["facilities" := arrays[2]];
    project.fields := project.fields["unitLayouts" := arrays[3]];
    var after := Snapshot(project.fields);
    changed := before != after;
  }

  /** The loop of `main` over the catalog's projects. */
  method SyncProjects(projects: seq<Project>, root: Path, tree: Tree) returns (changes: nat)
    requires WellFormed(root)
    requires forall i, j :: 0 <= i < j < |projects| ==> projects[i] != projects[j]
    modifies set p | p in projects
    ensures forall i :: 0 <= i < |projects| ==> projects[i].fields == Synced(ProjectFolderMap, root, tree, old(projects[i].fields))
    ensures changes == ChangedCount(ProjectFolderMap, root, tree, old(FieldsOf(projects)))
  {
    ghost var before := FieldsOf(projects);
    ghost var after := SyncedAll(ProjectFolderMap, root, tree, before);
    ghost var changedIn := ChangedUnder(ProjectFolderMap, root, tree);
    changes := 0;
    for i := 0 to |projects|
      invariant forall j :: 0 <= j < i ==> projects[j].fields == after[j]
      invariant forall j :: i <= j < |projects| ==> projects[j].fields == before[j]
      invariant changes == CountWhere(before[..i], changedIn)
    {
      CountWhereStep(before, changedIn, i);
      ghost var counted := changedIn(before[i]);
      ghost var next := CountWhere(before[..i + 1], changedIn);
      assert next == changes + (if counted then 1 else 0);
      assert counted == Changed(ProjectFolderMap, root, tree, projects[i].fields);
      label PreCall:
      var changed := RefreshProject(projects[i], root, tree);
      forall j | 0 <= j < |projects| && j != i ensures projects[j].fields == old@PreCall(projects[j].fields) {
        assert projects[j] != projects[i];
      }
      assert projects[i].fields == after[i];
      assert changed == counted;
      if changed {
        changes := changes + 1;
      }
      assert changes == next;
    }
    assert before[..|projects|] == before;
  }

  // ---------------------------------------------------------------------------
  // Properties.

  /** A project whose name has no folder, or whose folder is missing, is left exactly as it was and not counted. */
  lemma UnmappedUntouched(folderMap: map<string, string>, root: Path, tree: Tree, fields: map<string, Json>)
    requires WellFormed(root)
    requires FolderName(folderMap, Get(fields, "name")) == ""
             || !Exists(tree, Slash(root, FolderName(folderMap, Get(fields, "name"))))
    ensures Synced(folderMap, root, tree, fields) == fields
    ensures !Changed(folderMap, root, tree, fields)
  {
  }

  /** The four assignments set exactly the four arrays, and repeating them changes nothing. */
  lemma AssignFacts(fields: map<string, Json>, a: seq<Json>)
    requires |a| == 4
    ensures Snapshot(Assign(fields, a)) == a
    ensures Assign(Assign(fields, a), a) == Assign(fields, a)
    ensures forall k :: k in ArrayKeys ==> k in Assign(fields, a)
    ensures forall k :: k !in ArrayKeys ==>
              (k in Assign(fields, a) <==> k in fields) && (k in fields ==> Assign(fields, a)[k] == fields[k])
  {
    assert Snapshot(Assign(fields, a)) == [a[0], a[1], a[2], a[3]];
  }

  /**
   * A mapped project gets all four arrays replaced, whatever they held before,
   * and keeps every other field.
   */
  lemma MappedArraysReplaced(folderMap: map<string, string>, root: Path, tree: Tree, fields: map<string, Json>)
    requires WellFormed(root)
    requires ProjectDir(folderMap, root, tree, fields).Some?
    ensures Snapshot(Synced(folderMap, root, tree, fields))
            == NewArrays(tree, ProjectDir(folderMap, root, tree, fields).value, MainImage(fields))
    ensures forall k :: k in ArrayKeys ==> k in Synced(folderMap, root, tree, fields)
    ensures forall k :: k !in ArrayKeys ==>
              && (k in Synced(folderMap, root, tree, fields) <==> k in fields)
              && (k in fields ==> Synced(folderMap, root, tree, fields)[k] == fields[k])
  {
    AssignFacts(fields, NewArrays(tree, ProjectDir(folderMap, root, tree, fields).value, MainImage(fields)));
  }

  /** The pass over a mapped project counts it exactly when one of the four arrays had another value. */
  lemma ChangedIffArraysDiffer(folderMap: map<string, string>, root: Path, tree: Tree, fields: map<string, Json>)
    requires WellFormed(root)
    requires ProjectDir(folderMap, root, tree, fields).Some?
    ensures Changed(folderMap, root, tree, fields) <==>
              Snapshot(fields) != NewArrays(tree, ProjectDir(folderMap, root, tree, fields).value, MainImage(fields))
  {
    MappedArraysReplaced(folderMap, root, tree, fields);
  }

  /**
   * A mapped project that has none of the four keys and whose folder lists
   * nothing gets four empty arrays added, yet is not counted: a missing key
   * reads as `[]` in the before tuple.
   */
  lemma EmptyArraysAddedNotCounted(folderMap: map<string, string>, root: Path, tree: Tree, fields: map<string, Json>)
    requires WellFormed(root)
    requires ProjectDir(folderMap, root, tree, fields).Some?
    requires forall k :: k in ArrayKeys ==> k !in fields
    requires NewArrays(tree, ProjectDir(folderMap, root, tree, fields).value, MainImage(fields)) == [JArr([]), JArr([]), JArr([]), JArr([])]
    ensures Synced(folderMap, root, tree, fields) != fields
    ensures !Changed(folderMap, root, tree, fields)
  {
    MappedArraysReplaced(folderMap, root, tree, fields);
    assert "images" in ArrayKeys;
    assert Snapshot(fields) == [JArr([]), JArr([]), JArr([]), JArr([])];
  }

  /** The floor plans come from "Floor Plan" when it exists and from "Floorplans" otherwise. */
  lemma FloorPlanFallback(tree: Tree, projectDir: Path)
    requires WellFormed(projectDir)
    ensures Exists(tree, Path(projectDir.absolute, projectDir.parts + ["Floor Plan"])) ==>
              FloorDir(tree, projectDir) == Path(projectDir.absolute, projectDir.parts + ["Floor Plan"])
    ensures !Exists(tree, Path(projectDir.absolute, projectDir.parts + ["Floor Plan"])) ==>
              FloorDir(tree, projectDir) == Path(projectDir.absolute, projectDir.parts + ["Floorplans"])
  {
    SingleName("Floor Plan");
    SingleName("Floorplans");
  }

  /** `MapWithout` keeps exactly the values other than `x`, and drops one value per occurrence of `x`. */
  lemma {:induction false} MapWithoutFilters<T>(ps: seq<T>, f: T -> string, x: string)
    ensures forall e :: e in MapWithout(ps, f, x) <==> e in MapAll(ps, f) && e != x
    ensures |MapWithout(ps, f, x)| == |ps| - CountOf(MapAll(ps, f), x)
  {
    if ps != [] {
      var init := ps[..|ps| - 1];
      MapWithoutFilters(init, f, x);
      assert MapAll(ps, f) == MapAll(init, f) + [f(ps[|ps| - 1])];
      CountAppend(MapAll(init, f), f(ps[|ps| - 1]), x);
    }
  }

  /** When no value equals `x`, `MapWithout` leaves out nothing. */
  lemma {:induction false} MapWithoutAbsent<T>(ps: seq<T>, f: T -> string, x: string)
    requires forall i :: 0 <= i < |ps| ==> f(ps[i]) != x
    ensures MapWithout(ps, f, x) == MapAll(ps, f)
  {
    if ps != [] {
      var init := ps[..|ps| - 1];
      MapWithoutAbsent(init, f, x);
      assert MapAll(ps, f) == MapAll(init, f) + [f(ps[|ps| - 1])];
    }
  }

  /**
   * `MapWithout` picks values of `f` over `ps` at increasing positions, and
   * picks every position whose value is not `x`: it is the subsequence of
   * `MapAll(ps, f)` without `x`, in order. `idx` lists the positions picked.
   */
  lemma {:induction false} MapWithoutOrder<T>(ps: seq<T>, f: T -> string, x: string) returns (idx: seq<int>)
    ensures |idx| == |MapWithout(ps, f, x)|
    ensures forall k :: 0 <= k < |idx| ==> 0 <= idx[k] < |ps| && MapWithout(ps, f, x)[k] == f(ps[idx[k]])
    ensures forall k, l :: 0 <= k < l < |idx| ==> idx[k] < idx[l]
    ensures forall j :: 0 <= j < |ps| && f(ps[j]) != x ==> j in idx
  {
    if ps == [] {
      idx := [];
    } else {
      var n := |ps| - 1;
      var init := ps[..n];
      var idx0 := MapWithoutOrder(init, f, x);
      assert forall j :: 0 <= j < n ==> init[j] == ps[j];
      if f(ps[n]) == x {
        idx := idx0;
      } else {
        idx := idx0 + [n];
        assert forall k :: 0 <= k < |idx0| ==> idx[k] == idx0[k];
      }
    }
  }

  /**
   * The gallery is the list of entries with exactly the ones equal to the
   * main image left out, in their original order: `idx` is the increasing
   * list of the positions it keeps, and every other position holds the main
   * image's entry.
   */
  lemma GalleryFilters(ps: seq<Path>, mainImage: string) returns (idx: seq<int>)
    ensures forall e :: e in Gallery(ps, mainImage) <==> e in Entries(ps) && e != mainImage
    ensures |Gallery(ps, mainImage)| == |Entries(ps)| - CountOf(Entries(ps), mainImage)
    ensures |idx| == |Gallery(ps, mainImage)|
    ensures forall k :: 0 <= k < |idx| ==> 0 <= idx[k] < |ps| && Gallery(ps, mainImage)[k] == Entries(ps)[idx[k]]
    ensures forall k, l :: 0 <= k < l < |idx| ==> idx[k] < idx[l]
    ensures forall j :: 0 <= j < |ps| && j !in idx ==> Entries(ps)[j] == mainImage
  {
    MapWithoutFilters(ps, Entry, mainImage);
    idx := MapWithoutOrder(ps, Entry, mainImage);
  }

  /** How often `x` occurs in `s`. */
  function CountOf(s: seq<string>, x: string): nat {
    if s == [] then 0 else CountOf(s[..|s| - 1], x) + (if s[|s| - 1] == x then 1 else 0)
  }

  lemma CountAppend(s: seq<string>, y: string, x: string)
    ensures CountOf(s + [y], x) == CountOf(s, x) + (if y == x then 1 else 0)
  {
    assert (s + [y])[..|s|] == s;
  }

  /** Every entry starts with ".", so a main image that is not a string removes nothing from the gallery. */
  lemma NonStringImageRemovesNothing(ps: seq<Path>, image: Json)
    requires !image.JStr?
    ensures Gallery(ps, PyStr(image)) == Entries(ps)
  {
    forall i | 0 <= i < |ps| ensures Entry(ps[i]) != PyStr(image) {
      UrlizeForm(FromString(AsPosix(ps[i])));
    }
    MapWithoutAbsent(ps, Entry, PyStr(image));
  }

  /** The four assignments touch neither the name nor the main image, so they keep the project's folder. */
  lemma AssignKeepsTarget(folderMap: map<string, string>, root: Path, tree: Tree, fields: map<string, Json>, a: seq<Json>)
    requires WellFormed(root) && |a| == 4
    ensures ProjectDir(folderMap, root, tree, Assign(fields, a)) == ProjectDir(folderMap, root, tree, fields)
    ensures MainImage(Assign(fields, a)) == MainImage(fields)
  {
    AssignFacts(fields, a);
    assert "name" !in ArrayKeys && "image" !in ArrayKeys;
    assert Get(Assign(fields, a), "name") == Get(fields, "name");
  }

  /**
   * Refreshing is idempotent: a second pass over the same folder state leaves
   * the fields as the first pass left them and does not count the project.
   */
  lemma SyncIdempotent(folderMap: map<string, string>, root: Path, tree: Tree, fields: map<string, Json>)
    requires WellFormed(root)
    ensures Synced(folderMap, root, tree, Synced(folderMap, root, tree, fields)) == Synced(folderMap, root, tree, fields)
    ensures !Changed(folderMap, root, tree, Synced(folderMap, root, tree, fields))
  {
    var dir := ProjectDir(folderMap, root, tree, fields);
    if dir.Some? {
      var a := NewArrays(tree, dir.value, MainImage(fields));
      AssignFacts(fields, a);
      AssignKeepsTarget(folderMap, root, tree, fields, a);
    }
  }

  /** A second run of the whole loop over an unchanged folder state reports no changes. */
  lemma {:induction false} SecondRunCountsNothing(folderMap: map<string, string>, root: Path, tree: Tree, fs: seq<map<string, Json>>)
    requires WellFormed(root)
    ensures ChangedCount(folderMap, root, tree, SyncedAll(folderMap, root, tree, fs)) == 0
  {
    if fs != [] {
      var init := fs[..|fs| - 1];
      var after := SyncedAll(folderMap, root, tree, fs);
      SecondRunCountsNothing(folderMap, root, tree, init);
      assert after[..|fs| - 1] == SyncedAll(folderMap, root, tree, init);
      SyncIdempotent(folderMap, root, tree, fs[|fs| - 1]);
    }
  }
}
