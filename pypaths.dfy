/**
 * `pathlib.PurePosixPath` as both scripts use it: parsing from a string,
 * `as_posix()`, `name`, `suffix`, `stem`, `parent`, `parents`,
 * `relative_to` and the `/` operator.
 */
module PyPaths {
  import opened PyStrings

  /** A POSIX path: whether it starts at the root "/", and its parts after that. */
  datatype Path = Path(absolute: bool, parts: seq<string>)

  /** A part as pathlib keeps it: never empty, never ".", never holding a slash. */
  predicate ValidPart(s: string) {
    s != "" && s != "." && '/' !in s
  }

  predicate WellFormed(p: Path) {
    forall i :: 0 <= i < |p.parts| ==> ValidPart(p.parts[i])
  }

  /** `"/".join(parts)`. */
  function JoinSlash(parts: seq<string>): string {
    if parts == [] then ""
    else if |parts| == 1 then parts[0]
    else parts[0] + "/" + JoinSlash(parts[1..])
  }

  /** The pieces pathlib drops while parsing: empty ones (repeated slashes) and ".". */
  function DropEmpty(pieces: seq<string>): (r: seq<string>)
    requires forall i :: 0 <= i < |pieces| ==> '/' !in pieces[i]
    ensures forall i :: 0 <= i < |r| ==> ValidPart(r[i])
  {
    if pieces == [] then []
    else if pieces[0] == "" || pieces[0] == "." then DropEmpty(pieces[1..])
    else [pieces[0]] + DropEmpty(pieces[1..])
  }

  /** `PurePosixPath(s)`. */
  function FromString(s: string): (p: Path)
    ensures WellFormed(p)
  {
    Path(s != [] && s[0] == '/', DropEmpty(Split(s, '/')))
  }

  /** Parsing a name without slashes that is neither empty nor "." gives a one-part relative path. */
  lemma SingleName(name: string)
    requires ValidPart(name)
    ensures FromString(name) == Path(false, [name])
  {
    SplitNoSep(name, '/');
    assert name[0] in name;
    assert DropEmpty([name]) == [name] + DropEmpty([]);
  }

  /** `p.as_posix()`, which is also `str(p)` on POSIX. */
  function AsPosix(p: Path): string {
    if p.absolute then "/" + JoinSlash(p.parts)
    else if p.parts == [] then "."
    else JoinSlash(p.parts)
  }

  lemma {:induction false} SplitJoin(parts: seq<string>)
    requires |parts| >= 1
    requires forall i :: 0 <= i < |parts| ==> '/' !in parts[i]
    ensures Split(JoinSlash(parts), '/') == parts
  {
    if |parts| == 1 {
      SplitNoSep(parts[0], '/');
    } else {
      SplitJoin(parts[1..]);
      SplitAtSep(parts[0], JoinSlash(parts[1..]), '/');
    }
  }

  lemma {:induction false} DropEmptyKeepsValid(parts: seq<string>)
    requires forall i :: 0 <= i < |parts| ==> '/' !in parts[i] && ValidPart(parts[i])
    ensures DropEmpty(parts) == parts
  {
    if parts != [] {
      DropEmptyKeepsValid(parts[1..]);
    }
  }

  /** Parsing the POSIX form of a path gives the path back. */
  lemma FromStringAsPosix(p: Path)
    requires WellFormed(p)
    ensures FromString(AsPosix(p)) == p
  {
    var s := AsPosix(p);
    if p.parts == [] {
      if p.absolute {
        assert s == "/" && Split(s, '/') == [""] + Split("", '/');
      } else {
        SplitNoSep(".", '/');
      }
    } else {
      SplitJoin(p.parts);
      DropEmptyKeepsValid(p.parts);
      if p.absolute {
        assert s[1..] == JoinSlash(p.parts);
      } else {
        assert p.parts[0] != "" && '/' !in p.parts[0];
        assert s[0] == p.parts[0][0];
      }
    }
  }

  /** `p.name`: the last part, or "" for a path without parts. */
  function Name(p: Path): string {
    if p.parts == [] then "" else p.parts[|p.parts| - 1]
  }

  /** `s.rfind(".")`: the last index of a dot, or -1. */
  function LastDot(s: string): (i: int)
    ensures -1 <= i < |s|
    ensures i >= 0 ==> s[i] == '.'
    ensures forall j :: i < j < |s| ==> s[j] != '.'
  {
    if s == [] then -1
    else if s[|s| - 1] == '.' then |s| - 1
    else LastDot(s[..|s| - 1])
  }

  /** `p.suffix`: from the last dot of the name, when that dot is neither first nor last. */
  function Suffix(p: Path): string {
    var n := Name(p);
    var i := LastDot(n);
    if 0 < i < |n| - 1 then n[i..] else ""
  }

  /** `p.stem`: the name without its suffix. */
  function Stem(p: Path): string {
    var n := Name(p);
    var i := LastDot(n);
    if 0 < i < |n| - 1 then n[..i] else n
  }

  /** The stem and the suffix split the name between them. */
  lemma StemSuffixSplitName(p: Path)
    ensures Stem(p) + Suffix(p) == Name(p)
    ensures Suffix(p) == "" || (Suffix(p)[0] == '.' && '.' !in Suffix(p)[1..])
  {
    var n := Name(p);
    var i := LastDot(n);
    if 0 < i < |n| - 1 {
      assert forall j :: 0 <= j < |n[i..][1..]| ==> n[i..][1..][j] == n[i + 1 + j];
    }
  }

  /** `p.parent`: a path without parts is its own parent. */
  function Parent(p: Path): Path {
    if p.parts == [] then p else Path(p.absolute, p.parts[..|p.parts| - 1])
  }

  /** `q in p.parents`: `q` is a proper ancestor of `p`. */
  predicate InParents(q: Path, p: Path) {
    q.absolute == p.absolute && |q.parts| < |p.parts| && q.parts == p.parts[..|q.parts|]
  }

  lemma {:induction false} JoinSlashAppend(a: seq<string>, b: seq<string>)
    requires a != [] && b != []
    ensures JoinSlash(a + b) == JoinSlash(a) + "/" + JoinSlash(b)
  {
    assert (a + b)[0] == a[0];
    if |a| == 1 {
      assert (a + b)[1..] == b;
    } else {
      assert (a + b)[1..] == a[1..] + b;
      JoinSlashAppend(a[1..], b);
    }
  }

  /** The POSIX form of a well-formed path is never empty. */
  lemma AsPosixNonEmpty(p: Path)
    requires WellFormed(p)
    ensures AsPosix(p) != ""
  {
    if !p.absolute && p.parts != [] {
      assert ValidPart(p.parts[0]);
      assert |p.parts| > 1 ==> JoinSlash(p.parts) == p.parts[0] + "/" + JoinSlash(p.parts[1..]);
    }
  }

  /**
   * The POSIX form of a path starts with that of each of its ancestors,
   * except the relative empty path, whose form is ".".
   */
  lemma AncestorPrefix(q: Path, p: Path)
    requires InParents(q, p) && AsPosix(q) != "."
    ensures StartsWith(AsPosix(p), AsPosix(q))
  {
    var rest := p.parts[|q.parts|..];
    assert p.parts == q.parts + rest;
    if q.parts != [] {
      JoinSlashAppend(q.parts, rest);
    }
  }

  /** `p.relative_to(q)` for an ancestor `q`. */
  function RelativeTo(p: Path, q: Path): (r: Path)
    requires InParents(q, p)
    ensures !r.absolute && r.parts != []
    ensures q.parts + r.parts == p.parts
  {
    Path(false, p.parts[|q.parts|..])
  }

  /** `p / s`: an absolute `s` replaces `p`, a relative one is appended to it. */
  function Slash(p: Path, s: string): (r: Path)
    requires WellFormed(p)
    ensures WellFormed(r)
  {
    var q := FromString(s);
    if q.absolute then q else Path(p.absolute, p.parts + q.parts)
  }

  /** The parent of a path with parts is among its parents, and is the nearest. */
  lemma ParentInParents(p: Path)
    requires p.parts != []
    ensures InParents(Parent(p), p)
    ensures forall q :: InParents(q, p) ==> |q.parts| <= |Parent(p).parts|
  {
  }
}
