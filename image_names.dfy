/**
 * The two file-name classifiers of the image watermarker: the test for names
 * that already carry a watermark or logo, and the pattern for the "project
 * card" images that are kept clean.
 */
module ImageNames {
  import opened PyStrings
  import opened PyPaths

  /** Substrings that mark a file name as already branded. */
  const SkipNameTokens: seq<string> := ["_wm", "watermark", "logo"]

  /** `any(token in name for token in tokens)`. */
  function AnyTokenIn(name: string, tokens: seq<string>): (r: bool)
    ensures r <==> exists k :: 0 <= k < |tokens| && Contains(name, tokens[k])
  {
    if tokens == [] then false
    else Contains(name, tokens[0]) || AnyTokenIn(name, tokens[1..])
  }

  /** `is_already_watermarked`: tested on the lower-cased file name. */
  predicate IsAlreadyWatermarked(p: Path) {
    AnyTokenIn(Lower(Name(p)), SkipNameTokens)
  }

  /** The watermark test holds exactly when one of the three tokens occurs in the lower-cased name. */
  lemma AlreadyWatermarkedIff(p: Path)
    ensures IsAlreadyWatermarked(p) <==>
              (exists i :: OccursAt(Lower(Name(p)), "_wm", i))
              || (exists i :: OccursAt(Lower(Name(p)), "watermark", i))
              || (exists i :: OccursAt(Lower(Name(p)), "logo", i))
  {
    var n := Lower(Name(p));
    assert IsAlreadyWatermarked(p) <==> Contains(n, SkipNameTokens[0]) || Contains(n, SkipNameTokens[1]) || Contains(n, SkipNameTokens[2]);
  }

  // ---------------------------------------------------------------------------
  // The project-card pattern `main(?:-\d+w)?\.(jpg|jpeg|png|webp)$`, searched
  // in the lower-cased file name.

  /** The alternatives of `(jpg|jpeg|png|webp)`. */
  predicate IsCardExt(e: string) {
    e == "jpg" || e == "jpeg" || e == "png" || e == "webp"
  }

  predicate AllDigits(d: string) {
    forall i :: 0 <= i < |d| ==> IsAsciiDigit(d[i])
  }

  /** A string the pattern (without its `$`) matches in full. */
  ghost predicate IsCardToken(t: string) {
    (exists e :: IsCardExt(e) && t == "main." + e)
    || (exists e, d :: IsCardExt(e) && AllDigits(d) && |d| >= 1 && t == "main-" + d + "w." + e)
  }

  /** Some suffix of `s` is matched by the pattern. */
  ghost predicate EndsWithToken(s: string) {
    exists k :: 0 <= k <= |s| && IsCardToken(s[k..])
  }

  /**
   * `re.search` with a final `$`: Python's `$` matches at the very end of the
   * string and also just before a newline that ends it.
   */
  ghost predicate SearchMatches(s: string) {
    EndsWithToken(s) || (s != [] && s[|s| - 1] == '\n' && EndsWithToken(s[..|s| - 1]))
  }

  /** The number of decimal digits that end `s`. */
  function TrailingDigits(s: string): (n: nat)
    ensures n <= |s|
    ensures AllDigits(s[|s| - n..])
    ensures n < |s| ==> !IsAsciiDigit(s[|s| - n - 1])
  {
    if s != [] && IsAsciiDigit(s[|s| - 1]) then
      var t := s[..|s| - 1];
      var n := TrailingDigits(t);
      var u := s[|s| - (n + 1)..];
      assert AllDigits(u) by {
        forall i | 0 <= i < |u| ensures IsAsciiDigit(u[i]) {
          if i < n {
            assert u[i] == t[|t| - n..][i];
          }
        }
      }
      assert n + 1 < |s| ==> s[|s| - (n + 1) - 1] == t[|t| - n - 1];
      n + 1
    else 0
  }

  /** What may stand before ".<ext>": "main", or "main-" + digits + "w". */
  predicate IsCardStem(r: string) {
    EndsWith(r, "main") || (EndsWith(r, "w") && DigitsAfterMain(r[..|r| - 1]))
  }

  /** At least one trailing digit, and "main-" just before the digits. */
  predicate DigitsAfterMain(t: string) {
    var n := TrailingDigits(t);
    n >= 1 && EndsWith(t[..|t| - n], "main-")
  }

  predicate EndsWithCardExt(s: string, e: string) {
    EndsWith(s, "." + e) && IsCardStem(s[..|s| - |e| - 1])
  }

  /** The pattern tested at the end of `s`, one extension at a time. */
  predicate EndsWithCardName(s: string) {
    EndsWithCardExt(s, "jpg") || EndsWithCardExt(s, "jpeg")
    || EndsWithCardExt(s, "png") || EndsWithCardExt(s, "webp")
  }

  /** `is_project_card_variant`. */
  predicate IsProjectCardVariant(p: Path) {
    var n := Lower(Name(p));
    EndsWithCardName(n) || (n != [] && n[|n| - 1] == '\n' && EndsWithCardName(n[..|n| - 1]))
  }

  lemma {:induction false} TrailingDigitsExact(x: string, d: string)
    requires x != [] && !IsAsciiDigit(x[|x| - 1]) && AllDigits(d)
    ensures TrailingDigits(x + d) == |d|
  {
    var s := x + d;
    if d == [] {
      assert s == x;
    } else {
      assert s[|s| - 1] == d[|d| - 1];
      assert s[..|s| - 1] == x + d[..|d| - 1];
      TrailingDigitsExact(x, d[..|d| - 1]);
    }
  }

  lemma PlainToken(e: string)
    requires IsCardExt(e)
    ensures IsCardToken("main." + e)
  {
  }

  lemma ResponsiveToken(d: string, e: string)
    requires IsCardExt(e) && AllDigits(d) && |d| >= 1
    ensures IsCardToken("main-" + d + "w." + e)
  {
  }

  lemma TokenAt(s: string, k: int)
    requires 0 <= k <= |s| && IsCardToken(s[k..])
    ensures EndsWithToken(s)
  {
  }

  lemma PlainStemSound(x: string, e: string)
    requires IsCardExt(e)
    ensures EndsWithToken(x + "main." + e)
  {
    var s := x + "main." + e;
    assert s[|x|..] == "main." + e;
    PlainToken(e);
    TokenAt(s, |x|);
  }

  lemma ResponsiveStemSound(x: string, d: string, e: string)
    requires IsCardExt(e) && AllDigits(d) && |d| >= 1
    ensures EndsWithToken(x + "main-" + d + "w." + e)
  {
    var s := x + "main-" + d + "w." + e;
    assert s[|x|..] == "main-" + d + "w." + e;
    ResponsiveToken(d, e);
    TokenAt(s, |x|);
  }

  lemma PlainStemCase(s: string, e: string)
    requires IsCardExt(e) && EndsWith(s, "." + e) && EndsWith(s[..|s| - |e| - 1], "main")
    ensures EndsWithToken(s)
  {
    var r := s[..|s| - |e| - 1];
    var x := r[..|r| - 4];
    assert s == x + "main." + e by {
      assert s == r + ("." + e);
      assert r == x + "main";
    }
    PlainStemSound(x, e);
  }

  /** A string whose trailing digits, at least one, follow "main-" is a prefix, "main-" and those digits. */
  lemma DigitsAfterMainShape(t: string) returns (x: string, d: string)
    requires DigitsAfterMain(t)
    ensures AllDigits(d) && |d| >= 1 && t == x + "main-" + d
  {
    var n := TrailingDigits(t);
    d := t[|t| - n..];
    var p := t[..|t| - n];
    x := p[..|p| - 5];
    EndsWithSplit(p, "main-");
    assert t == p + d;
  }

  /** A stem of the responsive form, before ".<e>", splits into a prefix, "main-", digits, "w" and the extension. */
  lemma ResponsiveShape(s: string, e: string) returns (x: string, d: string)
    requires EndsWith(s, "." + e)
    requires IsCardStem(s[..|s| - |e| - 1]) && !EndsWith(s[..|s| - |e| - 1], "main")
    ensures AllDigits(d) && |d| >= 1 && s == x + "main-" + d + "w." + e
  {
    var r := s[..|s| - |e| - 1];
    var r' := r[..|r| - 1];
    assert EndsWith(r, "w") && DigitsAfterMain(r');
    EndsWithSplit(s, "." + e);
    EndsWithSplit(r, "w");
    x, d := DigitsAfterMainShape(r');
    assert s == ((x + "main-") + d) + "w" + ("." + e);
  }

  lemma ResponsiveStemCase(s: string, e: string)
    requires IsCardExt(e) && EndsWith(s, "." + e)
    requires IsCardStem(s[..|s| - |e| - 1]) && !EndsWith(s[..|s| - |e| - 1], "main")
    ensures EndsWithToken(s)
  {
    var x, d := ResponsiveShape(s, e);
    ResponsiveStemSound(x, d, e);
  }

  lemma EndsWithCardExtSound(s: string, e: string)
    requires IsCardExt(e) && EndsWithCardExt(s, e)
    ensures EndsWithToken(s)
  {
    if EndsWith(s[..|s| - |e| - 1], "main") {
      PlainStemCase(s, e);
    } else {
      ResponsiveStemCase(s, e);
    }
  }

  lemma PlainTokenComplete(s: string, k: int, e: string)
    requires 0 <= k <= |s| && IsCardExt(e) && s[k..] == "main." + e
    ensures EndsWithCardExt(s, e)
  {
    assert s == s[..k] + ("main." + e);
    assert s[..|s| - |e| - 1] == s[..k] + "main";
  }

  lemma ResponsiveTokenComplete(s: string, k: int, e: string, d: string)
    requires 0 <= k <= |s| && IsCardExt(e) && AllDigits(d) && |d| >= 1
    requires s[k..] == "main-" + d + "w." + e
    ensures EndsWithCardExt(s, e)
  {
    var x := s[..k];
    assert s == x + ("main-" + d + "w." + e);
    ResponsiveNameMatches(x, e, d);
  }

  /** A prefix, "main-", digits, "w." and a card extension end in the responsive pattern. */
  lemma ResponsiveNameMatches(x: string, e: string, d: string)
    requires IsCardExt(e) && AllDigits(d) && |d| >= 1
    ensures EndsWithCardExt(x + ("main-" + d + "w." + e), e)
  {
    var p := x + "main-";
    var t := p + d;
    var r := t + "w";
    var s := x + ("main-" + d + "w." + e);
    assert s == r + ("." + e);
    assert s[..|s| - |e| - 1] == r;
    assert s[|s| - |e| - 1..] == "." + e;
    assert r[..|r| - 1] == t && r[|r| - 1..] == "w";
    TrailingDigitsExact(p, d);
    assert t[..|t| - |d|] == p && p[|p| - 5..] == "main-";
    assert DigitsAfterMain(t);
  }

  lemma EndsWithCardNameComplete(s: string, k: int)
    requires 0 <= k <= |s| && IsCardToken(s[k..])
    ensures EndsWithCardName(s)
  {
    if e :| IsCardExt(e) && s[k..] == "main." + e {
      PlainTokenComplete(s, k, e);
    } else {
      var e, d :| IsCardExt(e) && AllDigits(d) && |d| >= 1 && s[k..] == "main-" + d + "w." + e;
      ResponsiveTokenComplete(s, k, e, d);
    }
  }

  /** The extension-by-extension test agrees with the pattern on every string. */
  lemma EndsWithCardNameIff(s: string)
    ensures EndsWithCardName(s) <==> EndsWithToken(s)
  {
    if EndsWithCardName(s) {
      if EndsWithCardExt(s, "jpg") { EndsWithCardExtSound(s, "jpg"); }
      else if EndsWithCardExt(s, "jpeg") { EndsWithCardExtSound(s, "jpeg"); }
      else if EndsWithCardExt(s, "png") { EndsWithCardExtSound(s, "png"); }
      else { EndsWithCardExtSound(s, "webp"); }
    }
    if EndsWithToken(s) {
      var k :| 0 <= k <= |s| && IsCardToken(s[k..]);
      EndsWithCardNameComplete(s, k);
    }
  }

  /** `is_project_card_variant` holds exactly when the regular-expression search succeeds. */
  lemma ProjectCardVariantIff(p: Path)
    ensures IsProjectCardVariant(p) <==> SearchMatches(Lower(Name(p)))
  {
    var n := Lower(Name(p));
    EndsWithCardNameIff(n);
    if n != [] {
      EndsWithCardNameIff(n[..|n| - 1]);
    }
  }

  /** Because the pattern is searched, not anchored at the start, "domain.jpg" is a card name. */
  lemma SuffixSearchAcceptsDomain()
    ensures IsProjectCardVariant(Path(false, ["img", "Domain.JPG"]))
  {
    var n := Lower("Domain.JPG");
    assert n == "domain.jpg";
    assert n[..|n| - 4] == "domain";
    assert EndsWithCardExt(n, "jpg");
  }

  /** A responsive variant such as "main-640w.webp" is a card name. */
  lemma ResponsiveVariantIsCard()
    ensures IsProjectCardVariant(Path(false, ["main-640w.webp"]))
  {
    var n := "main-640w.webp";
    LowerNoUpper(n);
    assert n[0..] == "main-" + "640" + "w." + "webp";
    ResponsiveTokenComplete(n, 0, "webp", "640");
  }

  lemma DashWithoutDigitsNotWebp()
    ensures !EndsWithCardExt("main-w.webp", "webp")
  {
    var m := "main-w.webp";
    var r := m[..|m| - 5];
    assert r == "main-w";
    assert r[|r| - 4..] == "in-w";
    assert r[..|r| - 1] == "main-";
    assert TrailingDigits("main-") == 0;
  }

  /** "main-w.webp" is not a card name: the dash must be followed by at least one digit. */
  lemma DashWithoutDigitsIsNoCard()
    ensures !IsProjectCardVariant(Path(false, ["main-w.webp"]))
  {
    var m := "main-w.webp";
    assert !EndsWithCardName(m) by {
      DashWithoutDigitsNotWebp();
      assert !EndsWith(m, ".jpg") by { assert m[|m| - 4] == 'w'; }
      assert !EndsWith(m, ".png") by { assert m[|m| - 4] == 'w'; }
      assert !EndsWith(m, ".jpeg") by { assert m[|m| - 5] == '.' && m[|m| - 4] == 'w'; }
    }
    assert Lower(Name(Path(false, [m]))) == m by {
      LowerNoUpper(m);
    }
    assert m[|m| - 1] != '\n';
  }
}
