/**
 * How the two scripts meet: the synchronizer writes gallery entries with
 * `urlize`, and the watermarker reads the catalog's "image" strings back as
 * paths by removing every "./" and turning every "%20" into a space.
 */
module CatalogLinks {
  import opened PyStrings
  import opened PyPaths
  import opened UrlEncoding
  import opened CardCatalog

  /** No "./" occurs in `s`. */
  predicate NoDotSlash(s: string) {
    forall i :: 0 <= i < |s| - 1 ==> !(s[i] == '.' && s[i + 1] == '/')
  }

  /** A character `quote` keeps, or a space. */
  predicate PlainChar(c: char) {
    KeptChar(c) || c == ' '
  }

  /** What `quote` makes of a string of plain characters: every space becomes "%20". */
  function EncodeSpaces(s: string): string {
    if s == [] then [] else (if s[0] == ' ' then "%20" else [s[0]]) + EncodeSpaces(s[1..])
  }

  lemma {:induction false} QuotePlain(s: string)
    requires forall i :: 0 <= i < |s| ==> PlainChar(s[i])
    ensures Quote(s) == EncodeSpaces(s)
  {
    if s != [] {
      QuotePlain(s[1..]);
      assert Utf8Encode(s) == [s[0] as int] + Utf8Encode(s[1..]);
      if s[0] == ' ' {
        assert QuoteByte(32) == "%20";
      }
    }
  }

  /** A scan that does not find the pattern at the head moves on by one character. */
  lemma ReplaceAllHead(t: string, pat: string, rep: string)
    requires pat != [] && t != []
    requires !(|t| >= |pat| && t[..|pat|] == pat)
    ensures ReplaceAll(t, pat, rep) == [t[0]] + ReplaceAll(t[1..], pat, rep)
  {
    if |t| < |pat| {
      assert [t[0]] + t[1..] == t;
    }
  }

  lemma {:induction false} RemoveDotSlashAbsent(t: string)
    requires NoDotSlash(t)
    ensures ReplaceAll(t, "./", "") == t
  {
    if t != [] {
      if |t| >= 2 {
        assert !(t[0] == '.' && t[1] == '/');
        assert t[..2] != "./";
      }
      ReplaceAllHead(t, "./", "");
      RemoveDotSlashAbsent(t[1..]);
      assert [t[0]] + t[1..] == t;
    }
  }

  lemma {:induction false} EncodeSpacesNoDotSlash(s: string)
    requires forall i :: 0 <= i < |s| ==> PlainChar(s[i])
    requires NoDotSlash(s)
    ensures NoDotSlash(EncodeSpaces(s))
    ensures s != [] ==> EncodeSpaces(s) != [] && EncodeSpaces(s)[0] == (if s[0] == ' ' then '%' else s[0])
  {
    if s != [] {
      EncodeSpacesNoDotSlash(s[1..]);
      var a := if s[0] == ' ' then "%20" else [s[0]];
      var b := EncodeSpaces(s[1..]);
      assert EncodeSpaces(s) == a + b;
      forall i | 0 <= i < |a + b| - 1 ensures !((a + b)[i] == '.' && (a + b)[i + 1] == '/') {
        if i + 1 >= |a| {
          if i + 1 == |a| && (a + b)[i] == '.' {
            assert s[0] == '.' && b != [] && b[0] == (a + b)[i + 1];
            assert |s| > 1;
            assert !(s[0] == '.' && s[1] == '/');
          } else if i >= |a| {
            assert (a + b)[i] == b[i - |a|] && (a + b)[i + 1] == b[i - |a| + 1];
          }
        }
      }
    }
  }

  lemma {:induction false} DecodeSpaces(s: string)
    requires forall i :: 0 <= i < |s| ==> PlainChar(s[i])
    ensures ReplaceAll(EncodeSpaces(s), "%20", " ") == s
  {
    if s != [] {
      DecodeSpaces(s[1..]);
      var e := EncodeSpaces(s);
      var rest := EncodeSpaces(s[1..]);
      if s[0] == ' ' {
        assert e == "%20" + rest;
        assert e[..3] == "%20" && e[3..] == rest;
      } else {
        assert e == [s[0]] + rest;
        assert s[0] != '%';
        assert |e| >= 3 ==> e[..3][0] == s[0];
        ReplaceAllHead(e, "%20", " ");
        assert e[1..] == rest;
      }
      assert s == [s[0]] + s[1..];
    }
  }

  /**
   * The catalog's normalisation reads a urlized path back as that path when
   * its posix form holds only characters `quote` keeps and spaces, and no "./".
   */
  lemma UrlizedCardRecognised(p: Path)
    requires WellFormed(p)
    requires forall i :: 0 <= i < |AsPosix(p)| ==> PlainChar(AsPosix(p)[i])
    requires NoDotSlash(AsPosix(p))
    ensures CatalogImagePath(Urlize(p)) == p
  {
    var s := AsPosix(p);
    QuotePlain(s);
    var e := EncodeSpaces(s);
    EncodeSpacesNoDotSlash(s);
    var u := "./" + e;
    assert Urlize(p) == u;
    assert u[..2] == "./" && u[2..] == e;
    RemoveDotSlashAbsent(e);
    assert ReplaceAll(u, "./", "") == e;
    DecodeSpaces(s);
    FromStringAsPosix(p);
  }

  /** `urlize` writes a "%" as "%25". */
  lemma PercentUrlized()
    ensures Urlize(Path(false, ["%"])) == "./%25"
  {
    assert AsPosix(Path(false, ["%"])) == "%";
    assert Utf8Encode("%") == [37];
    assert QuoteByte(37) == "%25";
    assert QuoteBytes([37]) == "%25";
  }

  /** The catalog's normalisation leaves "%25" alone. */
  lemma PercentNotDecoded()
    ensures CatalogImagePath("./%25") == Path(false, ["%25"])
  {
    assert ("./%25")[..2] == "./" && ("./%25")[2..] == "%25";
    assert ReplaceAll("%25", "./", "") == "%25" by {
      RemoveDotSlashAbsent("%25");
    }
    assert ReplaceAll("%25", "%20", " ") == "%25" by {
      assert "%25"[..3] != "%20";
      assert "%25"[1..] == "25";
      ReplaceAllHead("25", "%20", " ");
      assert "25"[1..] == "5";
    }
    SingleName("%25");
  }

  /**
   * Only "%20" is decoded: a name holding "%" is written as "%25" and read back
   * as a different path.
   */
  lemma PercentNameNotRecognised()
    ensures CatalogImagePath(Urlize(Path(false, ["%"]))) == Path(false, ["%25"])
  {
    PercentUrlized();
    PercentNotDecoded();
  }
}
