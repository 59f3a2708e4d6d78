/**
 * `load_project_card_images`: the catalog's "image" fields, normalised to the
 * paths the watermarker must leave unbranded.
 */
module CardCatalog {
  import opened PyStrings
  import opened PyPaths
  import opened JsonValues
  import opened Collections

  /** A catalog "image" string as a path: every "./" removed, then every "%20" made a space. */
  function CatalogImagePath(image: string): Path {
    FromString(ReplaceAll(ReplaceAll(image, "./", ""), "%20", " "))
  }

  /** The card image one catalog item names: only an object whose "image" is a non-blank string names one. */
  function ItemCardImage(item: Json): Option<Path> {
    if item.JObj? && "image" in item.fields && item.fields["image"].JStr? && Strip(item.fields["image"].s) != []
    then Some(CatalogImagePath(item.fields["image"].s))
    else None
  }

  /**
   * `load_project_card_images`. `catalog` is the parsed catalog, or `None`
   * when the file is missing or does not parse.
   */
  method LoadProjectCardImages(catalog: Option<Json>) returns (result: set<Path>)
    ensures !(catalog.Some? && catalog.value.JArr?) ==> result == {}
    ensures catalog.Some? && catalog.value.JArr? ==>
              forall p :: p in result <==>
                exists i :: 0 <= i < |catalog.value.items| && ItemCardImage(catalog.value.items[i]) == Some(p)
  {
    result := {};
    if !(catalog.Some? && catalog.value.JArr?) {
      return;
    }
    var items := catalog.value.items;
    var i := 0;
    while i < |items|
      invariant 0 <= i <= |items|
      invariant result == CollectSome(items[..i], ItemCardImage)
    {
      assert items[..i + 1][..i] == items[..i];
      var card := ItemCardImage(items[i]);
      if card.Some? {
        result := result + {card.value};
      }
      i := i + 1;
    }
    assert items[..i] == items;
    forall p ensures p in result <==> exists j :: 0 <= j < |items| && ItemCardImage(items[j]) == Some(p) {
      CollectSomeIff(items, ItemCardImage, p);
    }
  }

  /** An item whose "image" is missing, not a string, or only whitespace names no card image. */
  lemma BlankImageNamesNothing(fields: map<string, Json>)
    requires "image" !in fields || !fields["image"].JStr? || AllSpace(fields["image"].s)
    ensures ItemCardImage(JObj(fields)) == None
  {
    if "image" in fields && fields["image"].JStr? {
      StripEmptyIffAllSpace(fields["image"].s);
    }
  }

  /** The removal of "./" is a single left-to-right pass, so it can leave a "./" behind. */
  lemma DotSlashRemovalIsOnePass()
    ensures ReplaceAll("..//", "./", "") == "./"
  {
    var s := "..//";
    assert s[..2] == "..";
    assert s[1..][..2] == "./";
    assert s[1..][2..] == "/";
  }
}
