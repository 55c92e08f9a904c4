/**
 * The record parse.py builds for one page (parse.py lines 66-132), from
 * what its selectors find. The HTML parser itself is not modelled: a
 * `Page` holds, for every selector, the texts and attribute values it
 * yields, in document order.
 */
module ParseRecord {
  import opened Wrappers
  import opened Text
  import opened Seqs
  import opened PyDict
  import opened JsonValue

  /** What parse.py's selectors find in one page, texts as `get_text` returns them. */
  datatype Page = Page(
    title: Option<string>,           // <title>, stripped
    price: Option<string>,           // the domestic price cell of the summary price row
    description: Option<string>,     // the description block, pieces joined by " "
    listingDate: Option<string>,     // the listing-data cell of the system details
    email: Option<string>,           // the first mailto anchor
    phone: Option<string>,           // the phone number paragraph
    terms: seq<string>,              // every basic-details term, stripped
    definitions: seq<string>,        // every basic-details definition, pieces joined by " "
    featureLists: seq<seq<string>>,  // the item texts of every feature group list
    imageAttrs: seq<Option<string>>  // `data-large-image-url` of every image media item
  )

  /** The (label, value) pairs the basic-details loop assigns, in order. */
  function BasicPairs(terms: seq<string>, definitions: seq<string>): seq<(string, string)> {
    Zip(terms, Map(FoldNewlines, definitions))
  }

  /** `basic_info` after the loop at parse.py lines 92-99. */
  function BasicInfoOf(terms: seq<string>, definitions: seq<string>): Dict<string> {
    SetAll([], BasicPairs(terms, definitions))
  }

  /** The loop at parse.py lines 92-99. */
  method BuildBasicInfo(terms: seq<string>, definitions: seq<string>) returns (info: Dict<string>)
    ensures info == BasicInfoOf(terms, definitions)
  {
    ghost var pairs := BasicPairs(terms, definitions);
    info := [];
    var i := 0;
    while i < |terms| && i < |definitions|
      invariant 0 <= i <= Min(|terms|, |definitions|)
      invariant info == SetAll([], pairs[..i])
    {
      var key := terms[i];
      var value := FoldNewlines(definitions[i]);
      assert pairs[i] == (key, value);
      SetAllStep([], pairs, i);
      info := Set(info, key, value);
      i := i + 1;
    }
    assert pairs[..i] == pairs;
  }

  /**
   * The loop makes exactly min(#terms, #definitions) assignments; the keys
   * are the labels in order of first appearance, and each label holds the
   * value paired with its last appearance.
   */
  lemma BasicInfoMeaning(terms: seq<string>, definitions: seq<string>, k: string, v: string)
    ensures |BasicPairs(terms, definitions)| == Min(|terms|, |definitions|)
    ensures Valid(BasicInfoOf(terms, definitions))
    ensures Keys(BasicInfoOf(terms, definitions)) == AddKeys([], terms[..Min(|terms|, |definitions|)])
    ensures Get(BasicInfoOf(terms, definitions), k) == Some(v) <==>
      exists j :: 0 <= j < Min(|terms|, |definitions|) && terms[j] == k && v == FoldNewlines(definitions[j])
        && forall j' :: j < j' < Min(|terms|, |definitions|) ==> terms[j'] != k
  {
    BasicInfoKeys(terms, definitions);
    BasicInfoGet(terms, definitions, k, v);
  }

  /** The pairs, the validity and the key order of `basic_info`. */
  lemma BasicInfoKeys(terms: seq<string>, definitions: seq<string>)
    ensures |BasicPairs(terms, definitions)| == Min(|terms|, |definitions|)
    ensures Valid(BasicInfoOf(terms, definitions))
    ensures Keys(BasicInfoOf(terms, definitions)) == AddKeys([], terms[..Min(|terms|, |definitions|)])
  {
    ZipKeys(terms, Map(FoldNewlines, definitions));
  }

  /** The value each label holds after the loop. */
  lemma BasicInfoGet(terms: seq<string>, definitions: seq<string>, k: string, v: string)
    ensures Get(BasicInfoOf(terms, definitions), k) == Some(v) <==>
      exists j :: 0 <= j < Min(|terms|, |definitions|) && terms[j] == k && v == FoldNewlines(definitions[j])
        && forall j' :: j < j' < Min(|terms|, |definitions|) ==> terms[j'] != k
  {
    var vals := Map(FoldNewlines, definitions);
    ZipGet(terms, vals, k, v);
  }

  /** The nested loops at parse.py lines 107-111. */
  method BuildFeatures(lists: seq<seq<string>>) returns (features: seq<string>)
    ensures features == Flatten(lists)
  {
    features := [];
    for i := 0 to |lists|
      invariant features == Flatten(lists[..i])
    {
      var items := lists[i];
      for j := 0 to |items|
        invariant features == Flatten(lists[..i]) + items[..j]
      {
        features := features + [items[j]];
        assert items[..j + 1] == items[..j] + [items[j]];
      }
      assert lists[..i + 1][..i] == lists[..i];
      assert items[..|items|] == items;
    }
    assert lists[..|lists|] == lists;
  }

  /** `tag.get("data-large-image-url")` kept when truthy. */
  function LargeImage(attr: Option<string>): Option<string> {
    if attr.Some? && attr.value != [] then attr else None
  }

  /** The comprehension at parse.py line 115. */
  function ImageUrls(attrs: seq<Option<string>>): seq<string> {
    FilterMap(attrs, LargeImage)
  }

  /**
   * An URL is listed exactly when some image item carries it, non-empty,
   * and it is listed as often as items carry it.
   */
  lemma ImageUrlsMeaning(attrs: seq<Option<string>>, u: string)
    ensures u in ImageUrls(attrs) <==> u != [] && Some(u) in attrs
    ensures u != [] ==> Occurrences(ImageUrls(attrs), u) == Occurrences(attrs, Some(u))
  {
    FilterMapMember(attrs, LargeImage, u);
    if Some(u) in attrs {
      var i :| 0 <= i < |attrs| && attrs[i] == Some(u);
    }
    ImageUrlsOccurrences(attrs, u);
  }

  /** Each URL is kept as often as image items carry it. */
  lemma {:induction false} ImageUrlsOccurrences(attrs: seq<Option<string>>, u: string)
    ensures u != [] ==> Occurrences(ImageUrls(attrs), u) == Occurrences(attrs, Some(u))
    decreases |attrs|
  {
    if attrs != [] {
      var prefix := attrs[..|attrs| - 1];
      var last := attrs[|attrs| - 1];
      ImageUrlsOccurrences(prefix, u);
      assert attrs == prefix + [last];
      FilterMapSnoc(prefix, last, LargeImage);
      var rest := ImageUrls(prefix);
      if LargeImage(last).Some? {
        assert (rest + [last.value])[..|rest|] == rest;
      }
    }
  }

  const RecordKeys: seq<string> := [
    "filename", "title", "price", "location", "size_m2", "num_rooms", "property_type",
    "description", "listing_date", "email", "phone", "property_features", "images"]

  /** The dict literal at parse.py lines 118-132. */
  function RecordOf(filename: string, page: Page): Record {
    var info := BasicInfoOf(page.terms, page.definitions);
    [ ("filename", Str(filename)),
      ("title", OptStr(page.title)),
      ("price", OptStr(page.price)),
      ("location", OptStr(Get(info, "Lokacija"))),
      ("size_m2", OptStr(Get(info, "Stambena površina"))),
      ("num_rooms", OptStr(Get(info, "Broj soba"))),
      ("property_type", OptStr(Get(info, "Tip stana"))),
      ("description", OptStr(if page.description.Some? then Some(FoldNewlines(page.description.value)) else None)),
      ("listing_date", OptStr(page.listingDate)),
      ("email", OptStr(page.email)),
      ("phone", OptStr(page.phone)),
      ("property_features", List(Flatten(page.featureLists))),
      ("images", List(ImageUrls(page.imageAttrs))) ]
  }

  /** The record holds the thirteen keys, in the literal's order, each once. */
  lemma RecordShape(filename: string, page: Page)
    ensures Keys(RecordOf(filename, page)) == RecordKeys
    ensures Valid(RecordOf(filename, page))
  {
    RecordKeysOf(filename, page);
    RecordKeysDistinct();
  }

  /** The keys of the literal, whatever its values. */
  lemma RecordKeysOf(filename: string, page: Page)
    ensures Keys(RecordOf(filename, page)) == RecordKeys
  {
    var info := BasicInfoOf(page.terms, page.definitions);
    LiteralKeys(
      Str(filename), OptStr(page.title), OptStr(page.price),
      OptStr(Get(info, "Lokacija")), OptStr(Get(info, "Stambena površina")),
      OptStr(Get(info, "Broj soba")), OptStr(Get(info, "Tip stana")),
      OptStr(if page.description.Some? then Some(FoldNewlines(page.description.value)) else None),
      OptStr(page.listingDate), OptStr(page.email), OptStr(page.phone),
      List(Flatten(page.featureLists)), List(ImageUrls(page.imageAttrs)));
  }

  /** The keys of a thirteen-entry literal with the record's keys. */
  lemma LiteralKeys(v0: Value, v1: Value, v2: Value, v3: Value, v4: Value, v5: Value, v6: Value,
                    v7: Value, v8: Value, v9: Value, v10: Value, v11: Value, v12: Value)
    ensures Keys([ ("filename", v0), ("title", v1), ("price", v2), ("location", v3),
      ("size_m2", v4), ("num_rooms", v5), ("property_type", v6), ("description", v7),
      ("listing_date", v8), ("email", v9), ("phone", v10), ("property_features", v11),
      ("images", v12) ]) == RecordKeys
  {
  }

  /** The thirteen keys are pairwise different. */
  lemma RecordKeysDistinct()
    ensures Distinct(RecordKeys)
  {
  }

  /** parse.py lines 66-132 for one page: the basic details, the features, then the record. */
  method ExtractRecord(filename: string, page: Page) returns (data: Record)
    ensures data == RecordOf(filename, page)
  {
    var info := BuildBasicInfo(page.terms, page.definitions);
    var features := BuildFeatures(page.featureLists);
    var images := ImageUrls(page.imageAttrs);
    var description := if page.description.Some? then Some(FoldNewlines(page.description.value)) else None;
    data := [
      ("filename", Str(filename)),
      ("title", OptStr(page.title)),
      ("price", OptStr(page.price)),
      ("location", OptStr(Get(info, "Lokacija"))),
      ("size_m2", OptStr(Get(info, "Stambena površina"))),
      ("num_rooms", OptStr(Get(info, "Broj soba"))),
      ("property_type", OptStr(Get(info, "Tip stana"))),
      ("description", OptStr(description)),
      ("listing_date", OptStr(page.listingDate)),
      ("email", OptStr(page.email)),
      ("phone", OptStr(page.phone)),
      ("property_features", List(features)),
      ("images", List(images)) ];
  }
}
