/**
 * The record parse_2.py builds for one page (parse_2.py lines 17-95): the
 * dict `podaci`, filled step by step, where a later assignment to a key
 * replaces the value in place. The HTML parser is not modelled: a `Page2`
 * holds what each selector of the script yields, in document order.
 */
module Parse2Record {
  import opened Wrappers
  import opened Text
  import opened Seqs
  import opened PyDict
  import opened JsonValue

  /**
   * The basic-details list: for every `dt` and every `dd`, the text of
   * its text-wrap span, or `None` when it has no such span.
   */
  datatype Details = Details(terms: seq<Option<string>>, definitions: seq<Option<string>>)

  /** A feature section: its title heading's text, if any, and the texts of its items. */
  datatype Section = Section(title: Option<string>, items: seq<string>)

  /**
   * The owner block: the agency name anchor's text, the first http(s)
   * link that is not a mailto link, the mailto anchor's text, the text of
   * the address icon's parent, and whether a call-seller control exists.
   */
  datatype Owner = Owner(
    name: Option<string>,
    web: Option<string>,
    email: Option<string>,
    address: Option<string>,
    callSeller: bool)

  /** What parse_2.py's selectors find in one page. */
  datatype Page2 = Page2(
    title: Option<string>,
    price: Option<string>,
    details: Option<Details>,       // None: no basic-details list
    description: Option<string>,    // pieces joined by " "
    sections: seq<Section>,
    owner: Option<Owner>,           // None: no owner block
    imageSrcs: seq<Option<string>>) // `src` of every gallery image

  /** The dict literal at parse_2.py lines 28-32. */
  function Head(filename: string, page: Page2): Record {
    [("datoteka", Str(filename)), ("naslov", OptStr(page.title)), ("cijena", OptStr(page.price))]
  }

  /** A zipped `dt`/`dd` pair is stored only when both spans exist and both texts are non-empty. */
  function DetailPair(p: (Option<string>, Option<string>)): Option<(string, Value)> {
    if p.0.Some? && p.1.Some? && p.0.value != [] && p.1.value != [] then Some((p.0.value, Str(p.1.value)))
    else None
  }

  /** The assignments of the loop at parse_2.py lines 39-45, in order. */
  function DetailPairs(page: Page2): seq<(string, Value)> {
    match page.details
    case None => []
    case Some(d) => FilterMap(Zip(d.terms, d.definitions), DetailPair)
  }

  function NonEmpty(t: string): bool {
    t != []
  }

  /** The group a section contributes: its title and its non-empty item texts, if any remain. */
  function GroupOf(s: Section): Option<(string, Value)> {
    var items := Filter(s.items, NonEmpty);
    if s.title.Some? && items != [] then Some((s.title.value, List(items))) else None
  }

  /** The assignments of the loop at parse_2.py lines 54-68, in order. */
  function Groups(sections: seq<Section>): seq<(string, Value)> {
    FilterMap(sections, GroupOf)
  }

  /** The `opis` value: the description with line breaks folded, or `None`. */
  function Description(page: Page2): Value {
    OptStr(if page.description.Some? then Some(FoldNewlines(page.description.value)) else None)
  }

  /** The agency address: the parent's text with every "Adresa: " removed. */
  function AddressOf(parentText: string): string {
    Replace(parentText, "Adresa: ", "")
  }

  /** The text of an optional element as a JSON string, when the element was found. */
  function StrOf(o: Option<string>): Option<Value> {
    if o.Some? then Some(Str(o.value)) else None
  }

  /** An assignment that happens only when its value was found. */
  function SetWhen(d: Record, k: string, v: Option<Value>): (r: Record)
    ensures Keys(d) <= Keys(r)
    ensures Valid(d) ==> Valid(r)
    ensures Get(r, k) == if v.Some? then v else Get(d, k)
    ensures forall k' :: k' != k ==> Get(r, k') == Get(d, k')
  {
    if v.Some? then
      SetExtends(d, k, v.value);
      Set(d, k, v.value)
    else d
  }

  /** The owner block at parse_2.py lines 72-90, applied to `d`. */
  function WithOwner(d: Record, o: Owner): Record {
    var d1 := SetWhen(d, "naziv_agencije", StrOf(o.name));
    var d2 := SetWhen(d1, "web_agencije", StrOf(o.web));
    var d3 := SetWhen(d2, "email_agencije", StrOf(o.email));
    var d4 := SetWhen(d3, "adresa_agencije", StrOf(if o.address.Some? then Some(AddressOf(o.address.value)) else None));
    Set(d4, "telefon_dostupan", Bool(o.callSeller))
  }

  /** `img["src"]` kept when present, non-empty and holding "image-xlsize". */
  function XlImage(src: Option<string>): Option<string> {
    if src.Some? && src.value != [] && Contains(src.value, "image-xlsize") then src else None
  }

  /** The comprehension at parse_2.py line 94. */
  function Slike(srcs: seq<Option<string>>): seq<string> {
    FilterMap(srcs, XlImage)
  }

  /** `podaci` after each step of parse_2.py. */
  function AfterDetails(filename: string, page: Page2): Record {
    SetAll(Head(filename, page), DetailPairs(page))
  }

  function AfterDescription(filename: string, page: Page2): Record {
    Set(AfterDetails(filename, page), "opis", Description(page))
  }

  function AfterGroups(filename: string, page: Page2): Record {
    SetAll(AfterDescription(filename, page), Groups(page.sections))
  }

  function AfterOwner(filename: string, page: Page2): Record {
    match page.owner
    case None => AfterGroups(filename, page)
    case Some(o) => WithOwner(AfterGroups(filename, page), o)
  }

  /** The record written for one page. */
  function PodaciOf(filename: string, page: Page2): Record {
    Set(AfterOwner(filename, page), "slike", List(Slike(page.imageSrcs)))
  }

  /** parse_2.py lines 19-95 for one page. */
  method BuildPodaci(filename: string, page: Page2) returns (podaci: Record)
    ensures podaci == PodaciOf(filename, page)
  {
    podaci := [("datoteka", Str(filename)), ("naslov", OptStr(page.title)), ("cijena", OptStr(page.price))];
    if page.details.Some? {
      podaci := AddDetails(podaci, page.details.value);
    }
    var opis := if page.description.Some? then Some(FoldNewlines(page.description.value)) else None;
    podaci := Set(podaci, "opis", OptStr(opis));
    podaci := AddGroups(podaci, page.sections);
    if page.owner.Some? {
      podaci := AddOwner(podaci, page.owner.value);
    }
    var slike := Slike(page.imageSrcs);
    podaci := Set(podaci, "slike", List(slike));
  }

  /** The loop at parse_2.py lines 39-45. */
  method AddDetails(start: Record, details: Details) returns (podaci: Record)
    ensures podaci == SetAll(start, FilterMap(Zip(details.terms, details.definitions), DetailPair))
  {
    var dts, dds := details.terms, details.definitions;
    ghost var zipped := Zip(dts, dds);
    assert |zipped| == Min(|dts|, |dds|);
    podaci := start;
    var i := 0;
    while i < |dts| && i < |dds|
      invariant 0 <= i <= |zipped|
      invariant podaci == SetAll(start, FilterMap(zipped[..i], DetailPair))
    {
      var kljuc := dts[i];
      var vrijednost := dds[i];
      assert zipped[i] == (kljuc, vrijednost);
      DetailStep(start, zipped, i, kljuc, vrijednost);
      if kljuc.Some? && vrijednost.Some? && kljuc.value != [] && vrijednost.value != [] {
        podaci := Set(podaci, kljuc.value, Str(vrijednost.value));
      }
      i := i + 1;
    }
    assert zipped[..i] == zipped;
  }

  /** One turn of the basic-details loop, on the pair `(kljuc, vrijednost)` at position `i`. */
  lemma DetailStep(start: Record, zipped: seq<(Option<string>, Option<string>)>, i: nat,
                   kljuc: Option<string>, vrijednost: Option<string>)
    requires i < |zipped| && zipped[i] == (kljuc, vrijednost)
    ensures SetAll(start, FilterMap(zipped[..i + 1], DetailPair))
      == if kljuc.Some? && vrijednost.Some? && kljuc.value != [] && vrijednost.value != []
         then Set(SetAll(start, FilterMap(zipped[..i], DetailPair)), kljuc.value, Str(vrijednost.value))
         else SetAll(start, FilterMap(zipped[..i], DetailPair))
  {
    var p := zipped[i];
    assert zipped[..i + 1] == zipped[..i] + [p];
    FilterMapSnoc(zipped[..i], p, DetailPair);
    if DetailPair(p).Some? {
      SetAllSnoc(start, FilterMap(zipped[..i], DetailPair), p.0.value, Str(p.1.value));
    }
  }

  /** The loop at parse_2.py lines 54-68. */
  method AddGroups(start: Record, sekcije: seq<Section>) returns (podaci: Record)
    ensures podaci == SetAll(start, Groups(sekcije))
  {
    podaci := start;
    for i := 0 to |sekcije|
      invariant podaci == SetAll(start, Groups(sekcije[..i]))
    {
      var sekcija := sekcije[i];
      assert sekcije[..i + 1] == sekcije[..i] + [sekcija];
      FilterMapSnoc(sekcije[..i], sekcija, GroupOf);
      if sekcija.title.None? {
        continue;
      }
      var imeGrupe := sekcija.title.value;
      var stavke := CollectItems(sekcija.items);
      if stavke != [] {
        SetAllSnoc(start, Groups(sekcije[..i]), imeGrupe, List(stavke));
        podaci := Set(podaci, imeGrupe, List(stavke));
      }
    }
    assert sekcije[..|sekcije|] == sekcije;
  }

  /** The loop at parse_2.py lines 60-65: the non-empty item texts, in order. */
  method CollectItems(items: seq<string>) returns (stavke: seq<string>)
    ensures stavke == Filter(items, NonEmpty)
  {
    stavke := [];
    for j := 0 to |items|
      invariant stavke == Filter(items[..j], NonEmpty)
    {
      assert items[..j + 1][..j] == items[..j];
      var tekst := items[j];
      if tekst != [] {
        stavke := stavke + [tekst];
      }
    }
    assert items[..|items|] == items;
  }

  /** The owner block at parse_2.py lines 72-90, once the block is found. */
  method AddOwner(start: Record, o: Owner) returns (podaci: Record)
    ensures podaci == WithOwner(start, o)
  {
    podaci := start;
    if o.name.Some? {
      podaci := Set(podaci, "naziv_agencije", Str(o.name.value));
    }
    if o.web.Some? {
      podaci := Set(podaci, "web_agencije", Str(o.web.value));
    }
    if o.email.Some? {
      podaci := Set(podaci, "email_agencije", Str(o.email.value));
    }
    if o.address.Some? {
      podaci := Set(podaci, "adresa_agencije", Str(AddressOf(o.address.value)));
    }
    podaci := Set(podaci, "telefon_dostupan", Bool(o.callSeller));
  }

  /** The keys the owner block may assign. */
  const OwnerKeys: set<string> :=
    {"naziv_agencije", "web_agencije", "email_agencije", "adresa_agencije", "telefon_dostupan"}

  /** One assignment keeps every key where it is. */
  lemma SetExtends(d: Record, k: string, v: Value)
    ensures Keys(d) <= Keys(Set(d, k, v))
  {
  }

  /** The owner block keeps every key where it is and assigns only its own keys. */
  lemma WithOwnerFrame(d: Record, o: Owner)
    ensures Keys(d) <= Keys(WithOwner(d, o))
    ensures Valid(d) ==> Valid(WithOwner(d, o))
    ensures forall k :: k !in OwnerKeys ==> Get(WithOwner(d, o), k) == Get(d, k)
  {
    var d1 := SetWhen(d, "naziv_agencije", StrOf(o.name));
    var d2 := SetWhen(d1, "web_agencije", StrOf(o.web));
    var d3 := SetWhen(d2, "email_agencije", StrOf(o.email));
    var d4 := SetWhen(d3, "adresa_agencije", StrOf(if o.address.Some? then Some(AddressOf(o.address.value)) else None));
    var r := Set(d4, "telefon_dostupan", Bool(o.callSeller));
    SetExtends(d4, "telefon_dostupan", Bool(o.callSeller));
    assert WithOwner(d, o) == r;
    PrefixTransitive(Keys(d), Keys(d1), Keys(d2));
    PrefixTransitive(Keys(d), Keys(d2), Keys(d3));
    PrefixTransitive(Keys(d), Keys(d3), Keys(d4));
    PrefixTransitive(Keys(d), Keys(d4), Keys(r));
    forall k | k !in OwnerKeys
      ensures Get(r, k) == Get(d, k)
    {
      assert k != "naziv_agencije" && k != "web_agencije" && k != "email_agencije";
      assert k != "adresa_agencije" && k != "telefon_dostupan";
    }
  }

  /** The owner step changes only the owner keys. */
  lemma AfterOwnerFrame(filename: string, page: Page2)
    ensures Keys(AfterGroups(filename, page)) <= Keys(AfterOwner(filename, page))
    ensures Valid(AfterGroups(filename, page)) ==> Valid(AfterOwner(filename, page))
    ensures forall k :: k !in OwnerKeys ==> Get(AfterOwner(filename, page), k) == Get(AfterGroups(filename, page), k)
  {
    if page.owner.Some? {
      WithOwnerFrame(AfterGroups(filename, page), page.owner.value);
    }
  }

  /** The head literal is a valid dict of three keys. */
  lemma HeadShape(filename: string, page: Page2)
    ensures Keys(Head(filename, page)) == ["datoteka", "naslov", "cijena"]
    ensures Valid(Head(filename, page))
  {
    var ks := Keys(Head(filename, page));
    assert ks == ["datoteka", "naslov", "cijena"];
    assert ks[0] != ks[1] && ks[0] != ks[2] && ks[1] != ks[2] by {
      assert ks[0][0] == 'd' && ks[1][0] == 'n' && ks[2][0] == 'c';
    }
  }

  /** Every step up to the feature groups keeps the head keys first and the dict valid. */
  lemma AfterGroupsShape(filename: string, page: Page2)
    ensures Keys(Head(filename, page)) <= Keys(AfterGroups(filename, page))
    ensures Valid(AfterGroups(filename, page))
    ensures "opis" in Keys(AfterGroups(filename, page))
  {
    var head := Head(filename, page);
    HeadShape(filename, page);
    var a := AfterDetails(filename, page);
    SetAllExtends(head, DetailPairs(page));
    SetAllValid(head, DetailPairs(page));
    var b := AfterDescription(filename, page);
    SetExtends(a, "opis", Description(page));
    assert "opis" in Keys(b);
    var c := AfterGroups(filename, page);
    SetAllExtends(b, Groups(page.sections));
    SetAllValid(b, Groups(page.sections));
    PrefixTransitive(Keys(head), Keys(a), Keys(b));
    PrefixTransitive(Keys(head), Keys(b), Keys(c));
    assert Keys(b) == Keys(c)[..|Keys(b)|];
  }

  /**
   * Every record is a valid dict that starts with "datoteka", "naslov" and
   * "cijena", and always holds "opis" and "slike".
   */
  lemma PodaciShape(filename: string, page: Page2)
    ensures Valid(PodaciOf(filename, page))
    ensures |PodaciOf(filename, page)| >= 3
    ensures Keys(PodaciOf(filename, page))[..3] == ["datoteka", "naslov", "cijena"]
    ensures "opis" in Keys(PodaciOf(filename, page)) && "slike" in Keys(PodaciOf(filename, page))
  {
    HeadShape(filename, page);
    AfterGroupsShape(filename, page);
    AfterOwnerFrame(filename, page);
    var e := AfterOwner(filename, page);
    var r := PodaciOf(filename, page);
    SetExtends(e, "slike", List(Slike(page.imageSrcs)));
    assert "slike" in Keys(r);
    KeyChain(Keys(Head(filename, page)), Keys(AfterGroups(filename, page)), Keys(e), Keys(r));
  }

  /** Keys that extend one another in turn keep the first one's keys in front and all the middle one's keys. */
  lemma KeyChain(h: seq<string>, c: seq<string>, e: seq<string>, r: seq<string>)
    requires h <= c && c <= e && e <= r
    ensures r[..|h|] == h
    ensures forall x :: x in c ==> x in r
  {
    PrefixTransitive(h, c, e);
    PrefixTransitive(h, e, r);
    PrefixTransitive(c, e, r);
    assert c == r[..|c|];
  }

  /**
   * "opis" holds the description (possibly `None`) whatever the basic
   * details held under that label; only a feature group titled "opis",
   * assigned later, replaces it.
   */
  lemma PodaciDescription(filename: string, page: Page2)
    ensures Get(PodaciOf(filename, page), "opis")
      == match LastValue(Groups(page.sections), "opis")
         case Some(v) => Some(v)
         case None => Some(Description(page))
  {
    assert "opis" !in OwnerKeys && "opis" != "slike" by {
      assert |"opis"| == 4;
    }
    AfterOwnerFrame(filename, page);
    assert Get(PodaciOf(filename, page), "opis") == Get(AfterGroups(filename, page), "opis");
    assert Get(AfterDescription(filename, page), "opis") == Some(Description(page));
    SetAllGet(AfterDescription(filename, page), Groups(page.sections), "opis");
  }

  /** A basic-details pair that is stored (both texts present and non-empty). */
  predicate Stored(d: Details, k: string, v: string, j: int) {
    0 <= j < |d.terms| && j < |d.definitions| && d.terms[j] == Some(k) && d.definitions[j] == Some(v)
    && k != [] && v != []
  }

  /** Pair `j` is stored under `k` and no later zipped pair is stored under `k`. */
  predicate LastStored(d: Details, k: string, v: string, j: int) {
    Stored(d, k, v, j)
    && forall j' :: j < j' < Min(|d.terms|, |d.definitions|) ==>
         !(d.terms[j'] == Some(k) && d.definitions[j'].Some? && d.definitions[j'].value != [])
  }

  /**
   * After the basic-details loop a label holds the value of its last stored
   * pair: pairs beyond the shorter side, pairs with a missing span and
   * pairs with an empty text are never stored.
   */
  lemma DetailsMeaning(filename: string, page: Page2, k: string, v: string)
    requires page.details.Some?
    requires k != "datoteka" && k != "naslov" && k != "cijena"
    ensures Get(AfterDetails(filename, page), k) == Some(Str(v)) <==>
      exists j :: LastStored(page.details.value, k, v, j)
    ensures (forall v', j :: !Stored(page.details.value, k, v', j)) ==> Get(AfterDetails(filename, page), k) == None
  {
    DetailsFromPairs(filename, page, k);
    DetailsLast(page.details.value, k, v);
    DetailsAbsent(page.details.value, k);
  }

  /** For a label outside the head, the value after the loop is the last assignment to it. */
  lemma DetailsFromPairs(filename: string, page: Page2, k: string)
    requires k != "datoteka" && k != "naslov" && k != "cijena"
    ensures Get(AfterDetails(filename, page), k) == LastValue(DetailPairs(page), k)
  {
    SetAllGet(Head(filename, page), DetailPairs(page), k);
    HeadShape(filename, page);
  }

  /** The last stored pair for a label decides its value. */
  lemma DetailsLast(d: Details, k: string, v: string)
    ensures LastValue(FilterMap(Zip(d.terms, d.definitions), DetailPair), k) == Some(Str(v)) <==>
      exists j :: LastStored(d, k, v, j)
  {
    var zipped := Zip(d.terms, d.definitions);
    LastValueFilterMap(zipped, DetailPair, k, Str(v));
    if exists j :: LastStored(d, k, v, j) {
      var j :| LastStored(d, k, v, j);
      DecidesStored(d, k, v, j);
    }
    if exists j :: DecidesKey(zipped, DetailPair, k, Str(v), j) {
      var j :| DecidesKey(zipped, DetailPair, k, Str(v), j);
      DecidesStored(d, k, v, j);
    }
  }

  /** Pair `j` decides label `k` exactly when it is the last stored pair for `k`. */
  lemma DecidesStored(d: Details, k: string, v: string, j: int)
    ensures DecidesKey(Zip(d.terms, d.definitions), DetailPair, k, Str(v), j) <==> LastStored(d, k, v, j)
  {
    var zipped := Zip(d.terms, d.definitions);
    if 0 <= j < |zipped| && k != [] {
      assert zipped[j] == (d.terms[j], d.definitions[j]);
      forall j' | j < j' < |zipped|
        ensures (DetailPair(zipped[j']).Some? && DetailPair(zipped[j']).value.0 == k) <==>
          (d.terms[j'] == Some(k) && d.definitions[j'].Some? && d.definitions[j'].value != [])
      {
        assert zipped[j'] == (d.terms[j'], d.definitions[j']);
      }
    }
  }

  /** A label with no stored pair gets no value. */
  lemma DetailsAbsent(d: Details, k: string)
    ensures (forall v', j :: !Stored(d, k, v', j)) ==>
      LastValue(FilterMap(Zip(d.terms, d.definitions), DetailPair), k) == None
  {
    var zipped := Zip(d.terms, d.definitions);
    var pairs := FilterMap(zipped, DetailPair);
    if LastValue(pairs, k).Some? {
      var w := LastValue(pairs, k).value;
      LastValueAt(pairs, k, w);
      var i :| 0 <= i < |pairs| && pairs[i] == (k, w);
      FilterMapMember(zipped, DetailPair, (k, w));
      var j :| 0 <= j < |zipped| && DetailPair(zipped[j]) == Some((k, w));
      assert Stored(d, k, w.s, j);
    }
  }

  /**
   * A basic-details label keeps its value in the record unless a later
   * step assigns the same key: the description, a feature group, the
   * owner block or the images.
   */
  lemma DetailSurvives(filename: string, page: Page2, k: string)
    requires k != "opis" && k != "slike" && LastValue(Groups(page.sections), k).None?
    requires page.owner.None? || k !in OwnerKeys
    ensures Get(PodaciOf(filename, page), k) == Get(AfterDetails(filename, page), k)
  {
    AfterOwnerFrame(filename, page);
    SetAllGet(AfterDescription(filename, page), Groups(page.sections), k);
  }

  /**
   * A group is assigned exactly for a section with a title and at least
   * one non-empty item; it holds those items in document order.
   */
  lemma GroupsMeaning(sections: seq<Section>, t: string, v: Value)
    ensures (t, v) in Groups(sections) <==>
      exists i :: 0 <= i < |sections| && sections[i].title == Some(t)
        && Filter(sections[i].items, NonEmpty) != [] && v == List(Filter(sections[i].items, NonEmpty))
  {
    FilterMapMember(sections, GroupOf, (t, v));
  }

  /** The items of a group are the section's non-empty item texts. */
  lemma GroupItemsMeaning(items: seq<string>, x: string)
    ensures x in Filter(items, NonEmpty) <==> x in items && x != []
  {
    FilterMember(items, NonEmpty, x);
  }

  /**
   * The title, the price and the file name stay in the record as the
   * literal set them unless a basic-details label or a feature-group
   * title of the same name reassigns them; the later step wins.
   */
  lemma HeadSurvives(filename: string, page: Page2, k: string)
    requires k == "datoteka" || k == "naslov" || k == "cijena"
    ensures Get(PodaciOf(filename, page), k) ==
      if LastValue(Groups(page.sections), k).Some? then LastValue(Groups(page.sections), k)
      else if LastValue(DetailPairs(page), k).Some? then LastValue(DetailPairs(page), k)
      else Some(if k == "datoteka" then Str(filename) else if k == "naslov" then OptStr(page.title) else OptStr(page.price))
  {
    HeadKeyApart(k);
    HeadGet(filename, page, k);
    var pod := PodaciOf(filename, page);
    AfterOwnerFrame(filename, page);
    assert Get(pod, k) == Get(AfterGroups(filename, page), k);
    SetAllGet(AfterDescription(filename, page), Groups(page.sections), k);
    assert Get(AfterDescription(filename, page), k) == Get(AfterDetails(filename, page), k);
    SetAllGet(Head(filename, page), DetailPairs(page), k);
  }

  /** A head key is none of the keys assigned after the details. */
  lemma HeadKeyApart(k: string)
    requires k == "datoteka" || k == "naslov" || k == "cijena"
    ensures k !in OwnerKeys && k != "opis" && k != "slike"
  {
    assert |k| == 8 || |k| == 6;
  }

  /** What the head literal holds under each of its keys. */
  lemma HeadGet(filename: string, page: Page2, k: string)
    requires k == "datoteka" || k == "naslov" || k == "cijena"
    ensures Get(Head(filename, page), k)
      == Some(if k == "datoteka" then Str(filename) else if k == "naslov" then OptStr(page.title) else OptStr(page.price))
  {
    HeadShape(filename, page);
    var h := Head(filename, page);
    var i := if k == "datoteka" then 0 else if k == "naslov" then 1 else 2;
    assert Keys(h)[i] == k;
    GetAt(h, i);
  }

  /**
   * A group's list reaches the record unless the owner block or the images
   * reuse its title as their key.
   */
  lemma GroupSurvives(filename: string, page: Page2, t: string, v: Value)
    requires LastValue(Groups(page.sections), t) == Some(v)
    requires t != "slike" && (page.owner.None? || t !in OwnerKeys)
    ensures Get(PodaciOf(filename, page), t) == Some(v)
  {
    AfterOwnerFrame(filename, page);
    SetAllGet(AfterDescription(filename, page), Groups(page.sections), t);
  }

  /**
   * With an owner block, "telefon_dostupan" is true exactly when a
   * call-seller control is present, and each agency field is replaced
   * only when found; without one, no agency key is touched.
   */
  lemma PodaciOwner(filename: string, page: Page2)
    ensures page.owner.None? ==>
      forall k :: k in OwnerKeys ==> Get(PodaciOf(filename, page), k) == Get(AfterGroups(filename, page), k)
    ensures page.owner.Some? ==>
      var o := page.owner.value;
      var before := AfterGroups(filename, page);
      var r := PodaciOf(filename, page);
      && Get(r, "telefon_dostupan") == Some(Bool(o.callSeller))
      && Get(r, "naziv_agencije") == (if o.name.Some? then Some(Str(o.name.value)) else Get(before, "naziv_agencije"))
      && Get(r, "web_agencije") == (if o.web.Some? then Some(Str(o.web.value)) else Get(before, "web_agencije"))
      && Get(r, "email_agencije") == (if o.email.Some? then Some(Str(o.email.value)) else Get(before, "email_agencije"))
      && Get(r, "adresa_agencije")
         == (if o.address.Some? then Some(Str(AddressOf(o.address.value))) else Get(before, "adresa_agencije"))
  {
    OwnerKeysNotSlike();
    if page.owner.Some? {
      WithOwnerValues(AfterGroups(filename, page), page.owner.value);
    }
  }

  /** The owner keys differ in their first letter. */
  lemma OwnerKeysDiffer()
    ensures "naziv_agencije" != "web_agencije" && "naziv_agencije" != "email_agencije"
    ensures "naziv_agencije" != "adresa_agencije" && "naziv_agencije" != "telefon_dostupan"
    ensures "web_agencije" != "email_agencije" && "web_agencije" != "adresa_agencije"
    ensures "web_agencije" != "telefon_dostupan" && "email_agencije" != "adresa_agencije"
    ensures "email_agencije" != "telefon_dostupan" && "adresa_agencije" != "telefon_dostupan"
  {
    assert "naziv_agencije"[0] == 'n' && "web_agencije"[0] == 'w' && "email_agencije"[0] == 'e';
    assert "adresa_agencije"[0] == 'a' && "telefon_dostupan"[0] == 't';
  }

  /** The images are assigned under none of the owner keys. */
  lemma OwnerKeysNotSlike()
    ensures forall k :: k in OwnerKeys ==> k != "slike"
  {
    forall k | k in OwnerKeys
      ensures k != "slike"
    {
      assert k[0] != 's' && "slike"[0] == 's';
    }
  }

  /** The values the owner block leaves under its own keys. */
  lemma WithOwnerValues(d: Record, o: Owner)
    ensures var r := WithOwner(d, o);
      && Get(r, "telefon_dostupan") == Some(Bool(o.callSeller))
      && Get(r, "naziv_agencije") == (if o.name.Some? then Some(Str(o.name.value)) else Get(d, "naziv_agencije"))
      && Get(r, "web_agencije") == (if o.web.Some? then Some(Str(o.web.value)) else Get(d, "web_agencije"))
      && Get(r, "email_agencije") == (if o.email.Some? then Some(Str(o.email.value)) else Get(d, "email_agencije"))
      && Get(r, "adresa_agencije")
         == (if o.address.Some? then Some(Str(AddressOf(o.address.value))) else Get(d, "adresa_agencije"))
  {
    OwnerKeysDiffer();
    var address := if o.address.Some? then Some(AddressOf(o.address.value)) else None;
    AssignChain(d, "naziv_agencije", "web_agencije", "email_agencije", "adresa_agencije", "telefon_dostupan",
      StrOf(o.name), StrOf(o.web), StrOf(o.email), StrOf(address), Bool(o.callSeller));
  }

  /** Four optional assignments and a plain one, under five distinct keys. */
  lemma AssignChain(d: Record, k1: string, k2: string, k3: string, k4: string, k5: string,
                    v1: Option<Value>, v2: Option<Value>, v3: Option<Value>, v4: Option<Value>, v5: Value)
    requires k1 != k2 && k1 != k3 && k1 != k4 && k1 != k5 && k2 != k3
    requires k2 != k4 && k2 != k5 && k3 != k4 && k3 != k5 && k4 != k5
    ensures var r := Set(SetWhen(SetWhen(SetWhen(SetWhen(d, k1, v1), k2, v2), k3, v3), k4, v4), k5, v5);
      && Get(r, k5) == Some(v5)
      && Get(r, k1) == (if v1.Some? then v1 else Get(d, k1))
      && Get(r, k2) == (if v2.Some? then v2 else Get(d, k2))
      && Get(r, k3) == (if v3.Some? then v3 else Get(d, k3))
      && Get(r, k4) == (if v4.Some? then v4 else Get(d, k4))
  {
    var d1 := SetWhen(d, k1, v1);
    var d2 := SetWhen(d1, k2, v2);
    var d3 := SetWhen(d2, k3, v3);
    var d4 := SetWhen(d3, k4, v4);
    var r := Set(d4, k5, v5);
    assert Get(r, k1) == Get(d4, k1) == Get(d3, k1) == Get(d2, k1) == Get(d1, k1);
    assert Get(r, k2) == Get(d4, k2) == Get(d3, k2) == Get(d2, k2);
    assert Get(d1, k2) == Get(d, k2);
    assert Get(r, k3) == Get(d4, k3) == Get(d3, k3);
    assert Get(d2, k3) == Get(d1, k3) == Get(d, k3);
    assert Get(r, k4) == Get(d4, k4);
    assert Get(d3, k4) == Get(d2, k4) == Get(d1, k4) == Get(d, k4);
  }

  /** "telefon_dostupan" is present when the owner block is, and otherwise only if an earlier step assigned it. */
  lemma PhoneFlagPresence(filename: string, page: Page2)
    ensures "telefon_dostupan" in Keys(PodaciOf(filename, page)) <==>
      page.owner.Some? || "telefon_dostupan" in Keys(AfterGroups(filename, page))
  {
    PodaciOwner(filename, page);
    AfterOwnerFrame(filename, page);
  }

  /**
   * "slike" holds exactly the `src` values that contain "image-xlsize",
   * in document order and as often as they occur.
   */
  lemma SlikeMeaning(srcs: seq<Option<string>>, u: string)
    ensures u in Slike(srcs) <==> Some(u) in srcs && Contains(u, "image-xlsize")
    ensures Occurrences(Slike(srcs), u) == if Contains(u, "image-xlsize") then Occurrences(srcs, Some(u)) else 0
  {
    FilterMapMember(srcs, XlImage, u);
    if Some(u) in srcs {
      var i :| 0 <= i < |srcs| && srcs[i] == Some(u);
    }
    SlikeOccurrences(srcs, u);
  }

  /** Each kept `src` is kept as often as it occurs. */
  lemma {:induction false} SlikeOccurrences(srcs: seq<Option<string>>, u: string)
    ensures Occurrences(Slike(srcs), u) == if Contains(u, "image-xlsize") then Occurrences(srcs, Some(u)) else 0
    decreases |srcs|
  {
    if srcs != [] {
      var prefix := srcs[..|srcs| - 1];
      var last := srcs[|srcs| - 1];
      SlikeOccurrences(prefix, u);
      assert srcs == prefix + [last];
      FilterMapSnoc(prefix, last, XlImage);
      var rest := Slike(prefix);
      if XlImage(last).Some? {
        assert (rest + [last.value])[..|rest|] == rest;
      }
    }
  }

  /** The record's "slike" is the filtered image list, assigned last. */
  lemma PodaciImages(filename: string, page: Page2)
    ensures Get(PodaciOf(filename, page), "slike") == Some(List(Slike(page.imageSrcs)))
  {
  }
}
