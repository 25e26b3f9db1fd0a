/**
 * Keyword tables that name a product's category: the categories are tried
 * in table order and the first one with a keyword occurring in the text
 * wins; a text with no keyword at all is "general".
 */
module Categories {
  import opened Base
  import opened Chars

  /** Category names, each with its keywords, in the order they are tried. */
  type Table = seq<(string, seq<string>)>

  const General: string := "general"

  /** The first category, from index `i` on, one of whose keywords occurs
      in `text`. */
  function FirstCategory(table: Table, text: string, i: nat := 0): (r: Option<nat>)
    requires i <= |table|
    ensures r.None? <==> forall j :: i <= j < |table| ==> !ContainsAny(text, table[j].1)
    ensures r.Some? ==> i <= r.value < |table| && ContainsAny(text, table[r.value].1)
                        && forall m :: i <= m < r.value ==> !ContainsAny(text, table[m].1)
    decreases |table| - i
  {
    if i == |table| then None
    else if ContainsAny(text, table[i].1) then Some(i)
    else FirstCategory(table, text, i + 1)
  }

  /** The category named by `text`, or "general". */
  function Categorize(table: Table, text: string): (r: string)
    ensures r == General || exists j :: 0 <= j < |table| && r == table[j].0
    ensures (forall j :: 0 <= j < |table| ==> !ContainsAny(text, table[j].1)) ==> r == General
    ensures forall j :: (0 <= j < |table| && ContainsAny(text, table[j].1)
                          && forall m :: 0 <= m < j ==> !ContainsAny(text, table[m].1)) ==> r == table[j].0
  {
    match FirstCategory(table, text)
    case None => General
    case Some(j) => table[j].0
  }

  /** `_determine_category` of the scraper. */
  const ScraperTable: Table := [
    ("headphones", ["headphone", "earphone", "earbud", "audio", "sound"]),
    ("smartphone", ["phone", "mobile", "smartphone", "android", "ios"]),
    ("laptop", ["laptop", "notebook", "computer", "pc"]),
    ("trimmer", ["trimmer", "shaver", "grooming"]),
    ("mixer", ["mixer", "grinder", "blender"]),
    ("charger", ["charger", "adapter", "cable"]),
    ("clothing", ["shirt", "pant", "dress", "jacket", "wear"]),
    ("shoes", ["shoe", "sneaker", "boot", "sandal"])
  ]

  /** `_determine_category_from_text` of the image parser: the same
      categories in the same order, each with more keywords. */
  const OcrTable: Table := [
    ("headphones", ["headphone", "earphone", "earbud", "audio", "sound", "music"]),
    ("smartphone", ["phone", "mobile", "smartphone", "android", "ios", "iphone"]),
    ("laptop", ["laptop", "notebook", "computer", "pc", "macbook"]),
    ("trimmer", ["trimmer", "shaver", "grooming", "beard", "hair"]),
    ("mixer", ["mixer", "grinder", "blender", "kitchen", "juicer"]),
    ("charger", ["charger", "adapter", "cable", "charging"]),
    ("clothing", ["shirt", "pant", "dress", "jacket", "wear", "cotton", "fabric"]),
    ("shoes", ["shoe", "sneaker", "boot", "sandal", "footwear"])
  ]

  /** Table `big` names the same categories as `small`, in the same order,
      with every keyword of `small` among its own. */
  predicate Extends(big: Table, small: Table) {
    |big| == |small|
    && forall j :: 0 <= j < |small| ==>
         big[j].0 == small[j].0
         && forall k :: 0 <= k < |small[j].1| ==> small[j].1[k] in big[j].1
  }

  lemma OcrExtendsScraper()
    ensures Extends(OcrTable, ScraperTable)
  {
  }

  /** A category recognised through the keywords of `small` is at or after
      the one recognised through `big`: the larger table never falls back to
      "general" where the smaller one names a category. */
  lemma {:induction false} ExtendsFindsEarlier(big: Table, small: Table, text: string, i: nat)
    requires Extends(big, small) && i <= |small|
    requires FirstCategory(small, text, i).Some?
    ensures FirstCategory(big, text, i).Some?
    ensures FirstCategory(big, text, i).value <= FirstCategory(small, text, i).value
    decreases |small| - i
  {
    if ContainsAny(text, small[i].1) {
      var k :| 0 <= k < |small[i].1| && Contains(text, small[i].1[k]);
      var w := small[i].1[k];
      assert w in big[i].1;
      var kb :| 0 <= kb < |big[i].1| && big[i].1[kb] == w;
      assert ContainsAny(text, big[i].1);
    } else if !ContainsAny(text, big[i].1) {
      ExtendsFindsEarlier(big, small, text, i + 1);
    }
  }

  lemma ExtendsNotGeneral(big: Table, small: Table, text: string)
    requires Extends(big, small)
    requires Categorize(small, text) != General
    requires forall j :: 0 <= j < |small| ==> small[j].0 != General
    ensures Categorize(big, text) != General
  {
    ExtendsFindsEarlier(big, small, text, 0);
  }

  lemma ScraperNamesCategories()
    ensures forall j :: 0 <= j < |ScraperTable| ==> ScraperTable[j].0 != General
  {
  }

  /** The image parser finds a category wherever the scraper would. */
  lemma OcrNotGeneral(text: string)
    requires Categorize(ScraperTable, text) != General
    ensures Categorize(OcrTable, text) != General
  {
    OcrExtendsScraper();
    ScraperNamesCategories();
    ExtendsNotGeneral(OcrTable, ScraperTable, text);
  }

  /** The wider keyword lists matter: "hair" is a trimmer to the image
      parser and "general" to the scraper. */
  lemma HairExample()
    ensures Categorize(ScraperTable, "hair") == General
    ensures Categorize(OcrTable, "hair") == "trimmer"
  {
    forall j | 0 <= j < |ScraperTable| ensures !ContainsAny("hair", ScraperTable[j].1) {
      NoneContained("hair", ScraperTable[j].1);
    }
    forall j | 0 <= j < 3 ensures !ContainsAny("hair", OcrTable[j].1) {
      NoneContained("hair", OcrTable[j].1);
    }
    assert OcrTable[3].1[4] == "hair" && OccursAt("hair", "hair", 0);
  }

  predicate KeywordsNonEmpty(table: Table) {
    forall j, k :: 0 <= j < |table| && 0 <= k < |table[j].1| ==> |table[j].1[k]| > 0
  }

  /** With no empty keyword, the empty text is "general". */
  lemma EmptyTextGeneral(table: Table)
    requires KeywordsNonEmpty(table)
    ensures Categorize(table, "") == General
  {
    forall j | 0 <= j < |table| ensures !ContainsAny("", table[j].1) {
      forall k | 0 <= k < |table[j].1| ensures !Contains("", table[j].1[k]) {
        assert |table[j].1[k]| > 0;
      }
    }
  }

  lemma OcrKeywordsNonEmpty()
    ensures KeywordsNonEmpty(OcrTable)
  {
    forall j | 0 <= j < |OcrTable| ensures forall k :: 0 <= k < |OcrTable[j].1| ==> |OcrTable[j].1[k]| > 0 {
      OcrKeywordsNonEmptyAt(j);
    }
  }

  lemma OcrKeywordsNonEmptyAt(j: nat)
    requires j < |OcrTable|
    ensures forall k :: 0 <= k < |OcrTable[j].1| ==> |OcrTable[j].1[k]| > 0
  {
    var t := OcrTable;
    if j == 0 { assert t[0].1 == ["headphone", "earphone", "earbud", "audio", "sound", "music"]; }
    else if j == 1 { assert t[1].1 == ["phone", "mobile", "smartphone", "android", "ios", "iphone"]; }
    else if j == 2 { assert t[2].1 == ["laptop", "notebook", "computer", "pc", "macbook"]; }
    else if j == 3 { assert t[3].1 == ["trimmer", "shaver", "grooming", "beard", "hair"]; }
    else if j == 4 { assert t[4].1 == ["mixer", "grinder", "blender", "kitchen", "juicer"]; }
    else if j == 5 { assert t[5].1 == ["charger", "adapter", "cable", "charging"]; }
    else if j == 6 { assert t[6].1 == ["shirt", "pant", "dress", "jacket", "wear", "cotton", "fabric"]; }
    else { assert t[7].1 == ["shoe", "sneaker", "boot", "sandal", "footwear"]; }
  }
}
