/**
 * The text side of the image processor: the OCR engine is outside the
 * model, and `ParseProductText` reads a product record from the text it
 * returned. Prices, specifications and ratings are searched for in the
 * lower-cased text; the name is taken from the text as it was.
 */
module ImageProcessor {
  import opened Base
  import opened Chars
  import opened Dicts
  import opened Numbers
  import opened Regex
  import opened Categories
  import opened SpecPatterns
  import Helpers

  // ---------------------------------------------------------------------
  // Price

  /** The price patterns, matched with case against the lower-cased text. */
  const OcrPricePatterns: seq<Pattern> := [
    Pattern([Lit([Rupee]), Star(Space)] + CommaDigits, false),
    Pattern([Lit("rs"), Opt('.'), Star(Space)] + CommaDigits, false),
    Pattern([Lit("inr"), Star(Space)] + CommaDigits, false),
    Pattern([Lit("price"), Star(Space), Opt(':'), Star(Space), Opt(Rupee), Star(Space)] + CommaDigits, false)
  ]

  /** The first pattern whose capture converts decides the price; without
      one it stays 0. */
  function OcrPrice(lower: string): (r: nat)
    ensures (forall j :: 0 <= j < |OcrPricePatterns| ==> !Helpers.Accepts(Search(OcrPricePatterns[j], lower), ParseCommaInt)) ==> r == 0
    ensures forall j :: (0 <= j < |OcrPricePatterns| && Helpers.Accepts(Search(OcrPricePatterns[j], lower), ParseCommaInt)
                         && forall m :: 0 <= m < j ==> !Helpers.Accepts(Search(OcrPricePatterns[m], lower), ParseCommaInt))
                        ==> Some(r) == ParseCommaInt(Search(OcrPricePatterns[j], lower).value)
  {
    match Helpers.FirstMatchValue(OcrPricePatterns, lower, ParseCommaInt)
    case None => 0
    case Some(v) => v
  }

  /** A text that mentions none of ₹, rs, inr and price, in any letter
      case, has price 0. */
  lemma OcrPriceNeedsMarker(text: string)
    requires !Contains(LowerStr(text), [Rupee]) && !Contains(LowerStr(text), "rs")
    requires !Contains(LowerStr(text), "inr") && !Contains(LowerStr(text), "price")
    ensures OcrPrice(LowerStr(text)) == 0
  {
    var ps, lower := OcrPricePatterns, LowerStr(text);
    LitNowhere([Rupee], lower);
    LeadingLitNone(ps[0], lower, [Rupee]);
    LitNowhere("rs", lower);
    LeadingLitNone(ps[1], lower, "rs");
    LitNowhere("inr", lower);
    LeadingLitNone(ps[2], lower, "inr");
    LitNowhere("price", lower);
    LeadingLitNone(ps[3], lower, "price");
    assert forall j :: 0 <= j < |ps| ==> Search(ps[j], lower).None?;
  }

  // ---------------------------------------------------------------------
  // Specifications

  /** The specification names, each with the keyword its pattern starts with. */
  const OcrSpecKeys: seq<(string, string)> := [
    ("battery", "battery"),
    ("battery_life", "battery life"),
    ("runtime", "runtime"),
    ("power", "power"),
    ("ram", "ram"),
    ("storage", "storage"),
    ("camera", "camera"),
    ("display", "display"),
    ("processor", "processor")
  ]

  /** One pattern `keyword[\s]*:?[\s]*([k]+)` per specification, matched
      with case against the lower-cased text. */
  function OcrSpecTable(k: Class): (t: SpecTable)
    ensures |t| == |OcrSpecKeys|
    ensures forall j :: 0 <= j < |t| ==> t[j] == (OcrSpecKeys[j].0, KeyValuePattern(OcrSpecKeys[j].1, Opt(':'), k, false))
  {
    seq(|OcrSpecKeys|, j requires 0 <= j < |OcrSpecKeys| => (OcrSpecKeys[j].0, KeyValuePattern(OcrSpecKeys[j].1, Opt(':'), k, false)))
  }

  lemma OcrSpecNamesDistinct(k: Class)
    ensures Distinct(Names(OcrSpecTable(k)))
  {
    var ns := Names(OcrSpecTable(k));
    assert ns == ["battery", "battery_life", "runtime", "power", "ram", "storage", "camera", "display", "processor"];
    forall i, j | 0 <= i < j < |ns| ensures ns[i] != ns[j] {
      assert |ns[i]| != |ns[j]| || ns[i][0] != ns[j][0];
    }
  }

  /** The specification loop as written: the raw-string class `[^\\n]`
      ends a value at the first backslash or letter n rather than at the
      end of the line. */
  function OcrSpecsAsWritten(lower: string): (r: Dict<string, string>)
    ensures UniqueKeys(r)
    ensures forall j :: 0 <= j < |OcrSpecKeys| ==> Get(r, OcrSpecKeys[j].0) == Found(OcrSpecTable(NotBackslashOrN)[j].1, lower)
  {
    OcrSpecNamesDistinct(NotBackslashOrN);
    SpecsFrom(OcrSpecTable(NotBackslashOrN), lower)
  }

  /** The specification loop with each value running to the end of its
      line: a name is present exactly when its pattern matches, with the
      stripped capture as its value, and no other name is. */
  function OcrSpecs(lower: string): (r: Dict<string, string>)
    ensures UniqueKeys(r)
    ensures forall key :: HasKey(r, key) ==> key in Names(OcrSpecTable(NotNewline))
    ensures forall j :: 0 <= j < |OcrSpecKeys| ==> Get(r, OcrSpecKeys[j].0) == Found(OcrSpecTable(NotNewline)[j].1, lower)
  {
    OcrSpecNamesDistinct(NotNewline);
    SpecsFrom(OcrSpecTable(NotNewline), lower)
  }

  /** As written, a value is cut at its first n: `display: 6.1 inch`
      gives "6.1 i". */
  lemma OcrSpecsAsWrittenCut(j: nat, v: string, rest: string)
    requires j < |OcrSpecKeys| && |v| > 0 && !IsSpace(v[0])
    requires forall m :: 0 <= m < |v| ==> InClass(NotBackslashOrN, v[m])
    ensures Get(OcrSpecsAsWritten(OcrSpecKeys[j].1 + ": " + v + "n" + rest), OcrSpecKeys[j].0) == Some(Strip(v))
  {
    var kw := OcrSpecKeys[j].1;
    KeyValueFound(kw, Opt(':'), NotBackslashOrN, false, v, "n" + rest);
    assert kw + ": " + v + "n" + rest == kw + ": " + v + ("n" + rest);
  }

  /** With the end of the line as the end of the value, `keyword: v` gives
      the whole line `v`, stripped. */
  lemma OcrSpecReadsLine(j: nat, v: string, rest: string)
    requires j < |OcrSpecKeys| && |v| > 0 && !IsSpace(v[0]) && '\n' !in v
    ensures Get(OcrSpecs(OcrSpecKeys[j].1 + ": " + v + "\n" + rest), OcrSpecKeys[j].0) == Some(Strip(v))
  {
    var kw := OcrSpecKeys[j].1;
    assert forall m :: 0 <= m < |v| ==> InClass(NotNewline, v[m]);
    KeyValueFound(kw, Opt(':'), NotNewline, false, v, "\n" + rest);
    assert kw + ": " + v + "\n" + rest == kw + ": " + v + ("\n" + rest);
  }

  const OcrSpecExample: string := "display: 6.1 inch\nram: 8 gb"

  /** "display: 6.1 inch\nram: 8 gb" gives the display "6.1 i" as written. */
  lemma OcrSpecsCutExample()
    ensures Get(OcrSpecsAsWritten(OcrSpecExample), "display") == Some("6.1 i")
  {
    assert OcrSpecKeys[7] == ("display", "display");
    assert OcrSpecExample == "display" + ": " + "6.1 i" + "n" + "ch\nram: 8 gb";
    OcrSpecsAsWrittenCut(7, "6.1 i", "ch\nram: 8 gb");
    StripUnchanged("6.1 i");
  }

  /** The same text gives "6.1 inch" with the value running to the end of
      the line. */
  lemma OcrSpecsLineExample()
    ensures Get(OcrSpecs(OcrSpecExample), "display") == Some("6.1 inch")
  {
    assert OcrSpecKeys[7] == ("display", "display");
    assert OcrSpecExample == "display" + ": " + "6.1 inch" + "\n" + "ram: 8 gb";
    OcrSpecReadsLine(7, "6.1 inch", "ram: 8 gb");
    StripUnchanged("6.1 inch");
  }

  // ---------------------------------------------------------------------
  // Rating

  /** The rating patterns, matched with case against the lower-cased text. */
  const OcrRatingPatterns: seq<Pattern> := [
    Pattern(Decimal + [Star(Space), Lit("/"), Star(Space), Lit("5")], false),
    Pattern([Lit("rating"), Star(Space), Opt(':'), Star(Space)] + Decimal, false),
    Pattern(Decimal + [Star(Space), Lit("star"), Opt('s')], false)
  ]

  /** The first pattern whose capture converts decides the rating, with no
      range check; without one it stays 4.0. */
  function OcrRating(lower: string): (r: real)
    ensures r >= 0.0
    ensures (forall j :: 0 <= j < |OcrRatingPatterns| ==> !Helpers.Accepts(Search(OcrRatingPatterns[j], lower), ParseFloat)) ==> r == 4.0
    ensures forall j :: (0 <= j < |OcrRatingPatterns| && Helpers.Accepts(Search(OcrRatingPatterns[j], lower), ParseFloat)
                         && forall m :: 0 <= m < j ==> !Helpers.Accepts(Search(OcrRatingPatterns[m], lower), ParseFloat))
                        ==> Some(r) == ParseFloat(Search(OcrRatingPatterns[j], lower).value)
  {
    match Helpers.FirstMatchValue(OcrRatingPatterns, lower, ParseFloat)
    case None => 4.0
    case Some(v) => v
  }

  /** A text without digits keeps the default rating. */
  lemma OcrRatingNeedsDigits(lower: string)
    requires AllChars(lower, NotDigit)
    ensures OcrRating(lower) == 4.0
  {
    var ps := OcrRatingPatterns;
    assert Search(ps[0], lower).None? by {
      LeadingDigitsNone(ps[0], lower);
    }
    assert Search(ps[1], lower).None? by {
      OcrRatingLabelNeedsDigits(lower);
    }
    assert Search(ps[2], lower).None? by {
      LeadingDigitsNone(ps[2], lower);
    }
    Helpers.NoSearchNoValue(ps, lower, ParseFloat);
  }

  /** `rating:? <number>` needs a digit. */
  lemma OcrRatingLabelNeedsDigits(lower: string)
    requires AllChars(lower, NotDigit)
    ensures Search(OcrRatingPatterns[1], lower).None?
  {
    var p := OcrRatingPatterns[1];
    var es := p.elems;
    assert es[0] == Lit("rating") && es[1..][0] == Star(Space) && es[1..][1..] == [Opt(':')] + ([Star(Space)] + Decimal);
    forall j | 0 <= j <= |lower| ensures MatchAt(p, lower, j).None? {
      if LitAt("rating", lower, j, false) {
        var a := j + 6;
        var b := Span(Space, lower, a);
        forall g | a <= g <= b ensures Match(es[2..], false, lower, g, j, j).None? {
          ColonSpacesDecimalFails(lower, g, j);
          assert es[2..] == [Opt(':')] + ([Star(Space)] + Decimal);
        }
        BackAllFail(es[2..], false, lower, a, b, j, j);
        assert Match(es[1..], false, lower, a, j, j) == Back(es[2..], false, lower, a, b, j, j);
        assert MatchAt(p, lower, j) == Match(es[1..], false, lower, a, j, j);
      }
    }
  }

  /** `:?[\s]*(\d+\.?\d*)` fails everywhere in a text without digits. */
  lemma ColonSpacesDecimalFails(s: string, g: nat, cs: nat)
    requires cs <= g <= |s| && AllChars(s, NotDigit)
    ensures Match([Opt(':')] + ([Star(Space)] + Decimal), false, s, g, cs, cs).None?
  {
    var es := [Opt(':')] + ([Star(Space)] + Decimal);
    assert es[0] == Opt(':') && es[1..] == [Star(Space)] + Decimal;
    SpacesDecimalFails(s, g, cs);
    if g < |s| {
      SpacesDecimalFails(s, g + 1, cs);
    }
  }

  // ---------------------------------------------------------------------
  // Name

  /** A line that can be the name: longer than 5 characters, and without
      ₹, Rs, Price or ':' (compared with case). */
  predicate NameLine(line: string) {
    |line| > 5 && !Contains(line, [Rupee]) && !Contains(line, "Rs") && !Contains(line, "Price") && !Contains(line, ":")
  }

  /** The first line that, stripped, can be the name; "" when none can. */
  function FirstNameLine(lines: seq<string>): (r: string)
    ensures r == "" || NameLine(r)
    ensures r == "" || exists i :: 0 <= i < |lines| && r == Strip(lines[i])
    ensures (forall i :: 0 <= i < |lines| ==> !NameLine(Strip(lines[i]))) ==> r == ""
    ensures forall i :: 0 <= i < |lines| && NameLine(Strip(lines[i])) && NoNameBefore(lines, i) ==> r == Strip(lines[i])
  {
    if |lines| == 0 then ""
    else if NameLine(Strip(lines[0])) then Strip(lines[0])
    else
      var tail := lines[1..];
      assert forall i :: 1 <= i < |lines| ==> tail[i - 1] == lines[i];
      assert forall i :: 1 <= i < |lines| && NoNameBefore(lines, i) ==> NoNameBefore(tail, i - 1) by {
        forall i | 1 <= i < |lines| && NoNameBefore(lines, i) ensures NoNameBefore(tail, i - 1) {
          forall m | 0 <= m < i - 1 ensures !NameLine(Strip(tail[m])) {
            assert tail[m] == lines[m + 1];
          }
        }
      }
      FirstNameLine(tail)
  }

  /** No line before line `i` can be the name. */
  predicate NoNameBefore(lines: seq<string>, i: nat) {
    forall m :: 0 <= m < i && m < |lines| ==> !NameLine(Strip(lines[m]))
  }

  /** The name as written: `text.split('\\n')` splits on a backslash
      followed by n, which OCR output does not contain, so the whole text
      is one line. */
  function OcrNameAsWritten(text: string): (r: string)
    ensures r == "" || NameLine(r)
  {
    FirstNameLine(SplitOn(text, "\\n"))
  }

  /** The name taken from the lines of the text: it lies within one line. */
  function OcrName(text: string): (r: string)
    ensures r == "" || NameLine(r)
    ensures '\n' !in r
  {
    var lines := SplitOn(text, "\n");
    var r := FirstNameLine(lines);
    assert '\n' !in r by {
      if r != "" {
        var i :| 0 <= i < |lines| && r == Strip(lines[i]);
        SplitOnCharFree(text, '\n');
        assert "\n" == ['\n'];
        assert AllChars(lines[i], NotLineFeed);
        StripKeeps(lines[i], NotLineFeed);
      }
    }
    r
  }

  predicate NotLineFeed(c: char) {
    c != '\n'
  }

  /** As written, a text without a backslash is judged as a whole. */
  lemma OcrNameAsWrittenWhole(text: string)
    requires '\\' !in text
    ensures OcrNameAsWritten(text) == if NameLine(Strip(text)) then Strip(text) else ""
  {
    NotContainsFirst(text, "\\n");
    SplitOnAbsent(text, "\\n");
  }

  /** A first line that can be the name is the name. */
  lemma OcrNameFirstLine(first: string, rest: string)
    requires '\n' !in first && NameLine(Strip(first))
    ensures OcrName(first + "\n" + rest) == Strip(first)
  {
    SplitOnFirstChar(first, '\n', rest);
    assert first + "\n" + rest == first + ['\n'] + rest;
  }

  const NameLineText: string := "Wireless Headphones"
  const PriceLineText: string := [Rupee] + "1,999"

  /** A name line followed by a price line. */
  const OcrNameText: string := NameLineText + "\n" + PriceLineText

  lemma NameLineTextIsName()
    ensures Strip(NameLineText) == NameLineText && NameLine(NameLineText)
    ensures '\\' !in NameLineText && '\n' !in NameLineText
  {
    NameLineTextStripped();
    NameLineTextChars();
    NameLineTextNoMarker();
  }

  lemma NameLineTextStripped()
    ensures Strip(NameLineText) == NameLineText
  {
    var t := NameLineText;
    assert t[0] == 'W' && t[|t| - 1] == 's';
    StripUnchanged(t);
  }

  lemma NameLineTextNoMarker()
    ensures NameLine(NameLineText)
  {
    var t := NameLineText;
    NameLineTextChars();
    NotContainsFirst(t, [Rupee]);
    NotContainsFirst(t, "Rs");
    NotContainsFirst(t, "Price");
    NotContainsFirst(t, ":");
  }

  lemma NameLineTextChars()
    ensures Rupee !in NameLineText && 'R' !in NameLineText && 'P' !in NameLineText && ':' !in NameLineText
    ensures '\\' !in NameLineText && '\n' !in NameLineText
  {
    var t := NameLineText;
    assert forall i :: 0 <= i < |t| ==> 'a' <= t[i] <= 'z' || t[i] == ' ' || t[i] == 'W' || t[i] == 'H';
  }

  lemma OcrNameTextShape()
    ensures '\\' !in OcrNameText
    ensures Strip(OcrNameText) == OcrNameText
    ensures Contains(OcrNameText, [Rupee])
  {
    var t := OcrNameText;
    NameLineTextIsName();
    assert '\\' !in PriceLineText;
    assert t[0] == 'W' && t[|t| - 1] == '9';
    StripUnchanged(t);
    var n := |NameLineText| + 1;
    assert t[n..n + 1] == [Rupee];
    assert OccursAt(t, [Rupee], n);
  }

  /** As written no name is found: the one "line" holds the ₹ of the price. */
  lemma OcrNameAsWrittenExample()
    ensures OcrNameAsWritten(OcrNameText) == ""
  {
    OcrNameTextShape();
    OcrNameAsWrittenWhole(OcrNameText);
  }

  /** Splitting at line feeds finds the name on the first line. */
  lemma OcrNameExample()
    ensures OcrName(OcrNameText) == "Wireless Headphones"
  {
    NameLineTextIsName();
    OcrNameFirstLine(NameLineText, PriceLineText);
  }

  // ---------------------------------------------------------------------
  // _parse_product_text

  datatype OcrProduct = OcrProduct(name: string, price: nat, specs: Dict<string, string>, category: string, rating: real)

  /** The record the parser starts from. */
  const Defaults: OcrProduct := OcrProduct("", 0, [], General, 4.0)

  /** `_parse_product_text` as written. Nothing in it can raise, so the
      empty record of its exception handler is never returned. */
  function ParseProductText(text: string): (r: OcrProduct)
    ensures r.name == "" || NameLine(r.name)
    ensures r.rating >= 0.0
    ensures UniqueKeys(r.specs) && forall key :: HasKey(r.specs, key) ==> key in Names(OcrSpecTable(NotBackslashOrN))
    ensures forall j :: 0 <= j < |OcrSpecKeys| ==>
              Get(r.specs, OcrSpecKeys[j].0) == Found(OcrSpecTable(NotBackslashOrN)[j].1, LowerStr(text))
    ensures r.category == General || exists j :: 0 <= j < |OcrTable| && r.category == OcrTable[j].0
  {
    var lower := LowerStr(text);
    OcrProduct(OcrNameAsWritten(text), OcrPrice(lower), OcrSpecsAsWritten(lower), Categorize(OcrTable, lower), OcrRating(lower))
  }

  /** `_parse_product_text` with the corrected line split and value
      patterns: the same price, rating and category, a name that lies within
      one line, and values that run to the end of their line. */
  function ParseProductTextFixed(text: string): (r: OcrProduct)
    ensures var w := ParseProductText(text);
            r.price == w.price && r.rating == w.rating && r.category == w.category
    ensures r.name == "" || NameLine(r.name)
    ensures '\n' !in r.name
    ensures UniqueKeys(r.specs) && forall key :: HasKey(r.specs, key) ==> key in Names(OcrSpecTable(NotNewline))
    ensures forall j :: 0 <= j < |OcrSpecKeys| ==>
              Get(r.specs, OcrSpecKeys[j].0) == Found(OcrSpecTable(NotNewline)[j].1, LowerStr(text))
  {
    var w := ParseProductText(text);
    w.(name := OcrName(text), specs := OcrSpecs(LowerStr(text)))
  }

  /** On a single line without a backslash both read the same name. */
  lemma ParseFixedSameName(text: string)
    requires '\n' !in text && '\\' !in text
    ensures ParseProductTextFixed(text).name == ParseProductText(text).name
  {
    OcrNameAsWrittenWhole(text);
    OcrNameOneLine(text);
  }

  /** Text without a line feed is one line. */
  lemma OcrNameOneLine(text: string)
    requires '\n' !in text
    ensures OcrName(text) == if NameLine(Strip(text)) then Strip(text) else ""
  {
    NotContainsFirst(text, "\n");
    SplitOnAbsent(text, "\n");
  }

  /** Everything but the name ignores letter case. */
  lemma ParseIgnoresCase(text: string)
    ensures ParseProductText(LowerStr(text)).price == ParseProductText(text).price
    ensures ParseProductText(LowerStr(text)).specs == ParseProductText(text).specs
    ensures ParseProductText(LowerStr(text)).rating == ParseProductText(text).rating
    ensures ParseProductText(LowerStr(text)).category == ParseProductText(text).category
  {
    LowerStrTwice(text);
  }

  /** The image parser names a category wherever the scraper's table would. */
  lemma ParseCategoryCoversScraper(text: string)
    requires Categorize(ScraperTable, LowerStr(text)) != General
    ensures ParseProductText(text).category != General
  {
    OcrNotGeneral(LowerStr(text));
  }

  /** An empty text gives the defaults. */
  lemma ParseEmptyText()
    ensures ParseProductText("") == Defaults
  {
    assert LowerStr("") == "";
    EmptyPrice();
    EmptyRating();
    EmptySpecs();
    EmptyCategory();
    EmptyName();
  }

  lemma EmptyRating()
    ensures OcrRating("") == 4.0
  {
    OcrRatingNeedsDigits("");
  }

  lemma EmptyCategory()
    ensures Categorize(OcrTable, "") == General
  {
    OcrKeywordsNonEmpty();
    EmptyTextGeneral(OcrTable);
  }

  lemma EmptyPrice()
    ensures OcrPrice("") == 0
  {
    assert LowerStr("") == "";
    NotContainsFirst("", [Rupee]);
    NotContainsFirst("", "rs");
    NotContainsFirst("", "inr");
    NotContainsFirst("", "price");
    OcrPriceNeedsMarker("");
  }

  lemma EmptySpecs()
    ensures OcrSpecsAsWritten("") == []
  {
    EmptySpecsFrom(NotBackslashOrN);
  }

  lemma EmptySpecsFrom(value: Class)
    ensures SpecsFrom(OcrSpecTable(value), "") == []
  {
    var r := SpecsFrom(OcrSpecTable(value), "");
    var t := OcrSpecTable(value);
    forall j | 0 <= j < |t| ensures Found(t[j].1, "").None? {
      SpecKeywordNonEmpty(j);
      assert t[j].1.elems[0] == Lit(OcrSpecKeys[j].1);
      assert MatchAt(t[j].1, "", 0).None?;
    }
    if r != [] {
      assert HasKey(r, r[0].0);
    }
  }

  lemma SpecKeywordNonEmpty(j: nat)
    requires j < |OcrSpecKeys|
    ensures |OcrSpecKeys[j].1| > 0
  {
    assert forall i :: 0 <= i < |OcrSpecKeys| ==> OcrSpecKeys[i].1[0] == "bbrprscdp"[i];
  }

  lemma EmptyName()
    ensures OcrNameAsWritten("") == ""
  {
    assert SplitOn("", "\\n") == [""];
    assert Strip("") == "";
  }
}
