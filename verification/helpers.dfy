/**
 * The text and validation helpers: price and rating extraction by regular
 * expressions, platform detection from a URL's host, the validation of a
 * product record, the pagination envelope, the savings percentage and the
 * normalisation of product names.
 */
module Helpers {
  import opened Base
  import opened Chars
  import opened Dicts
  import opened Numbers
  import opened Regex

  // ---------------------------------------------------------------------
  // Trying patterns in order

  /** A search that found a capture that converts to a value. */
  predicate Accepts<T>(found: Option<string>, conv: string -> Option<T>) {
    found.Some? && conv(found.value).Some?
  }

  /** The value of the first search, from index `i` on, that found a
      capture which converts; captures that fail to convert are passed
      over. */
  function FirstAccepted<T>(found: seq<Option<string>>, conv: string -> Option<T>, i: nat := 0): (r: Option<T>)
    requires i <= |found|
    ensures r.None? <==> forall j :: i <= j < |found| ==> !Accepts(found[j], conv)
    ensures r.Some? ==> exists j :: i <= j < |found| && Accepts(found[j], conv)
                                     && r == conv(found[j].value)
                                     && forall m :: i <= m < j ==> !Accepts(found[m], conv)
    decreases |found| - i
  {
    if i == |found| then None
    else if Accepts(found[i], conv) then conv(found[i].value)
    else FirstAccepted(found, conv, i + 1)
  }

  /** `re.search(p, text)` for each pattern, in order. */
  function SearchAll(ps: seq<Pattern>, text: string): (r: seq<Option<string>>)
    ensures |r| == |ps|
    ensures forall i :: 0 <= i < |ps| ==> r[i] == Search(ps[i], text)
  {
    seq(|ps|, i requires 0 <= i < |ps| => Search(ps[i], text))
  }

  /** The loop of the extractors: the converted capture of the first
      pattern, in order, that matches and whose capture converts. */
  function FirstMatchValue<T>(ps: seq<Pattern>, text: string, conv: string -> Option<T>): (r: Option<T>)
    ensures r.Some? <==> exists j :: 0 <= j < |ps| && Accepts(Search(ps[j], text), conv)
    ensures r.Some? ==> exists j :: 0 <= j < |ps| && Accepts(Search(ps[j], text), conv)
                                     && r == conv(Search(ps[j], text).value)
                                     && forall m :: 0 <= m < j ==> !Accepts(Search(ps[m], text), conv)
    ensures forall j :: (0 <= j < |ps| && Accepts(Search(ps[j], text), conv)
                         && forall m :: 0 <= m < j ==> !Accepts(Search(ps[m], text), conv))
                        ==> r == conv(Search(ps[j], text).value)
  {
    FirstAccepted(SearchAll(ps, text), conv)
  }

  /** When no pattern finds anything, there is no value. */
  lemma NoSearchNoValue<T>(ps: seq<Pattern>, text: string, conv: string -> Option<T>)
    requires forall j :: 0 <= j < |ps| ==> Search(ps[j], text).None?
    ensures FirstMatchValue(ps, text, conv).None?
  {
  }

  // ---------------------------------------------------------------------
  // extract_price

  /** `[0-9,]+\.?\d*`, the number captured by every price pattern. */
  const Amount: seq<Elem> := [Open, Plus(DigitOrComma), Opt('.'), Star(Digit), Close]

  /** The four price patterns, tried in this order, all ignoring case. */
  const PricePatterns: seq<Pattern> := [
    Pattern([Lit([Rupee]), Star(Space)] + Amount, true),
    Pattern([Lit("Rs"), Opt('.'), Star(Space)] + Amount, true),
    Pattern([Lit("INR"), Star(Space)] + Amount, true),
    Pattern([Lit("Price"), Star(Space), Lit(":"), Star(Space), Opt(Rupee), Star(Space)] + Amount, true)
  ]

  /** `float(capture.replace(',', ''))`. */
  function PriceValue(capture: string): (r: Option<real>)
    ensures r.Some? ==> r.value >= 0.0
  {
    ParseFloat(RemoveAll(capture, ","))
  }

  /** `extract_price`: the first price pattern whose capture parses. */
  function ExtractPrice(text: string): (r: Option<real>)
    ensures text == "" ==> r.None?
    ensures r.Some? ==> r.value >= 0.0
    ensures r.Some? <==> text != "" && exists j :: 0 <= j < |PricePatterns| && Accepts(Search(PricePatterns[j], text), PriceValue)
    ensures forall j :: (text != "" && 0 <= j < |PricePatterns| && Accepts(Search(PricePatterns[j], text), PriceValue)
                         && forall m :: 0 <= m < j ==> !Accepts(Search(PricePatterns[m], text), PriceValue))
                        ==> r == PriceValue(Search(PricePatterns[j], text).value)
  {
    if text == "" then None
    else
      var r := FirstMatchValue(PricePatterns, text, PriceValue);
      assert r.Some? ==> r.value >= 0.0 by {
        if r.Some? {
          var j :| 0 <= j < |PricePatterns| && Accepts(Search(PricePatterns[j], text), PriceValue)
                   && r == PriceValue(Search(PricePatterns[j], text).value);
        }
      }
      r
  }

  /** No price is found in a text that contains none of the markers ₹, Rs,
      INR and Price, in any letter case. */
  lemma PriceNeedsMarker(text: string)
    requires !Contains(LowerStr(text), [Rupee])
    requires !Contains(LowerStr(text), "rs")
    requires !Contains(LowerStr(text), "inr")
    requires !Contains(LowerStr(text), "price")
    ensures ExtractPrice(text).None?
  {
    var markers := [[Rupee], "Rs", "INR", "Price"];
    assert LowerStr([Rupee]) == [Rupee];
    assert LowerStr("Rs") == "rs";
    assert LowerStr("INR") == "inr";
    assert LowerStr("Price") == "price";
    forall i | 0 <= i < 4 ensures Search(PricePatterns[i], text).None? {
      var t := markers[i];
      assert PricePatterns[i].elems[0] == Lit(t);
      forall j: nat | j <= |text| ensures !LitAt(t, text, j, true) {
        if LitAt(t, text, j, true) {
          LitAtLower(t, text, j);
        }
      }
      LeadingLitNone(PricePatterns[i], text, t);
    }
  }

  lemma PriceMatchExample()
    ensures Search(PricePatterns[0], [Rupee] + "2,499") == Some("2,499")
  {
    var s := [Rupee] + "2,499";
    var p := PricePatterns[0];
    var es := p.elems;
    assert Span(Space, s, 1) == 1;
    assert Span(DigitOrComma, s, 1) == 6;
    assert Span(Digit, s, 6) == 6;
    assert Match(es[6..], true, s, 6, 1, 1) == Some(s[1..6]);
    assert Match(es[5..], true, s, 6, 1, 1) == Some(s[1..6]);
    assert Match(es[4..], true, s, 6, 1, 1) == Some(s[1..6]);
    assert Back(es[4..], true, s, 2, 6, 1, 1) == Some(s[1..6]);
    assert Match(es[3..], true, s, 1, 1, 1) == Some(s[1..6]);
    assert Match(es[2..], true, s, 1, 1, 1) == Some(s[1..6]);
    assert Back(es[2..], true, s, 1, 1, 0, 0) == Some(s[1..6]);
    assert Match(es[1..], true, s, 1, 0, 0) == Some(s[1..6]);
    assert MatchAt(p, s, 0) == Some(s[1..6]);
    assert SearchFrom(p, s, 0) == Some(s[1..6]);
    assert s[1..6] == "2,499";
  }

  lemma PriceValueExample()
    ensures PriceValue("2,499") == Some(2499.0)
  {
    RemoveCommaExample();
    DigitsExample();
    assert AllDigits("2499");
  }

  lemma RemoveCommaExample()
    ensures RemoveAll("2,499", ",") == "2499"
  {
    var c := "2,499";
    assert c[2..] == "499";
    RemoveAllAbsent(c[2..], ",");
    assert IsPrefix(",", c[1..]);
    assert RemoveAll(c[1..], ",") == "499";
    assert !IsPrefix(",", c);
  }

  lemma DigitsExample()
    ensures AllDigits("2499") && DigitsValue("2499") == 2499
  {
    var d := "2499";
    assert d[..1] == "2" && d[..2][..1] == "2" && d[..3][..2] == d[..2];
    assert DigitsValue(d[..1]) == 2;
    assert DigitsValue(d[..2]) == 24;
    assert DigitsValue(d[..3]) == 249;
  }

  /** The first pattern that matches with a capture that converts decides. */
  lemma FirstMatchDecides<T>(ps: seq<Pattern>, text: string, conv: string -> Option<T>)
    requires |ps| > 0 && Accepts(Search(ps[0], text), conv)
    ensures FirstMatchValue(ps, text, conv) == conv(Search(ps[0], text).value)
  {
    assert SearchAll(ps, text)[0] == Search(ps[0], text);
  }

  /** "₹2,499" gives 2499. */
  lemma PriceExample()
    ensures ExtractPrice([Rupee] + "2,499") == Some(2499.0)
  {
    PriceMatchExample();
    PriceValueExample();
    FirstMatchDecides(PricePatterns, [Rupee] + "2,499", PriceValue);
  }

  // ---------------------------------------------------------------------
  // extract_rating

  /** The four rating patterns, tried in this order, all ignoring case. */
  const RatingPatterns: seq<Pattern> := [
    Pattern(Decimal + [Star(Space), Lit("/"), Star(Space), Lit("5")], true),
    Pattern(Decimal + [Star(Space), Lit("out"), Star(Space), Lit("of"), Star(Space), Lit("5")], true),
    Pattern([Lit("Rating"), Star(Space), Lit(":"), Star(Space)] + Decimal, true),
    Pattern(Decimal + [Star(Space), Lit("star"), Opt('s')], true)
  ]

  /** `float(capture)`, accepted only between 0 and 5. */
  function RatingValue(capture: string): (r: Option<real>)
    ensures r.Some? ==> 0.0 <= r.value <= 5.0
  {
    var v :- ParseFloat(capture);
    if 0.0 <= v <= 5.0 then Some(v) else None
  }

  /** `extract_rating`: the first rating pattern whose capture is a rating
      between 0 and 5; a match out of range moves on to the next pattern. */
  function ExtractRating(text: string): (r: Option<real>)
    ensures text == "" ==> r.None?
    ensures r.Some? ==> 0.0 <= r.value <= 5.0
    ensures r.Some? <==> text != "" && exists j :: 0 <= j < |RatingPatterns| && Accepts(Search(RatingPatterns[j], text), RatingValue)
    ensures forall j :: (text != "" && 0 <= j < |RatingPatterns| && Accepts(Search(RatingPatterns[j], text), RatingValue)
                         && forall m :: 0 <= m < j ==> !Accepts(Search(RatingPatterns[m], text), RatingValue))
                        ==> r == RatingValue(Search(RatingPatterns[j], text).value)
  {
    if text == "" then None
    else
      var r := FirstMatchValue(RatingPatterns, text, RatingValue);
      assert r.Some? ==> 0.0 <= r.value <= 5.0 by {
        if r.Some? {
          var j :| 0 <= j < |RatingPatterns| && Accepts(Search(RatingPatterns[j], text), RatingValue)
                   && r == RatingValue(Search(RatingPatterns[j], text).value);
        }
      }
      r
  }

  /** No rating is found in a text without digits that does not mention
      "rating". */
  lemma RatingNeedsDigits(text: string)
    requires forall j :: 0 <= j < |text| ==> !IsDigit(text[j])
    requires !Contains(LowerStr(text), "rating")
    ensures ExtractRating(text).None?
  {
    var ps := RatingPatterns;
    assert Search(ps[0], text).None? by {
      LeadingDigitsNone(ps[0], text);
    }
    assert Search(ps[1], text).None? by {
      LeadingDigitsNone(ps[1], text);
    }
    assert Search(ps[2], text).None? by {
      assert LowerStr("Rating") == "rating";
      LitNowhereLower("Rating", text);
      LeadingLitNone(ps[2], text, "Rating");
    }
    assert Search(ps[3], text).None? by {
      LeadingDigitsNone(ps[3], text);
    }
    NoSearchNoValue(ps, text, RatingValue);
  }

  lemma RatingMatchExample()
    ensures Search(RatingPatterns[0], "4.5/5") == Some("4.5")
  {
    var s := "4.5/5";
    var p := RatingPatterns[0];
    var es := p.elems;
    assert Span(Digit, s, 0) == 1;
    assert Span(Digit, s, 2) == 3;
    assert Span(Space, s, 3) == 3;
    assert Span(Space, s, 4) == 4;
    assert Match(es[9..], true, s, 5, 0, 3) == Some(s[0..3]);
    assert Match(es[8..], true, s, 4, 0, 3) == Some(s[0..3]);
    assert Back(es[8..], true, s, 4, 4, 0, 3) == Some(s[0..3]);
    assert Match(es[7..], true, s, 4, 0, 3) == Some(s[0..3]);
    assert Match(es[6..], true, s, 3, 0, 3) == Some(s[0..3]);
    assert Back(es[6..], true, s, 3, 3, 0, 3) == Some(s[0..3]);
    assert Match(es[5..], true, s, 3, 0, 3) == Some(s[0..3]);
    assert Match(es[4..], true, s, 3, 0, 0) == Some(s[0..3]);
    assert Back(es[4..], true, s, 2, 3, 0, 0) == Some(s[0..3]);
    assert Match(es[3..], true, s, 2, 0, 0) == Some(s[0..3]);
    assert Match(es[2..], true, s, 1, 0, 0) == Some(s[0..3]);
    assert Back(es[2..], true, s, 1, 1, 0, 0) == Some(s[0..3]);
    assert Match(es[1..], true, s, 0, 0, 0) == Some(s[0..3]);
    assert MatchAt(p, s, 0) == Some(s[0..3]);
    assert SearchFrom(p, s, 0) == Some(s[0..3]);
    assert s[0..3] == "4.5";
  }

  lemma RatingValueExample()
    ensures RatingValue("4.5") == Some(4.5)
  {
    var c := "4.5";
    assert DigitPrefix(c[1..]) == 0;
    assert DigitPrefix(c) == 1;
    assert c[..1] == "4" && c[2..] == "5";
    assert ParseFloat(c) == Some(4.5);
  }

  /** "4.5/5" gives 4.5. */
  lemma RatingExample()
    ensures ExtractRating("4.5/5") == Some(4.5)
  {
    RatingMatchExample();
    RatingValueExample();
    FirstMatchDecides(RatingPatterns, "4.5/5", RatingValue);
  }

  // ---------------------------------------------------------------------
  // Platforms

  /** The host as compared: lower-cased, with every "www." removed. */
  function Domain(host: string): string {
    RemoveAll(LowerStr(host), "www.")
  }

  /** Host keywords and the platform each one names, in the order they are
      tried. */
  const PlatformKeywords: seq<(string, string)> := [
    ("amazon", "amazon"), ("flipkart", "flipkart"), ("myntra", "myntra"), ("snapdeal", "snapdeal"),
    ("paytmmall", "paytm"), ("ajio", "ajio"), ("nykaa", "nykaa")
  ]

  const Unknown := "unknown"

  function FirstPlatform(d: string, i: nat): (r: string)
    requires i <= |PlatformKeywords|
    ensures r == Unknown <==> forall j :: i <= j < |PlatformKeywords| ==> !Contains(d, PlatformKeywords[j].0)
    ensures r != Unknown ==> exists j :: i <= j < |PlatformKeywords| && Contains(d, PlatformKeywords[j].0)
                                         && r == PlatformKeywords[j].1
                                         && forall m :: i <= m < j ==> !Contains(d, PlatformKeywords[m].0)
    decreases |PlatformKeywords| - i
  {
    if i == |PlatformKeywords| then Unknown
    else if Contains(d, PlatformKeywords[i].0) then PlatformKeywords[i].1
    else FirstPlatform(d, i + 1)
  }

  /** `get_platform_name` on the host of a URL: the platform of the first
      keyword found in the host, or "unknown". */
  function GetPlatformName(host: string): (r: string)
    ensures r == Unknown <==> forall j :: 0 <= j < |PlatformKeywords| ==> !Contains(Domain(host), PlatformKeywords[j].0)
    ensures r != Unknown ==> exists j :: 0 <= j < |PlatformKeywords| && Contains(Domain(host), PlatformKeywords[j].0)
                                         && r == PlatformKeywords[j].1
                                         && forall m :: 0 <= m < j ==> !Contains(Domain(host), PlatformKeywords[m].0)
  {
    FirstPlatform(Domain(host), 0)
  }

  /** The domains accepted as supported platforms. */
  const SupportedDomains: seq<string> := [
    "amazon.in", "amazon.com", "flipkart.com", "myntra.com", "snapdeal.com",
    "paytmmall.com", "ajio.com", "nykaa.com"
  ]

  /** `is_supported_platform` on the host of a URL. */
  function IsSupportedPlatform(host: string): (b: bool)
    ensures b <==> exists i :: 0 <= i < |SupportedDomains| && Contains(Domain(host), SupportedDomains[i])
  {
    ContainsAny(Domain(host), SupportedDomains)
  }

  /** Every supported host is named: a supported domain contains its
      platform's keyword. The converse does not hold ("amazon.de" is named
      but not supported). */
  lemma SupportedIsNamed(host: string)
    requires IsSupportedPlatform(host)
    ensures GetPlatformName(host) != Unknown
  {
    var d := Domain(host);
    var i :| 0 <= i < |SupportedDomains| && Contains(d, SupportedDomains[i]);
    var key := [0, 0, 1, 2, 3, 4, 5, 6][i];
    var k := PlatformKeywords[key].0;
    var tails := [".in", ".com", ".com", ".com", ".com", ".com", ".com", ".com"];
    assert SupportedDomains[i] == k + tails[i];
    ContainsPrefixOf(d, k, tails[i]);
  }

  /** The platform does not depend on the letter case of the host. */
  lemma PlatformIgnoresCase(host: string)
    ensures GetPlatformName(LowerStr(host)) == GetPlatformName(host)
    ensures IsSupportedPlatform(LowerStr(host)) == IsSupportedPlatform(host)
  {
    LowerStrTwice(host);
  }

  /** `is_valid_url`: the parsed URL has a scheme and a host. */
  predicate IsValidUrl(scheme: string, host: string) {
    scheme != "" && host != ""
  }

  // ---------------------------------------------------------------------
  // validate_product_data

  /** A field that should hold a number: missing, convertible by `float()`,
      or not convertible. */
  datatype NumInput = Absent | Number(value: real) | NotNumber

  /** The `specs` field: missing, a dict, or something else. */
  datatype SpecsInput = NoSpecs | SpecsDict(d: Dict<string, string>) | NotDict

  /** A field that should hold text: missing, a string, or a value with no
      `.strip()` (such as `None` or a number). */
  datatype TextInput = Missing | Text(s: string) | NotText

  /** The raw record. */
  datatype Raw = Raw(name: TextInput, price: NumInput, rating: NumInput, category: TextInput,
                     platform: TextInput, url: TextInput, specs: SpecsInput,
                     qualityScore: NumInput, finalScore: NumInput,
                     imageUrl: TextInput, description: TextInput)

  /** A text field as `dict.get` sees it: the string, or `None` when missing. */
  function TextOf(x: TextInput): Option<string> {
    if x.Text? then Some(x.s) else None
  }

  /** Every text field is missing or a string, so no `.strip()` or
      `.lower()` call raises. */
  predicate AllText(d: Raw) {
    && !d.name.NotText? && !d.category.NotText? && !d.platform.NotText?
    && !d.url.NotText? && !d.imageUrl.NotText? && !d.description.NotText?
  }

  datatype Clean = Clean(name: string, price: real, rating: real, category: string, platform: string,
                         url: string, specs: Dict<string, string>, qualityScore: real, finalScore: real,
                         imageUrl: string, description: string)

  const ValidCategories: seq<string> := [
    "headphones", "smartphone", "laptop", "trimmer", "mixer", "clothing", "shoes", "charger", "general"
  ]

  const UnknownProduct := "Unknown Product"

  /** `float(x)` of a field, or the fallback when it does not convert; a
      missing field takes the field's default. */
  function NumOr(x: NumInput, default: real, fallback: real): real {
    match x
    case Absent => default
    case Number(v) => v
    case NotNumber => fallback
  }

  function Clamp(lo: real, hi: real, x: real): real {
    Max(lo, Min(hi, x))
  }

  /** The name, stripped; an empty one becomes "Unknown Product". */
  function CleanName(n: Option<string>): (r: string)
    ensures r != ""
    ensures Strip(n.GetOr("")) != "" ==> r == Strip(n.GetOr(""))
    ensures Strip(n.GetOr("")) == "" ==> r == UnknownProduct
  {
    var name := Strip(n.GetOr(""));
    if name != "" then name else UnknownProduct
  }

  /** The price: `max(0, float(price))`, 0 when it does not convert. */
  function CleanPrice(x: NumInput): (r: real)
    ensures r >= 0.0
    ensures x.Number? ==> r == Max(0.0, x.value)
    ensures !x.Number? ==> r == 0.0
  {
    Max(0.0, NumOr(x, 0.0, 0.0))
  }

  /** The rating clamped to [0, 5], 4.0 when missing or not a number. */
  function CleanRating(x: NumInput): (r: real)
    ensures 0.0 <= r <= 5.0
    ensures x.Number? && 0.0 <= x.value <= 5.0 ==> r == x.value
    ensures x.Number? && x.value > 5.0 ==> r == 5.0
    ensures x.Number? && x.value < 0.0 ==> r == 0.0
    ensures !x.Number? ==> r == 4.0
  {
    Clamp(0.0, 5.0, NumOr(x, 4.0, 4.0))
  }

  /** The category lower-cased and stripped; anything but the nine known
      names becomes "general". */
  function CleanCategory(x: Option<string>): (r: string)
    ensures r in ValidCategories
    ensures Strip(LowerStr(x.GetOr("general"))) in ValidCategories ==> r == Strip(LowerStr(x.GetOr("general")))
    ensures Strip(LowerStr(x.GetOr("general"))) !in ValidCategories ==> r == "general"
  {
    var category := Strip(LowerStr(x.GetOr("general")));
    if category in ValidCategories then category else "general"
  }

  /** The platform lower-cased and stripped; empty becomes "unknown". */
  function CleanPlatform(x: Option<string>): (r: string)
    ensures r != ""
    ensures Strip(LowerStr(x.GetOr(""))) != "" ==> r == Strip(LowerStr(x.GetOr("")))
    ensures Strip(LowerStr(x.GetOr(""))) == "" ==> r == Unknown
  {
    var platform := Strip(LowerStr(x.GetOr("")));
    if platform != "" then platform else Unknown
  }

  /** The quality score clamped to [0, 100], 0 when missing or not a number. */
  function CleanQuality(x: NumInput): (r: real)
    ensures 0.0 <= r <= 100.0
    ensures x.Number? && 0.0 <= x.value <= 100.0 ==> r == x.value
    ensures x.Number? && x.value > 100.0 ==> r == 100.0
    ensures x.Number? && x.value < 0.0 ==> r == 0.0
    ensures !x.Number? ==> r == 0.0
  {
    Clamp(0.0, 100.0, NumOr(x, 0.0, 0.0))
  }

  /** The URL stripped, or "" when it has no scheme or no host. */
  function CleanUrl(x: Option<string>, urlParts: string -> (string, string)): (r: string)
    ensures r == "" || (r == Strip(x.GetOr("")) && IsValidUrl(urlParts(r).0, urlParts(r).1))
    ensures IsValidUrl(urlParts(Strip(x.GetOr(""))).0, urlParts(Strip(x.GetOr(""))).1) ==> r == Strip(x.GetOr(""))
  {
    var url := Strip(x.GetOr(""));
    if IsValidUrl(urlParts(url).0, urlParts(url).1) then url else ""
  }

  /** The record `validate_product_data` builds when every text field is
      missing or a string; `urlParts` is the URL parser (it gives the scheme
      and the host). */
  function CleanRecord(d: Raw, urlParts: string -> (string, string)): (c: Clean)
    ensures c.name != "" && c.platform != "" && c.category in ValidCategories
    ensures c.price >= 0.0 && c.finalScore >= 0.0
    ensures 0.0 <= c.rating <= 5.0 && 0.0 <= c.qualityScore <= 100.0
    ensures c.url == "" || IsValidUrl(urlParts(c.url).0, urlParts(c.url).1)
  {
    Clean(
      CleanName(TextOf(d.name)),
      CleanPrice(d.price),
      CleanRating(d.rating),
      CleanCategory(TextOf(d.category)),
      CleanPlatform(TextOf(d.platform)),
      CleanUrl(TextOf(d.url), urlParts),
      match d.specs case SpecsDict(m) => m case _ => [],
      CleanQuality(d.qualityScore),
      CleanPrice(d.finalScore),
      Strip(TextOf(d.imageUrl).GetOr("")),
      Strip(TextOf(d.description).GetOr("")))
  }

  /** `validate_product_data`. A text field holding something other than a
      string makes its `.strip()` raise, and nothing catches it: `None`. */
  function Validate(d: Raw, urlParts: string -> (string, string)): (r: Option<Clean>)
    ensures r.None? <==> !AllText(d)
    ensures r.Some? ==> r.value == CleanRecord(d, urlParts)
  {
    if !AllText(d) then None else Some(CleanRecord(d, urlParts))
  }

  /** A clean record fed back in as raw input. */
  function AsRaw(c: Clean): Raw {
    Raw(Text(c.name), Number(c.price), Number(c.rating), Text(c.category), Text(c.platform), Text(c.url),
        SpecsDict(c.specs), Number(c.qualityScore), Number(c.finalScore), Text(c.imageUrl), Text(c.description))
  }

  predicate IsLowered(c: char) {
    Lower(c) == c
  }

  /** Lower-cased and stripped text is left alone by lower-casing and stripping. */
  lemma CleanedTextStable(s: string)
    ensures Strip(LowerStr(Strip(LowerStr(s)))) == Strip(LowerStr(s))
  {
    var t := Strip(LowerStr(s));
    LowerStrLowered(s);
    StripKeeps(LowerStr(s), IsLowered);
    LoweredFixed(t);
    StripTwice(LowerStr(s));
  }

  lemma LowerStrLowered(s: string)
    ensures AllChars(LowerStr(s), IsLowered)
  {
    var l := LowerStr(s);
    forall i | 0 <= i < |l| ensures IsLowered(l[i]) {
      assert l[i] == Lower(s[i]);
    }
  }

  lemma LoweredFixed(t: string)
    requires AllChars(t, IsLowered)
    ensures LowerStr(t) == t
  {
    var l := LowerStr(t);
    forall i | 0 <= i < |t| ensures l[i] == t[i] {
      assert IsLowered(t[i]);
    }
  }

  /** Text without surrounding whitespace or upper-case letters. */
  lemma StableLiteral(s: string)
    requires |s| > 0 && !IsSpace(s[0]) && !IsSpace(s[|s| - 1])
    requires AllChars(s, IsLowered)
    ensures Strip(LowerStr(s)) == s
  {
    assert LowerStr(s) == s;
    assert TrimLeft(s) == s;
    assert TrimRight(s) == s;
  }

  lemma UnknownProductStripped()
    ensures Strip(UnknownProduct) == UnknownProduct
  {
    assert TrimLeft(UnknownProduct) == UnknownProduct;
    assert TrimRight(UnknownProduct) == UnknownProduct;
  }

  lemma GeneralStable()
    ensures Strip(LowerStr("general")) == "general"
  {
    StableLiteral("general");
  }

  lemma UnknownStable()
    ensures Strip(LowerStr(Unknown)) == Unknown
  {
    StableLiteral(Unknown);
  }

  lemma NameStable(n: Option<string>)
    ensures CleanName(Some(CleanName(n))) == CleanName(n)
  {
    StripTwice(n.GetOr(""));
    UnknownProductStripped();
  }

  lemma CategoryStable(x: Option<string>)
    ensures CleanCategory(Some(CleanCategory(x))) == CleanCategory(x)
  {
    var t := Strip(LowerStr(x.GetOr("general")));
    if t in ValidCategories {
      CleanedTextStable(x.GetOr("general"));
      assert Strip(LowerStr(t)) == t;
    } else {
      GeneralStable();
      assert "general" == ValidCategories[8];
    }
  }

  lemma PlatformStable(x: Option<string>)
    ensures CleanPlatform(Some(CleanPlatform(x))) == CleanPlatform(x)
  {
    CleanedTextStable(x.GetOr(""));
    UnknownStable();
  }

  lemma UrlStable(x: Option<string>, urlParts: string -> (string, string))
    ensures CleanUrl(Some(CleanUrl(x, urlParts)), urlParts) == CleanUrl(x, urlParts)
  {
    StripTwice(x.GetOr(""));
    assert Strip("") == "";
  }

  /** Validation is idempotent: a validated record validates to itself. */
  lemma ValidateIdempotent(d: Raw, urlParts: string -> (string, string))
    requires AllText(d)
    ensures Validate(AsRaw(Validate(d, urlParts).value), urlParts) == Validate(d, urlParts)
  {
    var c := CleanRecord(d, urlParts);
    var r := AsRaw(c);
    assert AllText(r);
    CleanRecordStable(d, urlParts);
  }

  lemma CleanRecordStable(d: Raw, urlParts: string -> (string, string))
    ensures CleanRecord(AsRaw(CleanRecord(d, urlParts)), urlParts) == CleanRecord(d, urlParts)
  {
    var c := CleanRecord(d, urlParts);
    var e := CleanRecord(AsRaw(c), urlParts);
    TextFieldsStable(d, urlParts);
    NumbersStable(d.price);
    NumbersStable(d.rating);
    NumbersStable(d.qualityScore);
    NumbersStable(d.finalScore);
    assert e.price == c.price && e.rating == c.rating;
    assert e.qualityScore == c.qualityScore && e.finalScore == c.finalScore;
  }

  lemma TextFieldsStable(d: Raw, urlParts: string -> (string, string))
    ensures var c := CleanRecord(d, urlParts);
            var e := CleanRecord(AsRaw(c), urlParts);
            && e.name == c.name && e.category == c.category && e.platform == c.platform
            && e.url == c.url && e.imageUrl == c.imageUrl && e.description == c.description
  {
    NamedFieldsStable(d, urlParts);
    LinkFieldsStable(d, urlParts);
  }

  lemma NamedFieldsStable(d: Raw, urlParts: string -> (string, string))
    ensures var c := CleanRecord(d, urlParts);
            var e := CleanRecord(AsRaw(c), urlParts);
            e.name == c.name && e.category == c.category && e.platform == c.platform
  {
    NameStable(TextOf(d.name));
    CategoryStable(TextOf(d.category));
    PlatformStable(TextOf(d.platform));
  }

  lemma LinkFieldsStable(d: Raw, urlParts: string -> (string, string))
    ensures var c := CleanRecord(d, urlParts);
            var e := CleanRecord(AsRaw(c), urlParts);
            e.url == c.url && e.imageUrl == c.imageUrl && e.description == c.description
  {
    UrlStable(TextOf(d.url), urlParts);
    StrippedFieldStable(d.imageUrl);
    StrippedFieldStable(d.description);
  }

  lemma StrippedFieldStable(x: TextInput)
    ensures Strip(TextOf(Text(Strip(TextOf(x).GetOr("")))).GetOr("")) == Strip(TextOf(x).GetOr(""))
  {
    StripTwice(TextOf(x).GetOr(""));
  }

  lemma NumbersStable(x: NumInput)
    ensures CleanPrice(Number(CleanPrice(x))) == CleanPrice(x)
    ensures CleanRating(Number(CleanRating(x))) == CleanRating(x)
    ensures CleanQuality(Number(CleanQuality(x))) == CleanQuality(x)
  {
  }

  /** Empty name, unparseable price and rating, unknown category. */
  lemma InvalidDataExample(urlParts: string -> (string, string))
    ensures var r := Validate(Raw(Text(""), NotNumber, NotNumber, Text("invalid_category"), Missing, Missing,
                                  NoSpecs, Absent, Absent, Missing, Missing), urlParts);
            && r.Some?
            && r.value.name == UnknownProduct && r.value.price == 0.0 && r.value.rating == 4.0
            && r.value.category == "general"
  {
    var d := Raw(Text(""), NotNumber, NotNumber, Text("invalid_category"), Missing, Missing,
                 NoSpecs, Absent, Absent, Missing, Missing);
    assert AllText(d);
    InvalidCategoryIsGeneral();
    assert Strip("") == "";
    assert CleanName(Some("")) == UnknownProduct;
  }

  /** A name stored as `None` is not defaulted: `None.strip()` raises. */
  lemma NoneNameRaises(d: Raw, urlParts: string -> (string, string))
    requires d.name == NotText
    ensures Validate(d, urlParts) == None
  {
  }

  lemma InvalidCategoryIsGeneral()
    ensures CleanCategory(Some("invalid_category")) == "general"
  {
    var cat := "invalid_category";
    assert LowerStr(cat) == cat;
    assert Strip(cat) == cat by {
      StripUnchanged(cat);
    }
    assert cat !in ValidCategories by {
      assert forall i :: 0 <= i < |ValidCategories| ==> |ValidCategories[i]| < |cat|;
    }
  }

  // ---------------------------------------------------------------------
  // paginated_response

  datatype Page<T> = Page(data: seq<T>, page: int, limit: int, total: int, pages: int)

  /** `paginated_response`; a zero limit is a division by zero (`None`). */
  function PaginatedResponse<T>(data: seq<T>, page: int, limit: int, total: int): (r: Option<Page<T>>)
    ensures r.None? <==> limit == 0
    ensures r.Some? ==> r.value.data == data && r.value.page == page && r.value.limit == limit && r.value.total == total
    ensures limit > 0 ==> r.Some? && (r.value.pages - 1) * limit < total <= r.value.pages * limit
  {
    if limit == 0 then None
    else
      var pages := FloorDiv(total + limit - 1, limit);
      assert limit > 0 ==> (pages - 1) * limit < total <= pages * limit by {
        if limit > 0 {
          assert pages * limit <= total + limit - 1 < pages * limit + limit;
          assert (pages - 1) * limit == pages * limit - limit;
        }
      }
      Some(Page(data, page, limit, total, pages))
  }

  /** With a positive limit the page count is the least one that covers the
      total: `ceil(total / limit)`. */
  lemma PagesIsCeiling<T>(data: seq<T>, page: int, limit: int, total: int, n: int)
    requires limit > 0 && n * limit >= total
    ensures PaginatedResponse(data, page, limit, total).value.pages <= n
  {
    var p := PaginatedResponse(data, page, limit, total).value.pages;
    if p > n {
      assert (p - 1) * limit >= n * limit by {
        MulLeftMonotoneInt(limit, n, p - 1);
      }
    }
  }

  lemma MulLeftMonotoneInt(c: int, a: int, b: int)
    requires a <= b && c >= 0
    ensures a * c <= b * c
  {
    assert b * c - a * c == (b - a) * c;
  }

  // ---------------------------------------------------------------------
  // calculate_savings_percentage

  /** The saving as a percentage of the original price; 0 for a price that
      is not positive. */
  function SavingsPercentage(original: real, discounted: real): (r: real)
    ensures original <= 0.0 ==> r == 0.0
    ensures original > 0.0 && discounted <= original ==> r >= 0.0
    ensures original > 0.0 && discounted >= 0.0 ==> r <= 100.0
    ensures original > 0.0 && discounted == original ==> r == 0.0
  {
    if original <= 0.0 then 0.0
    else
      var r := (original - discounted) / original * 100.0;
      assert discounted >= 0.0 ==> r <= 100.0 by {
        if discounted >= 0.0 {
          assert (original - discounted) / original <= 1.0;
        }
      }
      r
  }

  /** The percentage gives back the discounted price. */
  lemma SavingsRoundTrip(original: real, discounted: real)
    requires original > 0.0
    ensures original * (1.0 - SavingsPercentage(original, discounted) / 100.0) == discounted
  {
    var q := (original - discounted) / original;
    assert q * original == original - discounted;
    assert SavingsPercentage(original, discounted) / 100.0 == q;
  }

  // ---------------------------------------------------------------------
  // normalize_product_name

  const StopWords: seq<string> := ["the", "a", "an", "and", "or", "but", "in", "on", "at", "to", "for", "of", "with", "by"]

  /** The words that are not stop words, each as often as it occurs. */
  function DropStopWords(ws: seq<string>): (r: seq<string>)
    ensures forall i :: 0 <= i < |r| ==> r[i] in ws && r[i] !in StopWords
    ensures forall w :: w in ws && w !in StopWords ==> w in r
    ensures forall w :: multiset(r)[w] == if w in StopWords then 0 else multiset(ws)[w]
  {
    if |ws| == 0 then []
    else
      assert ws == [ws[0]] + ws[1..];
      if ws[0] in StopWords then DropStopWords(ws[1..])
      else [ws[0]] + DropStopWords(ws[1..])
  }

  /** Dropping stop words keeps the order of the rest: it distributes over
      concatenation. */
  lemma {:induction false} DropStopWordsAppend(a: seq<string>, b: seq<string>)
    ensures DropStopWords(a + b) == DropStopWords(a) + DropStopWords(b)
    decreases |a|
  {
    if |a| == 0 {
      assert a + b == b;
    } else {
      assert (a + b)[0] == a[0];
      assert (a + b)[1..] == a[1..] + b;
      DropStopWordsAppend(a[1..], b);
    }
  }

  lemma {:induction false} DropStopWordsKeeps(ws: seq<string>, p: char -> bool)
    requires forall i :: 0 <= i < |ws| ==> AllChars(ws[i], p)
    ensures forall i :: 0 <= i < |DropStopWords(ws)| ==> AllChars(DropStopWords(ws)[i], p)
    decreases |ws|
  {
    if |ws| > 0 {
      DropStopWordsKeeps(ws[1..], p);
    }
  }

  predicate WordOrSpace(c: char) {
    IsWordChar(c) || IsSpace(c)
  }

  /** `normalize_product_name`: lower-case, drop the stop words, rejoin with
      single spaces, then delete every character that is neither a word
      character nor whitespace, and strip. */
  function NormalizeProductName(name: string): (r: string)
    ensures name == "" ==> r == ""
    ensures AllChars(r, WordOrSpace) && AllChars(r, IsLowered)
    ensures r == [] || (!IsSpace(r[0]) && !IsSpace(r[|r| - 1]))
  {
    if name == "" then ""
    else
      var lowered := LowerStr(name);
      var split := SplitWs(lowered);
      var words := DropStopWords(split);
      var joined := Join(words, " ");
      var kept := Keep(joined, WordOrSpace);
      LowerStrLowered(name);
      SplitWsKeeps(lowered, IsLowered);
      DropStopWordsKeeps(split, IsLowered);
      JoinKeeps(words, " ", IsLowered);
      KeepKeeps(joined, WordOrSpace, IsLowered);
      StripKeeps(kept, IsLowered);
      StripKeeps(kept, WordOrSpace);
      Strip(kept)
  }

  /** Lower-casing keeps word characters and whitespace. */
  lemma LowerKeepsWordOrSpace(s: string)
    requires AllChars(s, WordOrSpace)
    ensures AllChars(LowerStr(s), WordOrSpace)
  {
    var l := LowerStr(s);
    forall i | 0 <= i < |l| ensures WordOrSpace(l[i]) {
      assert l[i] == Lower(s[i]);
    }
  }

  /** For a name of word characters and whitespace, normalising lower-cases
      it, drops the stop words and joins the remaining words, in order, with
      single spaces; splitting the result gives back those words. */
  lemma NormalizeWordName(name: string)
    requires AllChars(name, WordOrSpace)
    ensures NormalizeProductName(name) == Join(DropStopWords(SplitWs(LowerStr(name))), " ")
    ensures SplitWs(NormalizeProductName(name)) == DropStopWords(SplitWs(LowerStr(name)))
  {
    var words := DropStopWords(SplitWs(LowerStr(name)));
    NormalizeJoins(name);
    AllWordsByIndex(words);
    SplitJoinWords(words);
  }

  lemma NormalizeJoins(name: string)
    requires AllChars(name, WordOrSpace)
    ensures NormalizeProductName(name) == Join(DropStopWords(SplitWs(LowerStr(name))), " ")
  {
    if name == "" {
      NormalizeEmpty();
    } else {
      NormalizeNonEmpty(name);
    }
  }

  lemma NormalizeEmpty()
    ensures NormalizeProductName("") == Join(DropStopWords(SplitWs(LowerStr(""))), " ")
  {
    assert TrimLeft("") == "";
  }

  lemma NormalizeNonEmpty(name: string)
    requires AllChars(name, WordOrSpace) && name != ""
    ensures NormalizeProductName(name) == Join(DropStopWords(SplitWs(LowerStr(name))), " ")
  {
    KeptWords(name);
    CleanJoin(DropStopWords(SplitWs(LowerStr(name))));
    NormalizeSteps(name);
  }

  /** The words kept from such a name hold only word characters. */
  lemma KeptWords(name: string)
    requires AllChars(name, WordOrSpace)
    ensures forall i :: 0 <= i < |DropStopWords(SplitWs(LowerStr(name)))| ==>
              AllChars(DropStopWords(SplitWs(LowerStr(name)))[i], WordOrSpace)
  {
    LowerKeepsWordOrSpace(name);
    SplitWsKeeps(LowerStr(name), WordOrSpace);
    DropStopWordsKeeps(SplitWs(LowerStr(name)), WordOrSpace);
  }

  /** Joining words of word characters with spaces leaves nothing for the
      character filter or the final strip to remove. */
  lemma CleanJoin(words: seq<string>)
    requires forall i :: 0 <= i < |words| ==> IsWord(words[i]) && AllChars(words[i], WordOrSpace)
    ensures Strip(Keep(Join(words, " "), WordOrSpace)) == Join(words, " ")
  {
    var j := Join(words, " ");
    JoinAllWordOrSpace(words);
    assert Keep(j, WordOrSpace) == j;
    JoinWordsStripped(words);
  }

  lemma JoinAllWordOrSpace(words: seq<string>)
    requires forall i :: 0 <= i < |words| ==> AllChars(words[i], WordOrSpace)
    ensures AllChars(Join(words, " "), WordOrSpace)
  {
    assert AllChars(" ", WordOrSpace) by { assert IsSpace(' '); }
    JoinKeeps(words, " ", WordOrSpace);
  }

  lemma {:induction false} DropAllStopWords(ws: seq<string>)
    requires forall i :: 0 <= i < |ws| ==> ws[i] in StopWords
    ensures DropStopWords(ws) == []
    decreases |ws|
  {
    if |ws| > 0 {
      DropAllStopWords(ws[1..]);
    }
  }

  /** A name made only of stop words normalises to nothing. */
  lemma OnlyStopWords(name: string)
    requires forall i :: 0 <= i < |SplitWs(LowerStr(name))| ==> SplitWs(LowerStr(name))[i] in StopWords
    ensures NormalizeProductName(name) == ""
  {
    DropAllStopWords(SplitWs(LowerStr(name)));
    assert Strip("") == "";
  }

  /** A stop word is a run of lower-case letters. */
  predicate LowerWord(w: string) {
    |w| > 0 && forall k :: 0 <= k < |w| ==> 'a' <= w[k] <= 'z'
  }

  lemma StopWordsLower(w: string)
    requires w in StopWords
    ensures LowerWord(w)
  {
  }

  /** Characters that lower-casing and splitting leave alone. */
  predicate LowerNonSpace(t: string) {
    forall k :: 0 <= k < |t| ==> Lower(t[k]) == t[k] && !IsSpace(t[k])
  }

  /** A run of lower-case letters is left alone by lower-casing and
      splitting, and holds only word characters. */
  lemma LowerWordShape(w: string)
    requires LowerWord(w)
    ensures LowerNonSpace(w) && AllChars(w, WordOrSpace)
  {
    forall k | 0 <= k < |w| ensures WordOrSpace(w[k]) {
      assert IsLetter(w[k]);
    }
  }

  /** So is such a run with a comma after it, except that the comma is not a
      word character. */
  lemma LowerWordComma(w: string)
    requires LowerWord(w)
    ensures LowerNonSpace(w + ",")
  {
    var t := w + ",";
    forall k | 0 <= k < |t| ensures Lower(t[k]) == t[k] && !IsSpace(t[k]) {
      if k < |w| {
        assert t[k] == w[k];
      } else {
        assert t[k] == ',';
      }
    }
  }

  lemma LowerNonSpaceShape(t: string)
    requires |t| > 0 && LowerNonSpace(t)
    ensures LowerStr(t) == t
    ensures SplitWs(t) == [t]
  {
    SplitSingleWord(t);
  }

  /** A word with a comma in it is not a stop word. */
  lemma StopWordsAreWords(s: string)
    requires ',' in s
    ensures s !in StopWords
  {
    forall i | 0 <= i < |StopWords| ensures ',' !in StopWords[i] {
    }
  }

  /** A single word survives the stop-word filter unless it is a stop word. */
  lemma DropSingle(t: string)
    ensures DropStopWords([t]) == if t in StopWords then [] else [t]
  {
    assert [t][1..] == [];
  }

  /** A name that is one word of lower-case, non-space characters is dropped
      when it is a stop word and otherwise only loses its punctuation. */
  lemma NormalizeSingleWord(t: string)
    requires |t| > 0 && LowerNonSpace(t)
    ensures NormalizeProductName(t) == if t in StopWords then "" else Strip(Keep(t, WordOrSpace))
  {
    LowerNonSpaceShape(t);
    DropSingle(t);
    NormalizeSteps(t);
    assert Join([], " ") == "";
    assert Join([t], " ") == t;
    assert Strip("") == "";
  }

  /** A stop word on its own normalises to nothing. */
  lemma NormalizeStopWord(w: string)
    requires w in StopWords
    ensures NormalizeProductName(w) == ""
  {
    StopWordsLower(w);
    LowerWordShape(w);
    NormalizeSingleWord(w);
  }

  /** Punctuation is removed after the stop words are dropped, so a stop
      word with a comma attached keeps the stop word... */
  lemma PunctuatedStopWord(w: string)
    requires w in StopWords
    ensures NormalizeProductName(w + ",") == w
  {
    StopWordsLower(w);
    LowerWordShape(w);
    LowerWordComma(w);
    StopWordsAreWords(w + ",");
    NormalizeSingleWord(w + ",");
    CommaDropped(w);
  }

  /** Dropping the punctuation of a lower-case word with a comma leaves the
      word. */
  lemma CommaDropped(w: string)
    requires LowerWord(w) && AllChars(w, WordOrSpace)
    ensures Strip(Keep(w + ",", WordOrSpace)) == w
  {
    KeepWordComma(w);
    StripUnchanged(w);
  }

  lemma KeepWordComma(w: string)
    requires AllChars(w, WordOrSpace)
    ensures Keep(w + ",", WordOrSpace) == w
  {
    KeepAppend(w, ",", WordOrSpace);
    KeepComma();
    assert w + "" == w;
  }

  lemma KeepComma()
    ensures Keep(",", WordOrSpace) == ""
  {
    assert ","[1..] == "";
  }

  /** The steps of `normalize_product_name` on a non-empty name. */
  lemma NormalizeSteps(name: string)
    requires name != ""
    ensures NormalizeProductName(name) == Strip(Keep(Join(DropStopWords(SplitWs(LowerStr(name))), " "), WordOrSpace))
  {
  }

  /** ... which a second normalisation then drops: normalising twice is not
      normalising once. */
  lemma NormalizeNotIdempotent(w: string)
    requires w in StopWords
    ensures NormalizeProductName(NormalizeProductName(w + ",")) == ""
    ensures NormalizeProductName(w + ",") != ""
  {
    PunctuatedStopWord(w);
    NormalizeStopWord(w);
    StopWordsLower(w);
  }
}
