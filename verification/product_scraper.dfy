/**
 * The parsing side of the product scraper. Fetching a page and running CSS
 * selectors on it are outside the model: a `Page` holds what each selector
 * found, and the scraper's extractors turn that into a product record. The
 * URL decides which platform's extractors run.
 */
module ProductScraper {
  import opened Base
  import opened Chars
  import opened Dicts
  import opened Numbers
  import opened Regex
  import opened Categories
  import opened SpecPatterns
  import Helpers

  // ---------------------------------------------------------------------
  // _parse_price

  /** `(\d+)`. */
  const DigitRun: Pattern := UnitPattern("")

  /** `int(re.search(r'(\d+)', clean).group(1))`, or 0 without a match. */
  function FirstRunValue(clean: string): (r: nat)
    ensures AllChars(clean, NotDigit) ==> r == 0
  {
    UnitSearchIsScan("", clean, 0);
    if AllChars(clean, NotDigit) then
      LeadingDigitsNone(DigitRun, clean);
      0
    else
      match Search(DigitRun, clean)
      case None => 0
      case Some(d) => DigitsValue(d)
  }

  /** The first digit run is the one after a stretch without digits. */
  lemma FirstRunAfter(pre: string, d: string, rest: string)
    requires AllChars(pre, NotDigit)
    requires |d| > 0 && AllDigits(d)
    requires rest == "" || !IsDigit(rest[0])
    ensures FirstRunValue(pre + d + rest) == DigitsValue(d)
  {
    var s := pre + d + rest;
    ScanFindsRunAfter(pre, d, rest);
    UnitSearchIsScan("", s, 0);
    assert !AllChars(s, NotDigit) by {
      assert s[|pre|] == d[0];
    }
  }

  /** Scanning for digits skips the stretch and returns the whole run. */
  lemma ScanFindsRunAfter(pre: string, d: string, rest: string)
    requires AllChars(pre, NotDigit)
    requires |d| > 0 && AllDigits(d)
    requires rest == "" || !IsDigit(rest[0])
    ensures ScanUnit(pre + d + rest, "", 0) == Some(d)
  {
    var s := pre + d + rest;
    var n := |pre|;
    assert s[n..n + |d|] == d;
    assert forall m :: 0 <= m < |d| ==> InClass(Digit, d[m]);
    assert n + |d| == |s| || !InClass(Digit, s[n + |d|]) by {
      if n + |d| < |s| {
        assert s[n + |d|] == rest[0];
      }
    }
    SpanOver(Digit, s, n, d);
    ScanSkip(s, "", 0, n) by {
      forall k | 0 <= k < n ensures !IsDigit(s[k]) {
        assert s[k] == pre[k];
      }
    }
  }

  /** The characters of `[₹Rs.,]`, which `_parse_price` deletes. */
  predicate PriceJunk(c: char) {
    c == Rupee || c == 'R' || c == 's' || c == '.' || c == ','
  }

  predicate NotPriceJunk(c: char) {
    !PriceJunk(c)
  }

  /** `_parse_price` as written: deletes ₹, R, s, '.' and ',' and reads the
      first digit run of what is left. */
  function ParsePrice(text: string): (r: nat)
    ensures AllChars(text, NotDigit) ==> r == 0
  {
    var clean := Keep(text, NotPriceJunk);
    assert AllChars(text, NotDigit) ==> AllChars(clean, NotDigit) by {
      if AllChars(text, NotDigit) {
        KeepKeeps(text, NotPriceJunk, NotDigit);
      }
    }
    FirstRunValue(clean)
  }

  /** Deleting the decimal point glues the decimals to the whole part: a
      price written with decimals comes out 10^|f| times too large. */
  lemma ParsePriceReadsDecimals(cur: string, w: string, f: string)
    requires AllChars(cur, NotDigit) && AllChars(w, IsDigitOrComma) && Keep(w, IsDigit) != ""
    requires AllDigits(f)
    ensures ParsePrice(cur + w + "." + f) == ParsePriceFixed(cur + w + "." + f) * Pow10(|f|) + DigitsValue(f)
  {
    ParsePriceGlued(cur, w, f);
    ParsePriceFixedWhole(cur, w, f);
    DigitsValueAppend(Keep(w, IsDigit), f);
  }

  /** `_parse_price` reads the digits of the whole part and the decimals
      as one number. */
  lemma ParsePriceGlued(cur: string, w: string, f: string)
    requires AllChars(cur, NotDigit) && AllChars(w, IsDigitOrComma) && Keep(w, IsDigit) != ""
    requires AllDigits(f)
    ensures AllDigits(Keep(w, IsDigit) + f)
    ensures ParsePrice(cur + w + "." + f) == DigitsValue(Keep(w, IsDigit) + f)
  {
    var whole := Keep(w, IsDigit);
    var pre := Keep(cur, NotPriceJunk);
    PriceJunkDeleted(cur, w, f);
    KeepKeeps(cur, NotPriceJunk, NotDigit);
    AllDigitsAppend(whole, f);
    assert pre + whole + f == pre + (whole + f) + "";
    FirstRunAfter(pre, whole + f, "");
    assert ParsePrice(cur + w + "." + f) == FirstRunValue(pre + (whole + f) + "");
  }

  /** What `_parse_price` keeps of a price with decimals: the digits of the
      whole part run straight into the decimals. */
  lemma PriceJunkDeleted(cur: string, w: string, f: string)
    requires AllChars(w, IsDigitOrComma) && AllDigits(f)
    ensures Keep(cur + w + "." + f, NotPriceJunk) == Keep(cur, NotPriceJunk) + Keep(w, IsDigit) + f
  {
    assert Keep("." + f, NotPriceJunk) == f by {
      DotDeleted(f);
    }
    assert Keep(w, NotPriceJunk) == Keep(w, IsDigit) by {
      KeepSame(w, NotPriceJunk, IsDigit);
    }
    KeepAppend(cur + w, "." + f, NotPriceJunk);
    KeepAppend(cur, w, NotPriceJunk);
    assert cur + w + "." + f == (cur + w) + ("." + f);
  }

  lemma DotDeleted(f: string)
    requires AllDigits(f)
    ensures Keep("." + f, NotPriceJunk) == f
  {
    KeepAppend(".", f, NotPriceJunk);
    assert Keep(".", NotPriceJunk) == "";
    assert AllChars(f, NotPriceJunk);
    KeepAll(f, NotPriceJunk);
  }

  /** The characters `_parse_price` evidently means to delete: the currency
      marks and the thousands separator, but not the decimal point. */
  predicate CurrencyJunk(c: char) {
    c == Rupee || c == 'R' || c == 's' || c == ','
  }

  predicate NotCurrencyJunk(c: char) {
    !CurrencyJunk(c)
  }

  /** `_parse_price` keeping the decimal point, so that the first digit run
      is the whole part of the price. */
  function ParsePriceFixed(text: string): (r: nat)
    ensures AllChars(text, NotDigit) ==> r == 0
  {
    var clean := Keep(text, NotCurrencyJunk);
    assert AllChars(text, NotDigit) ==> AllChars(clean, NotDigit) by {
      if AllChars(text, NotDigit) {
        KeepKeeps(text, NotCurrencyJunk, NotDigit);
      }
    }
    FirstRunValue(clean)
  }

  predicate IsDigitOrComma(c: char) {
    IsDigit(c) || c == ','
  }

  /** After a currency mark, a price with thousands separators and any
      decimal part reads as its whole part. */
  lemma ParsePriceFixedWhole(cur: string, w: string, f: string)
    requires AllChars(cur, NotDigit) && AllChars(w, IsDigitOrComma) && Keep(w, IsDigit) != ""
    ensures ParsePriceFixed(cur + w + "." + f) == DigitsValue(Keep(w, IsDigit))
  {
    var pre := Keep(cur, NotCurrencyJunk);
    var rest := "." + Keep(f, NotCurrencyJunk);
    CurrencyJunkDeleted(cur, w, f);
    KeepKeeps(cur, NotCurrencyJunk, NotDigit);
    FirstRunAfter(pre, Keep(w, IsDigit), rest);
  }

  /** What the corrected parser keeps: the point stays in front of the decimals. */
  lemma CurrencyJunkDeleted(cur: string, w: string, f: string)
    requires AllChars(w, IsDigitOrComma)
    ensures Keep(cur + w + "." + f, NotCurrencyJunk)
            == Keep(cur, NotCurrencyJunk) + Keep(w, IsDigit) + ("." + Keep(f, NotCurrencyJunk))
  {
    assert Keep("." + f, NotCurrencyJunk) == "." + Keep(f, NotCurrencyJunk) by {
      KeepAppend(".", f, NotCurrencyJunk);
      assert Keep(".", NotCurrencyJunk) == ".";
    }
    assert Keep(w, NotCurrencyJunk) == Keep(w, IsDigit) by {
      KeepSame(w, NotCurrencyJunk, IsDigit);
    }
    KeepAppend(cur + w, "." + f, NotCurrencyJunk);
    KeepAppend(cur, w, NotCurrencyJunk);
    assert cur + w + "." + f == (cur + w) + ("." + f);
  }

  lemma KeepTwelveNinetyNine()
    ensures Keep("1,299", IsDigit) == "1299"
    ensures AllChars("1,299", IsDigitOrComma)
  {
  }

  lemma TwelveNinetyNine()
    ensures DigitsValue("1299") == 1299
  {
    assert "1299"[..3] == "129" && "129"[..2] == "12" && "12"[..1] == "1" && "1"[..0] == "";
    assert DigitsValue("1") == 1;
    assert DigitsValue("12") == 12;
    assert DigitsValue("129") == 129;
  }

  /** "₹1,299.00" is read as 129900 as written and as 1299 with the point kept. */
  lemma ParsePriceDecimalsExample()
    ensures ParsePrice([Rupee] + "1,299.00") == 129900
    ensures ParsePriceFixed([Rupee] + "1,299.00") == 1299
  {
    var cur, w, f := [Rupee], "1,299", "00";
    DecimalsExamplePieces();
    ParsePriceFixedWhole(cur, w, f);
    ParsePriceReadsDecimals(cur, w, f);
  }

  /** The pieces of "₹1,299.00": mark, whole part and decimals. */
  lemma DecimalsExamplePieces()
    ensures [Rupee] + "1,299" + "." + "00" == [Rupee] + "1,299.00"
    ensures AllChars([Rupee], NotDigit)
    ensures Keep("1,299", IsDigit) == "1299" && AllChars("1,299", IsDigitOrComma)
    ensures DigitsValue("1299") == 1299
    ensures AllDigits("00") && DigitsValue("00") == 0 && Pow10(|"00"|) == 100
  {
    KeepTwelveNinetyNine();
    TwelveNinetyNine();
    assert DigitsValue("00") == 0 by {
      assert "00"[..1] == "0";
    }
  }

  // ---------------------------------------------------------------------
  // The selector-based extractors

  /** `_extract_*_name`: the stripped text of the first selector that found
      an element, or "Unknown Product". */
  function FirstText(found: seq<Option<string>>): (r: string)
    ensures (forall i :: 0 <= i < |found| ==> found[i].None?) ==> r == Helpers.UnknownProduct
    ensures forall i :: (0 <= i < |found| && found[i].Some? && forall m :: 0 <= m < i ==> found[m].None?)
                        ==> r == Strip(found[i].value)
  {
    if |found| == 0 then Helpers.UnknownProduct
    else if found[0].Some? then Strip(found[0].value)
    else
      assert forall i :: 1 <= i < |found| ==> found[1..][i - 1] == found[i];
      FirstText(found[1..])
  }

  /** The price an element's text gives under `parse`, when it is not 0. */
  function NonZeroPrice(parse: string -> nat, text: string): Option<nat> {
    var p := parse(Strip(text));
    if p == 0 then None else Some(p)
  }

  /** A selector found an element whose text parses to a price other than 0. */
  predicate PriceFound(found: Option<string>, parse: string -> nat) {
    found.Some? && parse(Strip(found.value)) != 0
  }

  lemma PriceFoundAccepts(found: Option<string>, parse: string -> nat)
    ensures Helpers.Accepts(found, t => NonZeroPrice(parse, t)) <==> PriceFound(found, parse)
    ensures PriceFound(found, parse) ==> NonZeroPrice(parse, found.value) == Some(parse(Strip(found.value)))
  {
  }

  /** `_extract_*_price`, where `parse` is the price parser (`_parse_price`
      is `ParsePrice`): the first selector whose element parses to a price
      other than 0, or 0. */
  function SelectorPrice(found: seq<Option<string>>, parse: string -> nat): (r: nat)
    ensures r == 0 <==> forall i :: 0 <= i < |found| ==> !PriceFound(found[i], parse)
    ensures r != 0 ==> exists i :: 0 <= i < |found| && PriceFound(found[i], parse) && r == parse(Strip(found[i].value))
                                   && forall m :: 0 <= m < i ==> !PriceFound(found[m], parse)
  {
    var conv := t => NonZeroPrice(parse, t);
    forall o: Option<string> ensures Helpers.Accepts(o, conv) <==> PriceFound(o, parse) {
      PriceFoundAccepts(o, parse);
    }
    match Helpers.FirstAccepted(found, conv)
    case None => 0
    case Some(p) =>
      var i :| 0 <= i < |found| && Helpers.Accepts(found[i], conv) && Some(p) == conv(found[i].value)
               && forall m :: 0 <= m < i ==> !Helpers.Accepts(found[m], conv);
      PriceFoundAccepts(found[i], parse);
      p
  }

  /** `_extract_*_rating`: the first number in the rating element's text,
      or 4.0 when there is no element or no number. */
  function ElementRating(found: Option<string>): (r: real)
    ensures r >= 0.0
    ensures found.None? || ScanDecimal(Strip(found.value), 0).None? ==> r == 4.0
    ensures found.Some? && ScanDecimal(Strip(found.value), 0).Some?
            ==> Some(r) == ParseFloat(ScanDecimal(Strip(found.value), 0).value)
  {
    match found
    case None => 4.0
    case Some(t) =>
      var s := Strip(t);
      DecimalSearchIsScan(s, 0);
      match Search(Pattern(Decimal, false), s)
      case None => 4.0
      case Some(c) =>
        ScanDecimalParses(s, 0);
        ParseFloat(c).value
  }

  /** Every number the scanner finds converts with `float()`. */
  lemma {:induction false} ScanDecimalParses(s: string, i: nat)
    requires i <= |s|
    ensures ScanDecimal(s, i).Some? ==> ParseFloat(ScanDecimal(s, i).value).Some?
    decreases |s| - i
  {
    if i < |s| && !IsDigit(s[i]) {
      ScanDecimalParses(s, i + 1);
    } else if i < |s| {
      var e := Span(Digit, s, i);
      var q := DecimalEnd(s, i);
      var c := s[i..q];
      assert forall k :: 0 <= k < |c| ==> c[k] == s[i + k];
      assert e > i;
      assert forall k :: 0 <= k < e - i ==> IsDigit(c[k]);
      assert AllDigits(c[..e - i]);
      DigitPrefixExact(c, e - i);
      if q > e {
        assert c[e - i] == '.';
        assert forall k :: e - i + 1 <= k < |c| ==> IsDigit(c[k]);
        assert AllDigits(c[e - i + 1..]);
      }
    }
  }

  /** The specification a feature bullet gives: split at its first ':',
      both halves stripped; a bullet without ':' gives none. */
  function BulletPair(bullet: string): (r: Option<(string, string)>)
    ensures r.None? <==> ':' !in Strip(bullet)
    ensures r.Some? ==> ':' !in r.value.0
  {
    var t := Strip(bullet);
    match FindChar(t, ':')
    case None => None
    case Some(i) =>
      var key := Strip(t[..i]);
      StripKeeps(t[..i], NotColon);
      assert forall m :: 0 <= m < |key| ==> key[m] != ':';
      Some((key, Strip(t[i + 1..])))
  }

  predicate NotColon(c: char) {
    c != ':'
  }

  /** Writing a specification as `key:value` and reading the bullet back
      gives the pair again, for a key without ':' and both halves without
      surrounding whitespace. */
  lemma BulletPairRoundTrip(key: string, value: string)
    requires ':' !in key && Strip(key) == key && Strip(value) == value
    ensures BulletPair(key + ":" + value) == Some((key, value))
  {
    var t := key + ":" + value;
    assert !IsSpace(':');
    assert t[0] == if |key| > 0 then key[0] else ':';
    assert t[|t| - 1] == if |value| > 0 then value[|value| - 1] else ':';
    StripUnchanged(t);
    assert t[|key|] == ':' && t[..|key|] == key && t[|key| + 1..] == value;
    assert ':' in t;
    assert FindChar(t, ':').value == |key|;
  }

  /** The pairs of the bullets that hold a ':', in order. */
  function BulletPairs(bullets: seq<string>): (r: seq<(string, string)>)
    ensures forall p :: p in r ==> ':' !in p.0
    ensures forall p :: p in r ==> exists b :: b in bullets && BulletPair(b) == Some(p)
  {
    if |bullets| == 0 then []
    else
      var rest := BulletPairs(bullets[1..]);
      match BulletPair(bullets[0])
      case None => rest
      case Some(p) => [p] + rest
  }

  /** The pairs of the table rows with exactly two cells, both stripped. */
  function RowPairs(rows: seq<seq<string>>): (r: seq<(string, string)>)
    ensures forall p :: p in r ==> exists row :: row in rows && |row| == 2 && p == (Strip(row[0]), Strip(row[1]))
  {
    if |rows| == 0 then []
    else
      var rest := RowPairs(rows[1..]);
      if |rows[0]| == 2 then [(Strip(rows[0][0]), Strip(rows[0][1]))] + rest else rest
  }

  /** The pairs of the detail rows that have both a key and a value element. */
  function ItemPairs(items: seq<(Option<string>, Option<string>)>): (r: seq<(string, string)>)
    ensures forall p :: p in r ==> exists it :: it in items && it.0.Some? && it.1.Some?
                                                && p == (Strip(it.0.value), Strip(it.1.value))
  {
    if |items| == 0 then []
    else
      var rest := ItemPairs(items[1..]);
      var it := items[0];
      if it.0.Some? && it.1.Some? then [(Strip(it.0.value), Strip(it.1.value))] + rest else rest
  }

  /** `_extract_amazon_specs`: the bullets first, then the technical table,
      whose rows override bullets with the same key. */
  function AmazonSpecs(bullets: seq<string>, rows: seq<seq<string>>): (r: Dict<string, string>)
    ensures UniqueKeys(r)
  {
    FromPairs(BulletPairs(bullets) + RowPairs(rows))
  }

  /** Every key comes from a bullet or a table row. */
  lemma AmazonSpecsKeys(bullets: seq<string>, rows: seq<seq<string>>, k: string)
    requires HasKey(AmazonSpecs(bullets, rows), k)
    ensures (exists p :: p in BulletPairs(bullets) && p.0 == k) || exists p :: p in RowPairs(rows) && p.0 == k
  {
    var bp, rp := BulletPairs(bullets), RowPairs(rows);
    var all := bp + rp;
    var i :| 0 <= i < |all| && all[i].0 == k;
    if i < |bp| {
      assert all[i] in bp;
    } else {
      assert all[i] in rp;
    }
  }

  /** The last table row with a key decides its value, whatever the
      bullets say. */
  lemma AmazonTableWins(bullets: seq<string>, rows: seq<seq<string>>, i: nat)
    requires i < |RowPairs(rows)|
    requires forall j :: i < j < |RowPairs(rows)| ==> RowPairs(rows)[j].0 != RowPairs(rows)[i].0
    ensures Get(AmazonSpecs(bullets, rows), RowPairs(rows)[i].0) == Some(RowPairs(rows)[i].1)
  {
    FromPairsRight(BulletPairs(bullets), RowPairs(rows), i);
  }

  /** A bullet's value stands when no later bullet and no table row has
      its key. */
  lemma AmazonBulletKept(bullets: seq<string>, rows: seq<seq<string>>, i: nat)
    requires i < |BulletPairs(bullets)|
    requires forall j :: i < j < |BulletPairs(bullets)| ==> BulletPairs(bullets)[j].0 != BulletPairs(bullets)[i].0
    requires forall p :: p in RowPairs(rows) ==> p.0 != BulletPairs(bullets)[i].0
    ensures Get(AmazonSpecs(bullets, rows), BulletPairs(bullets)[i].0) == Some(BulletPairs(bullets)[i].1)
  {
    var bp, rp := BulletPairs(bullets), RowPairs(rows);
    var all := bp + rp;
    assert all[i] == bp[i];
    forall j | i < j < |all| ensures all[j].0 != all[i].0 {
      if j < |bp| {
        assert all[j] == bp[j];
      } else {
        assert all[j] in rp;
      }
    }
  }

  /** The specifications `_extract_generic_specs` looks for, each with the
      case-insensitive pattern `Name[\s]*:[\s]*([k]+)`; the name is the
      pattern text before its first '['. */
  function GenericSpecTable(k: Class): (t: SpecTable)
    ensures Names(t) == ["Battery", "Display", "RAM", "Storage", "Camera"]
  {
    [
      ("Battery", KeyValuePattern("Battery", Lit(":"), k, true)),
      ("Display", KeyValuePattern("Display", Lit(":"), k, true)),
      ("RAM", KeyValuePattern("RAM", Lit(":"), k, true)),
      ("Storage", KeyValuePattern("Storage", Lit(":"), k, true)),
      ("Camera", KeyValuePattern("Camera", Lit(":"), k, true))
    ]
  }

  lemma GenericSpecNamesDistinct(k: Class)
    ensures Distinct(Names(GenericSpecTable(k)))
  {
    var ns := Names(GenericSpecTable(k));
    assert forall i :: 0 <= i < 5 ==> ns[i][0] == "BDRSC"[i];
  }

  /** `_extract_generic_specs` as written: the raw-string class `[^\\n]`
      under re.IGNORECASE ends a value at the first backslash, n or N
      rather than at the end of the line. */
  function GenericSpecsAsWritten(text: string): (r: Dict<string, string>)
    ensures UniqueKeys(r)
    ensures forall j :: 0 <= j < 5 ==> Get(r, GenericSpecTable(NotBackslashOrNAnyCase)[j].0)
                                       == Found(GenericSpecTable(NotBackslashOrNAnyCase)[j].1, text)
  {
    GenericSpecNamesDistinct(NotBackslashOrNAnyCase);
    SpecsFrom(GenericSpecTable(NotBackslashOrNAnyCase), text)
  }

  /** `_extract_generic_specs` with the value running to the end of the
      line: each of the five specifications is present exactly when its
      pattern matches, with the stripped capture as its value. */
  function GenericSpecs(text: string): (r: Dict<string, string>)
    ensures UniqueKeys(r)
    ensures forall k :: HasKey(r, k) ==> k in ["Battery", "Display", "RAM", "Storage", "Camera"]
    ensures forall j :: 0 <= j < 5 ==> Get(r, GenericSpecTable(NotNewline)[j].0) == Found(GenericSpecTable(NotNewline)[j].1, text)
  {
    GenericSpecNamesDistinct(NotNewline);
    SpecsFrom(GenericSpecTable(NotNewline), text)
  }

  /** As written, a value is cut at its first n: `Display: 6.1 inch`
      gives "6.1 i". */
  lemma GenericSpecsAsWrittenCut(j: nat, v: string, rest: string)
    requires j < 5 && |v| > 0 && !IsSpace(v[0])
    requires forall m :: 0 <= m < |v| ==> InClass(NotBackslashOrNAnyCase, v[m])
    ensures Get(GenericSpecsAsWritten(GenericSpecTable(NotNewline)[j].0 + ": " + v + "n" + rest),
                GenericSpecTable(NotNewline)[j].0) == Some(Strip(v))
  {
    var t := GenericSpecTable(NotBackslashOrNAnyCase);
    assert t[j].0 == GenericSpecTable(NotNewline)[j].0;
    KeyValueFound(t[j].0, Lit(":"), NotBackslashOrNAnyCase, true, v, "n" + rest);
    assert t[j].1 == KeyValuePattern(t[j].0, Lit(":"), NotBackslashOrNAnyCase, true);
    assert t[j].0 + ": " + v + "n" + rest == t[j].0 + ": " + v + ("n" + rest);
  }

  /** With the end of the line as the end of the value, `Name: v` gives
      the whole line `v`, stripped. */
  lemma GenericSpecReadsLine(j: nat, v: string, rest: string)
    requires j < 5 && |v| > 0 && !IsSpace(v[0]) && '\n' !in v
    ensures Get(GenericSpecs(GenericSpecTable(NotNewline)[j].0 + ": " + v + "\n" + rest),
                GenericSpecTable(NotNewline)[j].0) == Some(Strip(v))
  {
    var key := GenericSpecTable(NotNewline)[j].0;
    var text := key + ": " + v + "\n" + rest;
    assert text == key + ": " + v + ("\n" + rest);
    assert Get(GenericSpecs(text), key) == Found(GenericSpecTable(NotNewline)[j].1, text);
    GenericRowPattern(NotNewline, j);
    LineValueFound(key, v, "\n" + rest);
  }

  /** A key, ": " and a value that runs to the end of the line. */
  lemma LineValueFound(key: string, v: string, tail: string)
    requires |v| > 0 && !IsSpace(v[0]) && '\n' !in v
    requires tail == "" || tail[0] == '\n'
    ensures Found(KeyValuePattern(key, Lit(":"), NotNewline, true), key + ": " + v + tail) == Some(Strip(v))
  {
    assert forall m :: 0 <= m < |v| ==> InClass(NotNewline, v[m]);
    KeyValueFound(key, Lit(":"), NotNewline, true, v, tail);
  }

  /** Each row of the table pairs a name with the pattern for that name. */
  lemma GenericRowPattern(k: Class, j: nat)
    requires j < 5
    ensures GenericSpecTable(k)[j].1 == KeyValuePattern(GenericSpecTable(k)[j].0, Lit(":"), k, true)
  {
  }

  /** "Display: 6.1 inch\nRAM: 8 GB" gives the display "6.1 i" as written. */
  lemma GenericSpecsCutExample()
    ensures Get(GenericSpecsAsWritten(SpecExample), "Display") == Some("6.1 i")
  {
    assert GenericSpecTable(NotNewline)[1].0 == "Display";
    assert SpecExample == "Display" + ": " + "6.1 i" + "n" + "ch\nRAM: 8 GB";
    GenericSpecsAsWrittenCut(1, "6.1 i", "ch\nRAM: 8 GB");
    StripUnchanged("6.1 i");
  }

  /** The same text gives "6.1 inch" with the value running to the end of
      the line. */
  lemma GenericSpecsLineExample()
    ensures Get(GenericSpecs(SpecExample), "Display") == Some("6.1 inch")
  {
    assert GenericSpecTable(NotNewline)[1].0 == "Display";
    assert SpecExample == "Display" + ": " + "6.1 inch" + "\n" + "RAM: 8 GB";
    GenericSpecReadsLine(1, "6.1 inch", "RAM: 8 GB");
    StripUnchanged("6.1 inch");
  }

  const SpecExample: string := "Display: 6.1 inch\nRAM: 8 GB"

  // ---------------------------------------------------------------------
  // Price and rating from a generic page's text

  /** The generic price patterns: unlike the helpers', they are matched
      with case. */
  const GenericPricePatterns: seq<Pattern> := [
    Pattern([Lit([Rupee]), Star(Space)] + CommaDigits, false),
    Pattern([Lit("Rs"), Opt('.'), Star(Space)] + CommaDigits, false),
    Pattern([Lit("INR"), Star(Space)] + CommaDigits, false),
    Pattern([Lit("Price:"), Star(Space), Opt(Rupee), Star(Space)] + CommaDigits, false)
  ]

  /** `_extract_generic_price`: the first pattern whose capture converts,
      or 0. */
  function GenericPrice(text: string): (r: nat)
    ensures (forall j :: 0 <= j < |GenericPricePatterns| ==> !Helpers.Accepts(Search(GenericPricePatterns[j], text), ParseCommaInt)) ==> r == 0
    ensures r != 0 ==> exists j :: 0 <= j < |GenericPricePatterns| && Helpers.Accepts(Search(GenericPricePatterns[j], text), ParseCommaInt)
                                   && Some(r) == ParseCommaInt(Search(GenericPricePatterns[j], text).value)
                                   && forall m :: 0 <= m < j ==> !Helpers.Accepts(Search(GenericPricePatterns[m], text), ParseCommaInt)
    ensures forall j :: (0 <= j < |GenericPricePatterns| && Helpers.Accepts(Search(GenericPricePatterns[j], text), ParseCommaInt)
                         && forall m :: 0 <= m < j ==> !Helpers.Accepts(Search(GenericPricePatterns[m], text), ParseCommaInt))
                        ==> Some(r) == ParseCommaInt(Search(GenericPricePatterns[j], text).value)
  {
    match Helpers.FirstMatchValue(GenericPricePatterns, text, ParseCommaInt)
    case None => 0
    case Some(v) => v
  }

  /** A page text without any of the case-sensitive markers ₹, Rs, INR and
      Price: has price 0. */
  lemma GenericPriceNeedsMarker(text: string)
    requires !Contains(text, [Rupee]) && !Contains(text, "Rs") && !Contains(text, "INR") && !Contains(text, "Price:")
    ensures GenericPrice(text) == 0
  {
    var ps := GenericPricePatterns;
    LitNowhere([Rupee], text);
    LeadingLitNone(ps[0], text, [Rupee]);
    LitNowhere("Rs", text);
    LeadingLitNone(ps[1], text, "Rs");
    LitNowhere("INR", text);
    LeadingLitNone(ps[2], text, "INR");
    LitNowhere("Price:", text);
    LeadingLitNone(ps[3], text, "Price:");
    assert forall j :: 0 <= j < |ps| ==> Search(ps[j], text).None?;
  }

  /** The generic rating patterns, matched with case. */
  const GenericRatingPatterns: seq<Pattern> := [
    Pattern(Decimal + [Star(Space), Lit("/"), Star(Space), Lit("5")], false),
    Pattern([Lit("Rating:"), Star(Space)] + Decimal, false),
    Pattern(Decimal + [Star(Space), Lit("star"), Opt('s')], false)
  ]

  /** `_extract_generic_rating`: the first pattern whose capture converts,
      or 4.0. There is no range check: "9/5" gives 9.0. */
  function GenericRating(text: string): (r: real)
    ensures r >= 0.0
    ensures (forall j :: 0 <= j < |GenericRatingPatterns| ==> !Helpers.Accepts(Search(GenericRatingPatterns[j], text), ParseFloat)) ==> r == 4.0
    ensures r != 4.0 ==> exists j :: 0 <= j < |GenericRatingPatterns| && Helpers.Accepts(Search(GenericRatingPatterns[j], text), ParseFloat)
                                     && Some(r) == ParseFloat(Search(GenericRatingPatterns[j], text).value)
                                     && forall m :: 0 <= m < j ==> !Helpers.Accepts(Search(GenericRatingPatterns[m], text), ParseFloat)
    ensures forall j :: (0 <= j < |GenericRatingPatterns| && Helpers.Accepts(Search(GenericRatingPatterns[j], text), ParseFloat)
                         && forall m :: 0 <= m < j ==> !Helpers.Accepts(Search(GenericRatingPatterns[m], text), ParseFloat))
                        ==> Some(r) == ParseFloat(Search(GenericRatingPatterns[j], text).value)
  {
    match Helpers.FirstMatchValue(GenericRatingPatterns, text, ParseFloat)
    case None => 4.0
    case Some(v) => v
  }

  /** A page text without digits has the default rating. */
  lemma GenericRatingNeedsDigits(text: string)
    requires AllChars(text, NotDigit)
    ensures GenericRating(text) == 4.0
  {
    var ps := GenericRatingPatterns;
    assert Search(ps[0], text).None? by {
      LeadingDigitsNone(ps[0], text);
    }
    assert Search(ps[1], text).None? by {
      RatingLabelNeedsDigits(text);
    }
    assert Search(ps[2], text).None? by {
      LeadingDigitsNone(ps[2], text);
    }
    Helpers.NoSearchNoValue(ps, text, ParseFloat);
  }

  /** `Rating:[\s]*(\d+...)` needs a digit after the label. */
  lemma RatingLabelNeedsDigits(text: string)
    requires AllChars(text, NotDigit)
    ensures Search(GenericRatingPatterns[1], text).None?
  {
    var p := GenericRatingPatterns[1];
    var es := p.elems;
    assert es[0] == Lit("Rating:") && es[1..] == [Star(Space)] + Decimal;
    forall j | 0 <= j <= |text| ensures MatchAt(p, text, j).None? {
      if LitAt("Rating:", text, j, false) {
        SpacesDecimalFails(text, j + 7, j);
        assert MatchAt(p, text, j) == Match(es[1..], false, text, j + 7, j, j);
      }
    }
  }

  // ---------------------------------------------------------------------
  // _determine_category

  /** The text the category is decided on: the name and the values of the
      specifications, lower-cased. */
  function CategoryText(name: string, specs: Dict<string, string>): string {
    LowerStr(name) + " " + LowerStr(Join(Values(specs), " "))
  }

  function ScraperCategory(name: string, specs: Dict<string, string>): (r: string)
    ensures r == General || exists j :: 0 <= j < |ScraperTable| && r == ScraperTable[j].0
  {
    Categorize(ScraperTable, CategoryText(name, specs))
  }

  /** A keyword in the name, in any letter case, names a category: the
      product is never "general" then. */
  lemma NameKeywordCategorizes(name: string, specs: Dict<string, string>, j: nat, k: nat)
    requires j < |ScraperTable| && k < |ScraperTable[j].1|
    requires Contains(LowerStr(name), ScraperTable[j].1[k])
    ensures ScraperCategory(name, specs) != General
  {
    var text := CategoryText(name, specs);
    ContainsInLeft(LowerStr(name), " " + LowerStr(Join(Values(specs), " ")), ScraperTable[j].1[k]);
    assert LowerStr(name) + (" " + LowerStr(Join(Values(specs), " "))) == text;
    assert ContainsAny(text, ScraperTable[j].1);
    assert FirstCategory(ScraperTable, text).Some?;
    ScraperNamesCategories();
  }

  /** The letter case of the name does not matter. */
  lemma ScraperCategoryIgnoresCase(name: string, specs: Dict<string, string>)
    ensures ScraperCategory(LowerStr(name), specs) == ScraperCategory(name, specs)
  {
    LowerStrTwice(name);
  }

  // ---------------------------------------------------------------------
  // scrape_product

  datatype Site = Amazon | Flipkart | Myntra | Generic

  /** The platform field each branch writes. */
  function PlatformName(s: Site): string {
    match s
    case Amazon => "amazon"
    case Flipkart => "flipkart"
    case Myntra => "myntra"
    case Generic => "generic"
  }

  /** The dispatch of `scrape_product` on the lower-cased URL. */
  function SiteOf(url: string): (s: Site)
    ensures s == Amazon <==> Contains(LowerStr(url), "amazon")
    ensures s == Flipkart <==> !Contains(LowerStr(url), "amazon") && Contains(LowerStr(url), "flipkart")
    ensures s == Myntra <==> !Contains(LowerStr(url), "amazon") && !Contains(LowerStr(url), "flipkart")
                             && Contains(LowerStr(url), "myntra")
  {
    var u := LowerStr(url);
    if Contains(u, "amazon") then Amazon
    else if Contains(u, "flipkart") then Flipkart
    else if Contains(u, "myntra") then Myntra
    else Generic
  }

  lemma SiteIgnoresCase(url: string)
    ensures SiteOf(LowerStr(url)) == SiteOf(url)
  {
    LowerStrTwice(url);
  }

  /** What the selectors of a fetched page found. Each selector that found
      no element is `None`; one that found an element holds its text, which
      may be empty. */
  datatype Page = Page(
    names: seq<Option<string>>,                    // name selectors, in the order tried
    prices: seq<Option<string>>,                   // price selectors, in the order tried
    rating: Option<string>,                        // the rating element
    bullets: seq<string>,                          // Amazon feature bullets
    rows: seq<seq<string>>,                        // specification table rows, as their cells
    items: seq<(Option<string>, Option<string>)>,  // Myntra detail rows: key and value elements
    text: string)                                  // the page text, for generic sites

  datatype Product = Product(
    name: string, price: nat, rating: real, specs: Dict<string, string>,
    category: string, platform: string, url: string)

  /** The specifications each platform's extractor reads, with the generic
      extractor's patterns as written. */
  function SiteSpecs(s: Site, page: Page): (r: Dict<string, string>)
    ensures UniqueKeys(r)
    ensures s == Generic ==> forall j :: 0 <= j < 5 ==>
              Get(r, GenericSpecTable(NotBackslashOrNAnyCase)[j].0)
              == Found(GenericSpecTable(NotBackslashOrNAnyCase)[j].1, page.text)
  {
    match s
    case Amazon => AmazonSpecs(page.bullets, page.rows)
    case Flipkart => FromPairs(RowPairs(page.rows))
    case Myntra => FromPairs(ItemPairs(page.items))
    case Generic => GenericSpecsAsWritten(page.text)
  }

  /** `scrape_product`: `page` is what fetching the URL gave, `None` when
      the request or the parsing raised, which makes the result `None`. */
  function ScrapeProduct(url: string, page: Option<Page>): (r: Option<Product>)
    ensures r.None? <==> page.None?
    ensures r.Some? ==> r.value.platform == PlatformName(SiteOf(url)) && r.value.url == url
    ensures r.Some? ==> r.value.rating >= 0.0 && UniqueKeys(r.value.specs)
    ensures r.Some? ==> r.value.category == ScraperCategory(r.value.name, r.value.specs)
    ensures r.Some? ==> r.value.name == FirstText(page.value.names)
    ensures r.Some? ==> r.value.specs == SiteSpecs(SiteOf(url), page.value)
    ensures r.Some? && SiteOf(url) != Generic ==> r.value.price == SelectorPrice(page.value.prices, ParsePrice)
                                                  && r.value.rating == ElementRating(page.value.rating)
    ensures r.Some? && SiteOf(url) == Generic ==> r.value.price == GenericPrice(page.value.text)
                                                  && r.value.rating == GenericRating(page.value.text)
  {
    match page
    case None => None
    case Some(p) =>
      var site := SiteOf(url);
      var name := FirstText(p.names);
      var price := if site == Generic then GenericPrice(p.text) else SelectorPrice(p.prices, ParsePrice);
      var rating := if site == Generic then GenericRating(p.text) else ElementRating(p.rating);
      var specs := SiteSpecs(site, p);
      Some(Product(name, price, rating, specs, ScraperCategory(name, specs), PlatformName(site), url))
  }

  /** `scrape_product` with the corrected price parser and generic
      specification patterns: the same product except for the selector
      price, the generic specifications, and the category they feed. */
  function ScrapeProductFixed(url: string, page: Option<Page>): (r: Option<Product>)
    ensures r.None? <==> page.None?
    ensures r.Some? ==> var w := ScrapeProduct(url, page).value;
              && r.value.name == w.name && r.value.rating == w.rating
              && r.value.platform == w.platform && r.value.url == w.url
              && r.value.category == ScraperCategory(r.value.name, r.value.specs)
              && UniqueKeys(r.value.specs)
    ensures r.Some? && SiteOf(url) != Generic ==> var w := ScrapeProduct(url, page).value;
              r.value.price == SelectorPrice(page.value.prices, ParsePriceFixed) && r.value.specs == w.specs
    ensures r.Some? && SiteOf(url) == Generic ==> var w := ScrapeProduct(url, page).value;
              r.value.price == w.price && r.value.specs == GenericSpecs(page.value.text)
  {
    match page
    case None => None
    case Some(p) =>
      var w := ScrapeProduct(url, page).value;
      var site := SiteOf(url);
      var price := if site == Generic then w.price else SelectorPrice(p.prices, ParsePriceFixed);
      var specs := if site == Generic then GenericSpecs(p.text) else w.specs;
      Some(w.(price := price, specs := specs, category := ScraperCategory(w.name, specs)))
  }

  /** When no selector text holds a decimal point, the corrected scrape
      gives the product as written. */
  lemma ScrapeFixedAgrees(url: string, page: Page)
    requires SiteOf(url) != Generic
    requires forall i :: 0 <= i < |page.prices| && page.prices[i].Some? ==> '.' !in Strip(page.prices[i].value)
    ensures ScrapeProductFixed(url, Some(page)) == ScrapeProduct(url, Some(page))
  {
    forall i | 0 <= i < |page.prices| && page.prices[i].Some?
      ensures ParsePriceFixed(Strip(page.prices[i].value)) == ParsePrice(Strip(page.prices[i].value))
    {
      ParsePriceNoDot(Strip(page.prices[i].value));
    }
    SelectorPriceSame(page.prices);
  }

  /** Without a decimal point the two price parsers agree. */
  lemma ParsePriceNoDot(t: string)
    requires '.' !in t
    ensures ParsePriceFixed(t) == ParsePrice(t)
  {
    KeepSame(t, NotCurrencyJunk, NotPriceJunk);
  }

  /** Parsers that agree on every element found pick the same price. */
  lemma SelectorPriceSame(found: seq<Option<string>>)
    requires forall i :: 0 <= i < |found| && found[i].Some? ==>
               ParsePriceFixed(Strip(found[i].value)) == ParsePrice(Strip(found[i].value))
    ensures SelectorPrice(found, ParsePriceFixed) == SelectorPrice(found, ParsePrice)
  {
    var a, b := SelectorPrice(found, ParsePriceFixed), SelectorPrice(found, ParsePrice);
    assert forall i :: 0 <= i < |found| ==> (PriceFound(found[i], ParsePriceFixed) <==> PriceFound(found[i], ParsePrice));
    if a != 0 {
      var i :| 0 <= i < |found| && PriceFound(found[i], ParsePriceFixed) && a == ParsePriceFixed(Strip(found[i].value))
               && forall m :: 0 <= m < i ==> !PriceFound(found[m], ParsePriceFixed);
      var j :| 0 <= j < |found| && PriceFound(found[j], ParsePrice) && b == ParsePrice(Strip(found[j].value))
               && forall m :: 0 <= m < j ==> !PriceFound(found[m], ParsePrice);
      assert i == j;
    }
  }
}
