/**
 * A backtracking matcher for the small fragment of Python's `re` that the
 * parsers use: literals, `c?`, `X*` and `X+` over a character class, and one
 * capture group. `Search` is `re.search(...).group(1)`: the leftmost start
 * position at which the pattern matches, and at that position the first
 * match in greedy backtracking order.
 */
module Regex {
  import opened Base
  import opened Chars

  const Rupee: char := '\U{20B9}'

  datatype Class =
    | Digit            // \d
    | Space            // \s, [\s]
    | DigitOrComma     // [0-9,]
    | NotBackslashOrN  // [^\\n] in a raw string: neither a backslash nor the letter n
    | NotBackslashOrNAnyCase  // the same class under re.IGNORECASE, which also excludes N
    | NotNewline       // [^\n]: anything but a line feed

  predicate InClass(k: Class, c: char) {
    match k
    case Digit => IsDigit(c)
    case Space => IsSpace(c)
    case DigitOrComma => IsDigit(c) || c == ','
    case NotBackslashOrN => c != '\\' && c != 'n'
    case NotBackslashOrNAnyCase => c != '\\' && Lower(c) != 'n'
    case NotNewline => c != '\n'
  }

  datatype Elem =
    | Lit(text: string)  // a literal
    | Opt(c: char)       // c?
    | Star(k: Class)     // [k]*
    | Plus(k: Class)     // [k]+
    | Open               // start of group 1
    | Close              // end of group 1

  /** A compiled pattern; `ignoreCase` is the `re.IGNORECASE` flag. */
  datatype Pattern = Pattern(elems: seq<Elem>, ignoreCase: bool)

  predicate Same(a: char, b: char, ic: bool) {
    if ic then Lower(a) == Lower(b) else a == b
  }

  predicate LitAt(t: string, s: string, i: nat, ic: bool) {
    i + |t| <= |s| && forall k :: 0 <= k < |t| ==> Same(t[k], s[i + k], ic)
  }

  /** End of the longest run of class `k` starting at `i`. */
  function Span(k: Class, s: string, i: nat): (e: nat)
    requires i <= |s|
    ensures i <= e <= |s|
    ensures forall j :: i <= j < e ==> InClass(k, s[j])
    ensures e == |s| || !InClass(k, s[e])
    decreases |s| - i
  {
    if i < |s| && InClass(k, s[i]) then Span(k, s, i + 1) else i
  }

  /** Matches `es` at position `i`; `cs..ce` is the capture so far. The result
      is the text of group 1 of the first successful match. */
  function Match(es: seq<Elem>, ic: bool, s: string, i: nat, cs: nat, ce: nat): Option<string>
    requires cs <= ce <= i <= |s|
    decreases |es|, |s| + 1
  {
    if |es| == 0 then Some(s[cs..ce])
    else
      match es[0]
      case Lit(t) =>
        if LitAt(t, s, i, ic) then Match(es[1..], ic, s, i + |t|, cs, ce) else None
      case Opt(c) =>
        var taken := if i < |s| && Same(c, s[i], ic) then Match(es[1..], ic, s, i + 1, cs, ce) else None;
        if taken.Some? then taken else Match(es[1..], ic, s, i, cs, ce)
      case Star(k) =>
        Back(es[1..], ic, s, i, Span(k, s, i), cs, ce)
      case Plus(k) =>
        var e := Span(k, s, i);
        if e > i then Back(es[1..], ic, s, i + 1, e, cs, ce) else None
      case Open =>
        Match(es[1..], ic, s, i, i, i)
      case Close =>
        Match(es[1..], ic, s, i, cs, i)
  }

  /** Backtracking over a repetition: tries the rest of the pattern after the
      repetition ends at `e`, then at `e - 1`, and so on down to `lo`. */
  function Back(rest: seq<Elem>, ic: bool, s: string, lo: nat, e: nat, cs: nat, ce: nat): Option<string>
    requires cs <= ce <= lo <= e <= |s|
    decreases |rest| + 1, e - lo
  {
    var r := Match(rest, ic, s, e, cs, ce);
    if r.Some? || e == lo then r else Back(rest, ic, s, lo, e - 1, cs, ce)
  }

  /** The pattern matched with its start at `i`. */
  function MatchAt(p: Pattern, s: string, i: nat): Option<string>
    requires i <= |s|
  {
    Match(p.elems, p.ignoreCase, s, i, i, i)
  }

  /** `re.search` from position `i`: the match at the leftmost start position. */
  function SearchFrom(p: Pattern, s: string, i: nat): (m: Option<string>)
    requires i <= |s|
    ensures m.None? <==> forall j :: i <= j <= |s| ==> MatchAt(p, s, j).None?
    ensures m.Some? ==> exists j :: i <= j <= |s| && MatchAt(p, s, j) == m
                                    && forall k :: i <= k < j ==> MatchAt(p, s, k).None?
    decreases |s| - i
  {
    var m := MatchAt(p, s, i);
    if m.Some? || i == |s| then m else SearchFrom(p, s, i + 1)
  }

  function Search(p: Pattern, s: string): Option<string> {
    SearchFrom(p, s, 0)
  }

  // ---------------------------------------------------------------------
  // `(\d+)\s*unit`: the first maximal digit run followed by a unit

  /** The pattern `(\d+)\s*unit` (or `(\d+)` when `unit` is empty). */
  function UnitPattern(unit: string): Pattern {
    if unit == "" then Pattern([Open, Plus(Digit), Close], true)
    else Pattern([Open, Plus(Digit), Close, Star(Space), Lit(unit)], true)
  }

  /** A unit is empty or starts with a letter, so it can neither continue a
      digit run nor a run of spaces. */
  predicate ValidUnit(unit: string) {
    unit == "" || IsLetter(unit[0])
  }

  /** Reference scanner, written without backtracking: walks the maximal digit
      runs from `i` and returns the first one that is followed by optional
      whitespace and `unit` (compared case-insensitively). */
  function ScanUnit(s: string, unit: string, i: nat): (r: Option<string>)
    requires i <= |s|
    ensures r.Some? ==> |r.value| > 0 && AllDigits(r.value)
    decreases |s| - i
  {
    if i == |s| then None
    else if !IsDigit(s[i]) then ScanUnit(s, unit, i + 1)
    else
      var e := Span(Digit, s, i);
      if unit == "" || LitAt(unit, s, Span(Space, s, e), true) then Some(s[i..e])
      else ScanUnit(s, unit, e)
  }

  lemma BackAllFail(rest: seq<Elem>, ic: bool, s: string, lo: nat, e: nat, cs: nat, ce: nat)
    requires cs <= ce <= lo <= e <= |s|
    requires forall j :: lo <= j <= e ==> Match(rest, ic, s, j, cs, ce).None?
    ensures Back(rest, ic, s, lo, e, cs, ce).None?
    decreases e - lo
  {
    if e > lo {
      BackAllFail(rest, ic, s, lo, e - 1, cs, ce);
    }
  }

  /** Inside the unit suffix: `\s*unit` at `j` succeeds only at the end of the
      space run, because the unit does not start with a space. */
  lemma SuffixAt(unit: string, s: string, j: nat, cs: nat, ce: nat)
    requires unit != "" && ValidUnit(unit)
    requires cs <= ce <= j <= |s|
    ensures Match([Star(Space), Lit(unit)], true, s, j, cs, ce)
            == if LitAt(unit, s, Span(Space, s, j), true) then Some(s[cs..ce]) else None
  {
    var f := Span(Space, s, j);
    var rest := [Lit(unit)];
    assert [Star(Space), Lit(unit)][1..] == rest;
    assert rest[1..] == [];
    assert Match([Star(Space), Lit(unit)], true, s, j, cs, ce) == Back(rest, true, s, j, f, cs, ce);
    if LitAt(unit, s, f, true) {
      assert Match(rest, true, s, f, cs, ce) == Match([], true, s, f + |unit|, cs, ce);
    } else {
      forall g | j <= g <= f
        ensures Match(rest, true, s, g, cs, ce).None?
      {
        if g < f {
          assert IsSpace(s[g]);
          assert !Same(unit[0], s[g], true);
        }
      }
      BackAllFail(rest, true, s, j, f, cs, ce);
    }
  }

  /** After the digits: closing the group at `e` and matching the suffix. */
  lemma AfterDigits(unit: string, s: string, i: nat, e: nat)
    requires ValidUnit(unit)
    requires i < e <= |s|
    ensures Match(UnitPattern(unit).elems[2..], true, s, e, i, i)
            == if unit == "" || LitAt(unit, s, Span(Space, s, e), true) then Some(s[i..e]) else None
  {
    var es := UnitPattern(unit).elems[2..];
    if unit == "" {
      assert es == [Close];
    } else {
      assert es == [Close, Star(Space), Lit(unit)];
      assert es[1..] == [Star(Space), Lit(unit)];
      SuffixAt(unit, s, e, i, e);
    }
  }

  /** The backtracking match of `(\d+)\s*unit` at `i` is the greedy one. */
  lemma UnitMatchAt(unit: string, s: string, i: nat)
    requires ValidUnit(unit) && i <= |s|
    ensures MatchAt(UnitPattern(unit), s, i)
            == if i < |s| && IsDigit(s[i]) && (unit == "" || LitAt(unit, s, Span(Space, s, Span(Digit, s, i)), true))
               then Some(s[i..Span(Digit, s, i)]) else None
  {
    var es := UnitPattern(unit).elems;
    assert es[0] == Open && es[1] == Plus(Digit);
    assert es[1..][1..] == es[2..];
    var e := Span(Digit, s, i);
    assert MatchAt(UnitPattern(unit), s, i) == Match(es[1..], true, s, i, i, i);
    if e > i {
      assert Match(es[1..], true, s, i, i, i) == Back(es[2..], true, s, i + 1, e, i, i);
      AfterDigits(unit, s, i, e);
      if !(unit == "" || LitAt(unit, s, Span(Space, s, e), true)) {
        forall j | i + 1 <= j <= e
          ensures Match(es[2..], true, s, j, i, i).None?
        {
          if j < e {
            assert IsDigit(s[j]);
            if unit != "" {
              assert es[2..][1..] == [Star(Space), Lit(unit)];
              SuffixAt(unit, s, j, i, j);
              assert Span(Space, s, j) == j;
              assert !Same(unit[0], s[j], true);
            }
          } else {
            AfterDigits(unit, s, i, j);
          }
        }
        BackAllFail(es[2..], true, s, i + 1, e, i, i);
      }
    }
  }

  /** `re.search(r'(\d+)\s*unit', s, re.IGNORECASE).group(1)` is the first
      maximal digit run that is followed by optional whitespace and the unit. */
  lemma {:induction false} UnitSearchIsScan(unit: string, s: string, i: nat)
    requires ValidUnit(unit) && i <= |s|
    ensures SearchFrom(UnitPattern(unit), s, i) == ScanUnit(s, unit, i)
    decreases |s| - i
  {
    var p := UnitPattern(unit);
    UnitMatchAt(unit, s, i);
    if i == |s| || !IsDigit(s[i]) {
      if i < |s| {
        UnitSearchIsScan(unit, s, i + 1);
      }
    } else {
      var e := Span(Digit, s, i);
      if !(unit == "" || LitAt(unit, s, Span(Space, s, e), true)) {
        forall j | i <= j < e
          ensures MatchAt(p, s, j).None?
        {
          UnitMatchAt(unit, s, j);
          assert Span(Digit, s, j) == e by { SpanFrom(Digit, s, i, j); }
        }
        SearchSkip(p, s, i, e);
        UnitSearchIsScan(unit, s, e);
      }
    }
  }

  /** The scanner passes over characters that are not digits. */
  lemma {:induction false} ScanSkip(s: string, unit: string, i: nat, j: nat)
    requires i <= j <= |s|
    requires forall k :: i <= k < j ==> !IsDigit(s[k])
    ensures ScanUnit(s, unit, i) == ScanUnit(s, unit, j)
    decreases j - i
  {
    if i < j {
      ScanSkip(s, unit, i + 1, j);
    }
  }

  /** A run that contains position `j` ends where the run from its start ends. */
  lemma SpanFrom(k: Class, s: string, i: nat, j: nat)
    requires i <= |s| && i <= j <= Span(k, s, i)
    ensures Span(k, s, j) == Span(k, s, i)
    decreases j - i
  {
    if j > i {
      SpanFrom(k, s, i + 1, j);
    }
  }

  /** Positions at which nothing matches can be skipped. */
  lemma SearchSkip(p: Pattern, s: string, i: nat, e: nat)
    requires i <= e <= |s|
    requires forall j :: i <= j < e ==> MatchAt(p, s, j).None?
    ensures SearchFrom(p, s, i) == SearchFrom(p, s, e)
    decreases e - i
  {
    if i < e {
      SearchSkip(p, s, i + 1, e);
    }
  }

  /** `([0-9,]+)`, the amount captured by the integer price patterns. */
  const CommaDigits: seq<Elem> := [Open, Plus(DigitOrComma), Close]

  /** A run of class `k` that is exactly `v` ends after `v`. */
  lemma SpanOver(k: Class, s: string, i: nat, v: string)
    requires i + |v| <= |s| && s[i..i + |v|] == v
    requires forall m :: 0 <= m < |v| ==> InClass(k, v[m])
    requires i + |v| == |s| || !InClass(k, s[i + |v|])
    ensures Span(k, s, i) == i + |v|
    decreases |v|
  {
    if |v| > 0 {
      assert s[i] == v[0];
      assert s[i + 1..i + 1 + |v[1..]|] == v[1..];
      SpanOver(k, s, i + 1, v[1..]);
    }
  }

  /** A group around `[k]+` that closes the pattern captures the whole run. */
  lemma TailCapture(k: Class, ic: bool, s: string, i: nat, cs: nat, ce: nat)
    requires cs <= ce <= i < |s| && InClass(k, s[i])
    ensures Match([Open, Plus(k), Close], ic, s, i, cs, ce) == Some(s[i..Span(k, s, i)])
  {
    var es: seq<Elem> := [Open, Plus(k), Close];
    var e := Span(k, s, i);
    assert es[1..][1..] == [Close] && es[1..][0] == Plus(k);
    assert Match([Close], ic, s, e, i, i) == Match([], ic, s, e, i, e);
    assert Match(es[1..], ic, s, i, i, i) == Back([Close], ic, s, i + 1, e, i, i);
  }

  // ---------------------------------------------------------------------
  // `(\d+\.?\d*)`: the first number, with an optional decimal part

  /** `(\d+\.?\d*)`, the number group of the rating patterns. */
  const Decimal: seq<Elem> := [Open, Plus(Digit), Opt('.'), Star(Digit), Close]

  /** End of the longest `\d+\.?\d*` whose digits start at `i`. */
  function DecimalEnd(s: string, i: nat): (q: nat)
    requires i <= |s|
    ensures i <= q <= |s|
  {
    var e := Span(Digit, s, i);
    if e < |s| && s[e] == '.' then Span(Digit, s, e + 1) else e
  }

  /** Reference scanner, written without backtracking: the number that
      starts at the first digit from `i` on. */
  function ScanDecimal(s: string, i: nat): (r: Option<string>)
    requires i <= |s|
    decreases |s| - i
  {
    if i == |s| then None
    else if IsDigit(s[i]) then Some(s[i..DecimalEnd(s, i)])
    else ScanDecimal(s, i + 1)
  }

  /** `\d*)` at `p` closes the group after the digits that follow. */
  lemma DecimalTail(s: string, i: nat, p: nat)
    requires i <= p <= |s|
    ensures Match(Decimal[3..], false, s, p, i, i) == Some(s[i..Span(Digit, s, p)])
  {
    var es := Decimal[3..];
    var f := Span(Digit, s, p);
    assert es[0] == Star(Digit) && es[1..] == [Close];
    assert Match(es[1..], false, s, f, i, i) == Match([], false, s, f, i, f);
    assert Match(es, false, s, p, i, i) == Back(es[1..], false, s, p, f, i, i);
  }

  /** The backtracking match of `(\d+\.?\d*)` at `i` is the greedy one. */
  lemma DecimalMatchAt(s: string, i: nat)
    requires i <= |s|
    ensures MatchAt(Pattern(Decimal, false), s, i)
            == if i < |s| && IsDigit(s[i]) then Some(s[i..DecimalEnd(s, i)]) else None
  {
    var es := Decimal;
    var e := Span(Digit, s, i);
    assert es[1..][0] == Plus(Digit) && es[1..][1..] == es[2..];
    assert MatchAt(Pattern(Decimal, false), s, i) == Match(es[1..], false, s, i, i, i);
    if e > i {
      assert Match(es[1..], false, s, i, i, i) == Back(es[2..], false, s, i + 1, e, i, i);
      assert es[2..][0] == Opt('.') && es[2..][1..] == es[3..];
      DecimalTail(s, i, e);
      if e < |s| && s[e] == '.' {
        DecimalTail(s, i, e + 1);
        assert Same('.', s[e], false);
        assert Match(es[2..], false, s, e, i, i) == Match(es[3..], false, s, e + 1, i, i);
      } else {
        assert !(e < |s| && Same('.', s[e], false));
        assert Match(es[2..], false, s, e, i, i) == Match(es[3..], false, s, e, i, i);
        assert Span(Digit, s, e) == e;
      }
    }
  }

  /** `re.search(r'(\d+\.?\d*)', s).group(1)` is the scanner's number. */
  lemma {:induction false} DecimalSearchIsScan(s: string, i: nat)
    requires i <= |s|
    ensures SearchFrom(Pattern(Decimal, false), s, i) == ScanDecimal(s, i)
    decreases |s| - i
  {
    DecimalMatchAt(s, i);
    if i < |s| && !IsDigit(s[i]) {
      DecimalSearchIsScan(s, i + 1);
    }
  }

  /** `(\d+\.?\d*)` fails where no digit stands. */
  lemma DecimalNeedsDigit(s: string, g: nat, cs: nat)
    requires cs <= g <= |s|
    requires g == |s| || !IsDigit(s[g])
    ensures Match(Decimal, false, s, g, cs, cs).None?
  {
    assert Decimal[0] == Open && Decimal[1..][0] == Plus(Digit);
    assert Span(Digit, s, g) == g;
    assert Match(Decimal, false, s, g, cs, cs) == Match(Decimal[1..], false, s, g, g, g);
  }

  /** `[\s]*(\d+\.?\d*)` fails everywhere in a text without digits. */
  lemma SpacesDecimalFails(s: string, h: nat, cs: nat)
    requires cs <= h <= |s| && AllChars(s, NotDigit)
    ensures Match([Star(Space)] + Decimal, false, s, h, cs, cs).None?
  {
    var b := Span(Space, s, h);
    forall g | h <= g <= b ensures Match(Decimal, false, s, g, cs, cs).None? {
      DecimalNeedsDigit(s, g, cs);
    }
    BackAllFail(Decimal, false, s, h, b, cs, cs);
    assert ([Star(Space)] + Decimal)[0] == Star(Space) && ([Star(Space)] + Decimal)[1..] == Decimal;
  }

  // ---------------------------------------------------------------------
  // Patterns that need an anchor

  /** A case-insensitive literal match is an occurrence in the lower-cased text. */
  lemma LitAtLower(t: string, s: string, j: nat)
    requires LitAt(t, s, j, true)
    ensures Contains(LowerStr(s), LowerStr(t))
  {
    var ls, lt := LowerStr(s), LowerStr(t);
    assert ls[j..j + |t|] == lt;
    assert OccursAt(ls, lt, j);
  }

  /** A literal matched with case matches only where it occurs. */
  lemma LitNowhere(t: string, s: string)
    requires !Contains(s, t)
    ensures forall j: nat :: j <= |s| ==> !LitAt(t, s, j, false)
  {
    forall j: nat | j <= |s| ensures !LitAt(t, s, j, false) {
      NotOccursNotLit(t, s, j);
    }
  }

  /** A word whose lower-case form is absent from the lower-cased text
      matches nowhere ignoring case. */
  lemma LitNowhereLower(t: string, s: string)
    requires !Contains(LowerStr(s), LowerStr(t))
    ensures forall j: nat :: j <= |s| ==> !LitAt(t, s, j, true)
  {
    forall j: nat | j <= |s| ensures !LitAt(t, s, j, true) {
      NotOccursLowerNotLit(t, s, j);
    }
  }

  lemma NotOccursLowerNotLit(t: string, s: string, j: nat)
    requires !OccursAt(LowerStr(s), LowerStr(t), j)
    ensures !LitAt(t, s, j, true)
  {
    if j + |t| <= |s| {
      var ls, lt := LowerStr(s), LowerStr(t);
      var w := ls[j..j + |t|];
      assert w != lt;
      var k :| 0 <= k < |t| && w[k] != lt[k];
      assert w[k] == Lower(s[j + k]);
      assert !Same(t[k], s[j + k], true);
    }
  }

  lemma NotOccursNotLit(t: string, s: string, j: nat)
    requires !OccursAt(s, t, j)
    ensures !LitAt(t, s, j, false)
  {
    if j + |t| <= |s| {
      var w := s[j..j + |t|];
      assert w != t;
      var k :| 0 <= k < |t| && w[k] != t[k];
      assert !Same(t[k], s[j + k], false);
    }
  }

  /** A pattern that starts with a literal matches nowhere the literal does
      not occur. */
  lemma LeadingLitNone(p: Pattern, s: string, t: string)
    requires |p.elems| > 0 && p.elems[0] == Lit(t)
    requires forall j: nat :: j <= |s| ==> !LitAt(t, s, j, p.ignoreCase)
    ensures Search(p, s).None?
  {
    forall j | 0 <= j <= |s| ensures MatchAt(p, s, j).None? {
      assert !LitAt(t, s, j, p.ignoreCase);
    }
  }

  /** A pattern that starts with a group around `\d+` matches nowhere in a
      text without digits. */
  lemma LeadingDigitsNone(p: Pattern, s: string)
    requires |p.elems| > 1 && p.elems[0] == Open && p.elems[1] == Plus(Digit)
    requires forall j :: 0 <= j < |s| ==> !IsDigit(s[j])
    ensures Search(p, s).None?
  {
    forall j | 0 <= j <= |s| ensures MatchAt(p, s, j).None? {
      var es := p.elems;
      assert es[1..][0] == Plus(Digit);
      assert Span(Digit, s, j) == j;
      assert Match(es[1..], p.ignoreCase, s, j, j, j).None?;
      assert MatchAt(p, s, j) == Match(es[1..], p.ignoreCase, s, j, j, j);
    }
  }
}
