/**
 * Specifications read from free text with one regular expression each: every
 * pattern that matches contributes its specification name and its stripped
 * capture, in table order.
 */
module SpecPatterns {
  import opened Base
  import opened Chars
  import opened Dicts
  import opened Regex

  /** Specification names, each with the pattern that reads its value. */
  type SpecTable = seq<(string, Pattern)>

  function Names(t: SpecTable): (r: seq<string>)
    ensures |r| == |t| && forall j :: 0 <= j < |t| ==> r[j] == t[j].0
  {
    seq(|t|, j requires 0 <= j < |t| => t[j].0)
  }

  /** `match.group(1).strip()` when the pattern matches. */
  function Found(p: Pattern, text: string): Option<string> {
    match Search(p, text)
    case None => None
    case Some(c) => Some(Strip(c))
  }

  function FoundAll(t: SpecTable, text: string): (r: seq<Option<string>>)
    ensures |r| == |t| && forall j :: 0 <= j < |t| ==> r[j] == Found(t[j].1, text)
  {
    seq(|t|, j requires 0 <= j < |t| => Found(t[j].1, text))
  }

  /** The loop `for name, pattern in table: if match: specs[name] = value`:
      with distinct names, each name holds what its own pattern found, and
      nothing else is in the dict. */
  function SpecsFrom(t: SpecTable, text: string): (r: Dict<string, string>)
    ensures UniqueKeys(r)
    ensures forall k :: HasKey(r, k) ==> k in Names(t)
    ensures Distinct(Names(t)) ==> forall j :: 0 <= j < |t| ==> Get(r, t[j].0) == Found(t[j].1, text)
  {
    FromPresent(Names(t), FoundAll(t, text))
  }

  /** `key[\s]*:[\s]*([k]+)`, or with `:?` for the colon: the value
      pattern of a specification. */
  function KeyValuePattern(key: string, colon: Elem, k: Class, ic: bool): Pattern {
    Pattern([Lit(key), Star(Space), colon, Star(Space), Open, Plus(k), Close], ic)
  }

  /** A text that starts with `key: ` and a value character matches there,
      capturing the run of the value class. */
  lemma KeyValueMatch(key: string, colon: Elem, k: Class, ic: bool, s: string)
    requires colon == Lit(":") || colon == Opt(':')
    requires |s| > |key| + 2 && s[..|key|] == key && s[|key|] == ':' && s[|key| + 1] == ' '
    requires !IsSpace(s[|key| + 2]) && InClass(k, s[|key| + 2])
    ensures Search(KeyValuePattern(key, colon, k, ic), s) == Some(s[|key| + 2..Span(k, s, |key| + 2)])
  {
    var p := KeyValuePattern(key, colon, k, ic);
    var n := |key|;
    assert LitAt(key, s, 0, ic) by {
      forall m | 0 <= m < n ensures Same(key[m], s[m], ic) {
        assert s[..n][m] == s[m];
      }
    }
    AfterKeyMatch(key, colon, k, ic, s);
    assert MatchAt(p, s, 0) == Some(s[n + 2..Span(k, s, n + 2)]);
  }

  /** After the key, the separator `: ` is consumed and the value run captured. */
  lemma AfterKeyMatch(key: string, colon: Elem, k: Class, ic: bool, s: string)
    requires colon == Lit(":") || colon == Opt(':')
    requires |s| > |key| + 2 && s[|key|] == ':' && s[|key| + 1] == ' '
    requires !IsSpace(s[|key| + 2]) && InClass(k, s[|key| + 2])
    ensures Match(KeyValuePattern(key, colon, k, ic).elems[1..], ic, s, |key|, 0, 0)
            == Some(s[|key| + 2..Span(k, s, |key| + 2)])
  {
    var es := KeyValuePattern(key, colon, k, ic).elems;
    var n := |key|;
    var v := Some(s[n + 2..Span(k, s, n + 2)]);
    assert es[3..] == [Star(Space), Open, Plus(k), Close];
    AfterColonMatch(k, ic, s, n + 1);
    assert Match(es[2..], ic, s, n, 0, 0) == v by {
      assert es[2..][0] == colon && es[2..][1..] == es[3..];
      assert Same(':', s[n], ic);
      if colon == Lit(":") {
        assert LitAt(":", s, n, ic);
      }
    }
    assert Match(es[1..], ic, s, n, 0, 0) == v by {
      assert es[1..][0] == Star(Space) && es[1..][1..] == es[2..];
      assert Span(Space, s, n) == n;
      assert Match(es[1..], ic, s, n, 0, 0) == Back(es[2..], ic, s, n, n, 0, 0);
    }
  }

  /** One space, then the value run captured. */
  lemma AfterColonMatch(k: Class, ic: bool, s: string, i: nat)
    requires i + 1 < |s| && s[i] == ' ' && !IsSpace(s[i + 1]) && InClass(k, s[i + 1])
    ensures Match([Star(Space), Open, Plus(k), Close], ic, s, i, 0, 0) == Some(s[i + 1..Span(k, s, i + 1)])
  {
    var es := [Star(Space), Open, Plus(k), Close];
    assert Span(Space, s, i) == i + 1;
    assert es[1..] == [Open, Plus(k), Close];
    TailCapture(k, ic, s, i + 1, 0, 0);
    assert Match(es, ic, s, i, 0, 0) == Back(es[1..], ic, s, i, i + 1, 0, 0);
  }

  /** The value of `key: v` is the stripped run `v` of the value class,
      up to the first character outside it. */
  lemma KeyValueFound(key: string, colon: Elem, k: Class, ic: bool, v: string, tail: string)
    requires colon == Lit(":") || colon == Opt(':')
    requires |v| > 0 && !IsSpace(v[0]) && forall m :: 0 <= m < |v| ==> InClass(k, v[m])
    requires tail == "" || !InClass(k, tail[0])
    ensures Found(KeyValuePattern(key, colon, k, ic), key + ": " + v + tail) == Some(Strip(v))
  {
    var s := key + ": " + v + tail;
    var n := |key|;
    assert s[..n] == key && s[n] == ':' && s[n + 1] == ' ' && s[n + 2] == v[0];
    KeyValueMatch(key, colon, k, ic, s);
    assert s[n + 2..n + 2 + |v|] == v;
    assert n + 2 + |v| == |s| || s[n + 2 + |v|] == tail[0];
    SpanOver(k, s, n + 2, v);
  }
}
