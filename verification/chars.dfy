/**
 * ASCII character classes and the string operations of Python's `str` that the
 * parsers of the system use. Only ASCII is given a case and a class: `lower()`
 * leaves every other character alone, `\d` is 0-9 and `\w` is [A-Za-z0-9_].
 */
module Chars {
  import opened Base

  predicate IsDigit(c: char) {
    '0' <= c <= '9'
  }

  /** Python's `str.isspace()` on ASCII, which is also what `\s` matches:
      tab to carriage return, the separators 0x1C to 0x1F, and space. */
  predicate IsSpace(c: char) {
    9 <= c as int <= 13 || 28 <= c as int <= 32
  }

  predicate IsLetter(c: char) {
    'a' <= c <= 'z' || 'A' <= c <= 'Z'
  }

  /** The regular-expression class `\w`. */
  predicate IsWordChar(c: char) {
    IsLetter(c) || IsDigit(c) || c == '_'
  }

  function Lower(c: char): char {
    if 'A' <= c <= 'Z' then (c as int + 32) as char else c
  }

  function LowerStr(s: string): (r: string)
    ensures |r| == |s|
    ensures forall i :: 0 <= i < |s| ==> r[i] == Lower(s[i])
  {
    seq(|s|, i requires 0 <= i < |s| => Lower(s[i]))
  }

  /** Lower-casing twice is lower-casing once. */
  lemma LowerStrTwice(s: string)
    ensures LowerStr(LowerStr(s)) == LowerStr(s)
  {
  }

  /** Lower-casing keeps the whitespace class of every character. */
  lemma LowerKeepsSpace(c: char)
    ensures IsSpace(Lower(c)) <==> IsSpace(c)
  {
  }

  predicate IsPrefix(p: string, s: string) {
    |p| <= |s| && s[..|p|] == p
  }

  /** `p` occurs in `s` starting at index `k`. */
  predicate OccursAt(s: string, p: string, k: nat) {
    k + |p| <= |s| && s[k..k + |p|] == p
  }

  /** Python's `p in s`. */
  predicate Contains(s: string, p: string) {
    exists k: nat | k <= |s| :: OccursAt(s, p, k)
  }

  /** Whatever contains `p + q` contains `p`. */
  lemma ContainsPrefixOf(s: string, p: string, q: string)
    requires Contains(s, p + q)
    ensures Contains(s, p)
  {
    var k: nat :| k <= |s| && OccursAt(s, p + q, k);
    assert s[k..k + |p|] == (p + q)[..|p|];
    assert OccursAt(s, p, k);
  }

  /** A text without the first character of `p` does not contain `p`. */
  lemma NotContainsFirst(s: string, p: string)
    requires |p| > 0 && p[0] !in s
    ensures !Contains(s, p)
  {
    forall k: nat | k <= |s| ensures !OccursAt(s, p, k) {
      if k < |s| {
        assert s[k] in s;
      }
    }
  }

  /** A cheap sufficient test that `p` does not occur in `s`: it is
      longer, or its first or last character is not in `s`. */
  predicate PlainlyAbsent(s: string, p: string) {
    |p| > |s| || (|p| > 0 && (p[0] !in s || p[|p| - 1] !in s))
  }

  lemma PlainlyAbsentSound(s: string, p: string)
    requires PlainlyAbsent(s, p)
    ensures !Contains(s, p)
  {
    forall k: nat | k <= |s| ensures !OccursAt(s, p, k) {
      if k + |p| <= |s| && |p| > 0 {
        assert s[k] == s[k..k + |p|][0];
        assert s[k + |p| - 1] == s[k..k + |p|][|p| - 1];
        assert s[k] in s && s[k + |p| - 1] in s;
      }
    }
  }

  /** `any(p in s for p in ps)`. */
  predicate ContainsAny(s: string, ps: seq<string>) {
    exists i :: 0 <= i < |ps| && Contains(s, ps[i])
  }

  /** No word of `ps` plainly occurs in `s`. */
  lemma NoneContained(s: string, ps: seq<string>)
    requires forall i :: 0 <= i < |ps| ==> PlainlyAbsent(s, ps[i])
    ensures !ContainsAny(s, ps)
  {
    forall i | 0 <= i < |ps| ensures !Contains(s, ps[i]) {
      PlainlyAbsentSound(s, ps[i]);
    }
  }

  function TrimLeft(s: string): (r: string)
    ensures |r| <= |s| && r == s[|s| - |r|..]
    ensures r == [] || !IsSpace(r[0])
    ensures forall i :: 0 <= i < |s| - |r| ==> IsSpace(s[i])
  {
    if |s| > 0 && IsSpace(s[0]) then
      var r := TrimLeft(s[1..]);
      assert s[1..][|s| - 1 - |r|..] == s[|s| - |r|..];
      assert forall i :: 1 <= i < |s| ==> s[1..][i - 1] == s[i];
      r
    else s
  }

  function TrimRight(s: string): (r: string)
    ensures |r| <= |s| && r == s[..|r|]
    ensures r == [] || !IsSpace(r[|r| - 1])
    ensures forall i :: |r| <= i < |s| ==> IsSpace(s[i])
  {
    if |s| > 0 && IsSpace(s[|s| - 1]) then
      var r := TrimRight(s[..|s| - 1]);
      assert s[..|s| - 1][..|r|] == s[..|r|];
      assert forall i :: 0 <= i < |s| - 1 ==> s[..|s| - 1][i] == s[i];
      r
    else s
  }

  /** Python's `str.strip()`: the longest slice with no surrounding whitespace. */
  function Strip(s: string): (r: string)
    ensures |r| <= |s|
    ensures r == [] || (!IsSpace(r[0]) && !IsSpace(r[|r| - 1]))
  {
    TrimRight(TrimLeft(s))
  }

  /** Stripping twice is stripping once. */
  lemma StripTwice(s: string)
    ensures Strip(Strip(s)) == Strip(s)
  {
    var r := Strip(s);
    if |r| > 0 {
      assert TrimLeft(r) == r;
      assert TrimRight(r) == r;
    }
  }

  /** A text without surrounding whitespace is left alone by stripping. */
  lemma StripUnchanged(s: string)
    requires |s| == 0 || (!IsSpace(s[0]) && !IsSpace(s[|s| - 1]))
    ensures Strip(s) == s
  {
    if |s| > 0 {
      TrimLeftUnchanged(s);
      TrimRightUnchanged(s);
    }
  }

  lemma TrimLeftUnchanged(s: string)
    requires |s| > 0 && !IsSpace(s[0])
    ensures TrimLeft(s) == s
  {
  }

  lemma TrimRightUnchanged(s: string)
    requires |s| > 0 && !IsSpace(s[|s| - 1])
    ensures TrimRight(s) == s
  {
  }

  /** Python's `sep.join(parts)`. */
  function Join(parts: seq<string>, sep: string): string {
    if |parts| == 0 then ""
    else if |parts| == 1 then parts[0]
    else parts[0] + sep + Join(parts[1..], sep)
  }

  /** Words joined by a separator start with the first word's first
      character and end with the last word's last character. */
  lemma {:induction false} JoinWordsEnds(ws: seq<string>, sep: string)
    requires |ws| > 0
    requires forall i :: 0 <= i < |ws| ==> IsWord(ws[i])
    ensures var j := Join(ws, sep);
            var last := ws[|ws| - 1];
            && |ws[0]| > 0 && |last| > 0 && |j| > 0
            && j[0] == ws[0][0] && j[|j| - 1] == last[|last| - 1]
    decreases |ws|
  {
    if |ws| > 1 {
      JoinWordsEnds(ws[1..], sep);
      assert ws[1..][|ws| - 2] == ws[|ws| - 1];
    }
  }

  /** Words joined by a space have no surrounding whitespace. */
  lemma JoinWordsStripped(ws: seq<string>)
    requires forall i :: 0 <= i < |ws| ==> IsWord(ws[i])
    ensures Strip(Join(ws, " ")) == Join(ws, " ")
  {
    if |ws| > 0 {
      JoinWordsEnds(ws, " ");
    }
    StripUnchanged(Join(ws, " "));
  }

  /** Python's `s.split(sep)` for a non-empty separator: the pieces between the
      occurrences of `sep` found from left to right. */
  function SplitOn(s: string, sep: string): (r: seq<string>)
    requires |sep| > 0
    ensures |r| >= 1
    decreases |s|
  {
    if |s| == 0 then [""]
    else if IsPrefix(sep, s) then [""] + SplitOn(s[|sep|..], sep)
    else
      var rest := SplitOn(s[1..], sep);
      [[s[0]] + rest[0]] + rest[1..]
  }

  /** A text without the separator is not split. */
  lemma {:induction false} SplitOnAbsent(s: string, sep: string)
    requires |sep| > 0 && !Contains(s, sep)
    ensures SplitOn(s, sep) == [s]
    decreases |s|
  {
    if |s| > 0 {
      assert !OccursAt(s, sep, 0);
      assert !Contains(s[1..], sep) by {
        forall k: nat | k <= |s[1..]| ensures !OccursAt(s[1..], sep, k) {
          assert !OccursAt(s, sep, k + 1);
          NotOccursTail(s, sep, k);
        }
      }
      SplitOnAbsent(s[1..], sep);
      assert [s[0]] + s[1..] == s;
    }
  }

  lemma NotOccursTail(s: string, p: string, k: nat)
    requires |s| > 0 && !OccursAt(s, p, k + 1)
    ensures !OccursAt(s[1..], p, k)
  {
    if k + |p| <= |s[1..]| {
      var t := s[1..][k..k + |p|];
      assert forall i :: 0 <= i < |p| ==> t[i] == s[k + 1 + i];
      assert t == s[k + 1..k + 1 + |p|];
    }
  }

  /** Splitting on a character gives first the text before its first
      occurrence. */
  lemma {:induction false} SplitOnFirstChar(a: string, c: char, b: string)
    requires c !in a
    ensures SplitOn(a + [c] + b, [c])[0] == a
    decreases |a|
  {
    var s := a + [c] + b;
    if |a| == 0 {
      assert s[..1] == [c];
    } else {
      assert s[0] == a[0] != c;
      assert s[1..] == a[1..] + [c] + b;
      SplitOnFirstChar(a[1..], c, b);
      assert [a[0]] + a[1..] == a;
    }
  }

  /** Splitting at a character leaves that character in no piece. */
  lemma {:induction false} SplitOnCharFree(s: string, c: char)
    ensures forall i :: 0 <= i < |SplitOn(s, [c])| ==> c !in SplitOn(s, [c])[i]
    decreases |s|
  {
    if |s| > 0 {
      SplitOnCharFree(s[1..], c);
      if !IsPrefix([c], s) {
        assert s[..1] == [s[0]];
        var rest := SplitOn(s[1..], [c]);
        assert SplitOn(s, [c]) == [[s[0]] + rest[0]] + rest[1..];
        assert c !in rest[0];
        var tail := rest[1..];
        forall j | 0 <= j < |tail| ensures c !in tail[j] {
          assert tail[j] == rest[j + 1];
        }
      }
    }
  }

  /** Joining the pieces of a split with the separator gives back the text. */
  lemma {:induction false} SplitOnJoin(s: string, sep: string)
    requires |sep| > 0
    ensures Join(SplitOn(s, sep), sep) == s
    decreases |s|
  {
    if |s| == 0 {
    } else if IsPrefix(sep, s) {
      var rest := SplitOn(s[|sep|..], sep);
      SplitOnJoin(s[|sep|..], sep);
      assert SplitOn(s, sep) == [""] + rest;
      JoinFront("", rest, sep);
      assert s == sep + s[|sep|..];
    } else {
      var rest := SplitOn(s[1..], sep);
      assert SplitOn(s, sep) == [[s[0]] + rest[0]] + rest[1..];
      SplitOnJoin(s[1..], sep);
      JoinGlue(s[0], rest, sep);
      assert s == [s[0]] + s[1..];
    }
  }

  /** An empty first piece before others contributes only the separator. */
  lemma JoinFront(p: string, parts: seq<string>, sep: string)
    requires |parts| >= 1
    ensures Join([p] + parts, sep) == p + sep + Join(parts, sep)
  {
    assert ([p] + parts)[1..] == parts;
  }

  /** Gluing a character to the first piece glues it to the joined text. */
  lemma JoinGlue(c: char, parts: seq<string>, sep: string)
    requires |parts| >= 1
    ensures Join([[c] + parts[0]] + parts[1..], sep) == [c] + Join(parts, sep)
  {
    var glued := [[c] + parts[0]] + parts[1..];
    assert glued[0] == [c] + parts[0];
    if |parts| > 1 {
      assert glued[1..] == parts[1..];
      assert Join(glued, sep) == [c] + parts[0] + sep + Join(parts[1..], sep);
    }
  }

  /** Index just past the run of non-space characters starting at `i`. */
  function WordEnd(s: string, i: nat): (e: nat)
    requires i <= |s|
    ensures i <= e <= |s|
    ensures forall k :: i <= k < e ==> !IsSpace(s[k])
    ensures e == |s| || IsSpace(s[e])
    decreases |s| - i
  {
    if i < |s| && !IsSpace(s[i]) then WordEnd(s, i + 1) else i
  }

  /** Python's `s.split()` with no argument: the maximal runs of non-space
      characters, in order. */
  predicate IsWord(w: string) {
    |w| > 0 && forall k :: 0 <= k < |w| ==> !IsSpace(w[k])
  }

  predicate NotSpace(c: char) {
    !IsSpace(c)
  }

  /** The pieces glued together with nothing between them. */
  function Concat(parts: seq<string>): string {
    if |parts| == 0 then "" else parts[0] + Concat(parts[1..])
  }

  /** Python's `s.split()`: the maximal runs of non-whitespace characters. */
  function SplitWs(s: string): (r: seq<string>)
    ensures forall i :: 0 <= i < |r| ==> IsWord(r[i])
    decreases |s|
  {
    var t := TrimLeft(s);
    if |t| == 0 then []
    else
      var e := WordEnd(t, 0);
      assert e > 0 by { assert !IsSpace(t[0]); }
      assert IsWord(t[..e]);
      [t[..e]] + SplitWs(t[e..])
  }

  /** The words hold every non-space character of `s`, in order. */
  lemma {:induction false} SplitWsKeepsText(s: string)
    ensures Concat(SplitWs(s)) == Keep(s, NotSpace)
    decreases |s|
  {
    var t := TrimLeft(s);
    KeepLeadingSpaces(s);
    if |t| > 0 {
      var e := WordEnd(t, 0);
      assert e > 0 by { assert !IsSpace(t[0]); }
      KeepWord(t, e);
      var rest := SplitWs(t[e..]);
      assert SplitWs(s) == [t[..e]] + rest;
      SplitWsKeepsText(t[e..]);
      ConcatCons(t[..e], rest);
    }
  }

  lemma ConcatCons(w: string, rest: seq<string>)
    ensures Concat([w] + rest) == w + Concat(rest)
  {
    assert ([w] + rest)[1..] == rest;
  }

  /** A leading run of non-space characters is kept whole. */
  lemma KeepWord(t: string, e: nat)
    requires e <= |t|
    requires forall k :: 0 <= k < e ==> !IsSpace(t[k])
    ensures Keep(t, NotSpace) == t[..e] + Keep(t[e..], NotSpace)
  {
    assert t == t[..e] + t[e..];
    KeepAppend(t[..e], t[e..], NotSpace);
    assert AllChars(t[..e], NotSpace);
  }

  /** Leading whitespace contributes nothing to the non-space characters. */
  lemma {:induction false} KeepLeadingSpaces(s: string)
    ensures Keep(s, NotSpace) == Keep(TrimLeft(s), NotSpace)
    decreases |s|
  {
    if |s| > 0 && IsSpace(s[0]) {
      KeepLeadingSpaces(s[1..]);
    }
  }

  /** `WordEnd` stops at the end of a word followed by whitespace or nothing. */
  lemma {:induction false} WordEndOfWord(w: string, u: string, i: nat)
    requires IsWord(w) && i <= |w|
    requires u == [] || IsSpace(u[0])
    ensures WordEnd(w + u, i) == |w|
    decreases |w| - i
  {
    var t := w + u;
    if i < |w| {
      assert t[i] == w[i];
      WordEndOfWord(w, u, i + 1);
    } else if i < |t| {
      assert t[i] == u[0];
    }
  }

  /** A leading space does not change the words. */
  lemma SplitWsSpace(s: string)
    ensures SplitWs(" " + s) == SplitWs(s)
  {
    assert (" " + s)[1..] == s;
    assert TrimLeft(" " + s) == TrimLeft(s);
  }

  lemma SplitWsEmpty()
    ensures SplitWs("") == []
  {
    assert TrimLeft("") == "";
  }

  /** A word followed by a space (or nothing) is split off as one piece. */
  lemma SplitWordThen(w: string, u: string)
    requires IsWord(w)
    requires u == [] || IsSpace(u[0])
    ensures SplitWs(w + u) == [w] + SplitWs(u)
  {
    var t := w + u;
    assert TrimLeft(t) == t by {
      assert t[0] == w[0];
      TrimLeftUnchanged(t);
    }
    WordEndOfWord(w, u, 0);
    assert t[..|w|] == w && t[|w|..] == u;
  }

  /** Every piece is a word, stated one piece at a time. */
  predicate AllWords(ws: seq<string>)
    decreases |ws|
  {
    |ws| == 0 || (IsWord(ws[0]) && AllWords(ws[1..]))
  }

  lemma {:induction false} AllWordsByIndex(ws: seq<string>)
    requires forall i :: 0 <= i < |ws| ==> IsWord(ws[i])
    ensures AllWords(ws)
    decreases |ws|
  {
    if |ws| > 0 {
      assert IsWord(ws[0]);
      assert forall i :: 0 <= i < |ws[1..]| ==> ws[1..][i] == ws[i + 1];
      AllWordsByIndex(ws[1..]);
    }
  }

  /** Splitting words joined with single spaces gives back the words. */
  lemma {:induction false} SplitJoinWords(ws: seq<string>)
    requires AllWords(ws)
    ensures SplitWs(Join(ws, " ")) == ws
    decreases |ws|
  {
    if |ws| <= 1 {
      SplitJoinShort(ws);
    } else {
      SplitJoinWords(ws[1..]);
      SplitJoinStep(ws);
    }
  }

  /** No word or a single word. */
  lemma SplitJoinShort(ws: seq<string>)
    requires |ws| <= 1 && AllWords(ws)
    ensures SplitWs(Join(ws, " ")) == ws
  {
    if |ws| == 0 {
      SplitWsEmpty();
    } else {
      SplitJoinOne(ws);
    }
  }

  lemma SplitJoinOne(ws: seq<string>)
    requires |ws| == 1 && IsWord(ws[0])
    ensures SplitWs(Join(ws, " ")) == ws
  {
    var w := ws[0];
    assert ws == [w];
    SplitJoinWord(w);
  }

  lemma SplitJoinWord(w: string)
    requires IsWord(w)
    ensures SplitWs(Join([w], " ")) == [w]
  {
    assert Join([w], " ") == w;
    SplitSingleWord(w);
  }

  /** A single word is split into itself. */
  lemma SplitSingleWord(w: string)
    requires IsWord(w)
    ensures SplitWs(w) == [w]
  {
    SplitWsEmpty();
    SplitWordThen(w, "");
    assert w + "" == w;
  }

  /** One more word in front of words that split back. */
  lemma SplitJoinStep(ws: seq<string>)
    requires |ws| >= 2 && IsWord(ws[0])
    requires SplitWs(Join(ws[1..], " ")) == ws[1..]
    ensures SplitWs(Join(ws, " ")) == ws
  {
    var v := Join(ws[1..], " ");
    JoinCons(ws, " ");
    SplitWordSpace(ws[0], v);
    assert [ws[0]] + ws[1..] == ws;
  }

  lemma JoinCons(ws: seq<string>, sep: string)
    requires |ws| >= 2
    ensures Join(ws, sep) == ws[0] + sep + Join(ws[1..], sep)
  {
  }

  /** A word, a space, then more text: the word is the first piece. */
  lemma SplitWordSpace(w: string, v: string)
    requires IsWord(w)
    ensures SplitWs(w + " " + v) == [w] + SplitWs(v)
  {
    assert w + " " + v == w + (" " + v);
    SplitWordThen(w, " " + v);
    SplitWsSpace(v);
  }

  /** Python's `s.replace(p, '')`: removes the occurrences of `p` found from
      left to right without overlapping. */
  function RemoveAll(s: string, p: string): (r: string)
    requires |p| > 0
    ensures |r| <= |s|
    decreases |s|
  {
    if |s| == 0 then ""
    else if IsPrefix(p, s) then RemoveAll(s[|p|..], p)
    else [s[0]] + RemoveAll(s[1..], p)
  }

  /** Nothing is removed from a text without the first character of `p`. */
  lemma {:induction false} RemoveAllAbsent(s: string, p: string)
    requires |p| > 0
    requires forall i :: 0 <= i < |s| ==> s[i] != p[0]
    ensures RemoveAll(s, p) == s
    decreases |s|
  {
    if |s| > 0 {
      assert !IsPrefix(p, s) by {
        if |p| <= |s| {
          assert s[..|p|][0] == s[0];
        }
      }
      RemoveAllAbsent(s[1..], p);
    }
  }

  /** The characters of `s` that satisfy `keep`, in order. */
  function Keep(s: string, keep: char -> bool): (r: string)
    ensures |r| <= |s|
    ensures forall k :: 0 <= k < |r| ==> keep(r[k])
    ensures AllChars(s, keep) ==> r == s
  {
    if |s| == 0 then "" else (if keep(s[0]) then [s[0]] else "") + Keep(s[1..], keep)
  }

  /** Each character is kept exactly as often as it occurs, or not at all. */
  lemma {:induction false} KeepCounts(s: string, keep: char -> bool)
    ensures forall c :: multiset(Keep(s, keep))[c] == if keep(c) then multiset(s)[c] else 0
    decreases |s|
  {
    if |s| > 0 {
      KeepCounts(s[1..], keep);
      assert s == [s[0]] + s[1..];
    }
  }

  predicate AllDigits(s: string) {
    forall k :: 0 <= k < |s| ==> IsDigit(s[k])
  }

  /** The value of a string of decimal digits (Python's `int(s)` for such a string). */
  function DigitsValue(s: string): nat
    requires AllDigits(s)
  {
    if |s| == 0 then 0 else DigitsValue(s[..|s| - 1]) * 10 + (s[|s| - 1] as int - '0' as int)
  }

  function Pow10(n: nat): (r: nat)
    ensures r >= 1
  {
    if n == 0 then 1 else 10 * Pow10(n - 1)
  }

  // ---------------------------------------------------------------------
  // Character properties that string operations keep

  predicate AllChars(s: string, p: char -> bool) {
    forall i :: 0 <= i < |s| ==> p(s[i])
  }

  predicate NotDigit(c: char) {
    !IsDigit(c)
  }

  lemma {:induction false} StripKeeps(s: string, p: char -> bool)
    requires AllChars(s, p)
    ensures AllChars(Strip(s), p)
  {
    var u := TrimLeft(s);
    var d := |s| - |u|;
    SliceKeeps(s, d, |s|, p);
    SliceKeeps(u, 0, |TrimRight(u)|, p);
  }

  lemma SliceKeeps(s: string, a: nat, b: nat, p: char -> bool)
    requires a <= b <= |s| && AllChars(s, p)
    ensures AllChars(s[a..b], p)
  {
    var t := s[a..b];
    forall i | 0 <= i < |t| ensures p(t[i]) {
      assert t[i] == s[a + i];
    }
  }

  lemma {:induction false} KeepKeeps(s: string, keep: char -> bool, p: char -> bool)
    requires AllChars(s, p)
    ensures AllChars(Keep(s, keep), p)
    decreases |s|
  {
    if |s| > 0 {
      KeepKeeps(s[1..], keep, p);
    }
  }

  lemma {:induction false} JoinKeeps(parts: seq<string>, sep: string, p: char -> bool)
    requires AllChars(sep, p)
    requires forall i :: 0 <= i < |parts| ==> AllChars(parts[i], p)
    ensures AllChars(Join(parts, sep), p)
    decreases |parts|
  {
    if |parts| > 1 {
      JoinKeeps(parts[1..], sep, p);
      var rest := Join(parts[1..], sep);
      assert Join(parts, sep) == parts[0] + sep + rest;
    }
  }

  lemma {:induction false} SplitWsKeeps(s: string, p: char -> bool)
    requires AllChars(s, p)
    ensures forall i :: 0 <= i < |SplitWs(s)| ==> AllChars(SplitWs(s)[i], p)
    decreases |s|
  {
    var t := TrimLeft(s);
    assert AllChars(t, p) by {
      forall i | 0 <= i < |t| ensures p(t[i]) {
        assert t[i] == s[|s| - |t| + i];
      }
    }
    if |t| > 0 {
      var e := WordEnd(t, 0);
      assert e > 0 by { assert !IsSpace(t[0]); }
      var w, u := t[..e], t[e..];
      assert AllChars(w, p) by {
        forall i | 0 <= i < |w| ensures p(w[i]) {
          assert w[i] == t[i];
        }
      }
      assert AllChars(u, p) by {
        forall i | 0 <= i < |u| ensures p(u[i]) {
          assert u[i] == t[e + i];
        }
      }
      SplitWsKeeps(u, p);
      var r := SplitWs(s);
      var rest := SplitWs(u);
      assert r == [w] + rest;
      forall i | 0 <= i < |r| ensures AllChars(r[i], p) {
        if i > 0 {
          assert r[i] == rest[i - 1];
        }
      }
    }
  }

  /** Keeping characters distributes over concatenation. */
  lemma {:induction false} KeepAppend(a: string, b: string, keep: char -> bool)
    ensures Keep(a + b, keep) == Keep(a, keep) + Keep(b, keep)
    decreases |a|
  {
    if |a| > 0 {
      assert (a + b)[1..] == a[1..] + b;
      KeepAppend(a[1..], b, keep);
    } else {
      assert a + b == b;
    }
  }

  /** Two filters that agree on every character of `s` keep the same text. */
  lemma {:induction false} KeepSame(s: string, p: char -> bool, q: char -> bool)
    requires forall i :: 0 <= i < |s| ==> p(s[i]) == q(s[i])
    ensures Keep(s, p) == Keep(s, q)
    decreases |s|
  {
    if |s| > 0 {
      KeepSame(s[1..], p, q);
    }
  }

  /** Python's `s.find(c)`, as an option: the index of the first `c`. */
  function FindChar(s: string, c: char): (r: Option<nat>)
    ensures r.None? <==> c !in s
    ensures r.Some? ==> r.value < |s| && s[r.value] == c && c !in s[..r.value]
  {
    if |s| == 0 then None
    else if s[0] == c then Some(0)
    else match FindChar(s[1..], c)
      case None => None
      case Some(i) =>
        assert s[..i + 1] == [s[0]] + s[1..][..i];
        Some(i + 1)
  }

  /** A filter that keeps every character of `s` keeps `s`. */
  lemma {:induction false} KeepAll(s: string, keep: char -> bool)
    requires AllChars(s, keep)
    ensures Keep(s, keep) == s
    decreases |s|
  {
    if |s| > 0 {
      KeepAll(s[1..], keep);
    }
  }

  /** An occurrence in a prefix is an occurrence in the whole. */
  lemma ContainsInLeft(s: string, t: string, p: string)
    requires Contains(s, p)
    ensures Contains(s + t, p)
  {
    var k: nat :| k <= |s| && OccursAt(s, p, k);
    assert (s + t)[k..k + |p|] == s[k..k + |p|];
    assert OccursAt(s + t, p, k);
  }

  lemma AllDigitsAppend(a: string, b: string)
    requires AllDigits(a) && AllDigits(b)
    ensures AllDigits(a + b)
  {
    var c := a + b;
    forall k | 0 <= k < |c| ensures IsDigit(c[k]) {
      if k >= |a| {
        assert c[k] == b[k - |a|];
      }
    }
  }

  /** Appending digits shifts the value left by their count. */
  lemma {:induction false} DigitsValueAppend(a: string, b: string)
    requires AllDigits(a) && AllDigits(b)
    ensures AllDigits(a + b)
    ensures DigitsValue(a + b) == DigitsValue(a) * Pow10(|b|) + DigitsValue(b)
    decreases |b|
  {
    AllDigitsAppend(a, b);
    if |b| == 0 {
      assert a + b == a;
    } else {
      var n := |b| - 1;
      var c := a + b;
      var b' := b[..n];
      SliceKeeps(b, 0, n, IsDigit);
      assert c[..|c| - 1] == a + b';
      assert c[|c| - 1] == b[n];
      DigitsValueAppend(a, b');
      var x, y, z, d := DigitsValue(a), DigitsValue(b'), Pow10(n), b[n] as int - '0' as int;
      assert DigitsValue(c) == DigitsValue(a + b') * 10 + d;
      assert DigitsValue(b) == y * 10 + d;
      ShiftDigit(x, y, z, d, Pow10(|b|));
    }
  }

  lemma ShiftDigit(x: int, y: int, z: int, d: int, w: int)
    requires w == z * 10
    ensures (x * z + y) * 10 + d == x * w + (y * 10 + d)
  {
  }
}
