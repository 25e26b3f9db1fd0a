/**
 * Python's `int()` and `float()` on the digit strings the parsers capture,
 * Python's floor division, and `round(x, n)` on exact values.
 */
module Numbers {
  import opened Base
  import opened Chars

  /** Number of leading digits of `s`. */
  function DigitPrefix(s: string): (n: nat)
    ensures n <= |s| && AllDigits(s[..n])
    ensures n == |s| || !IsDigit(s[n])
  {
    if |s| > 0 && IsDigit(s[0]) then
      var n := 1 + DigitPrefix(s[1..]);
      assert s[..n] == [s[0]] + s[1..][..n - 1];
      n
    else 0
  }

  /** The digit run of `s` is any `n` with digits before it and a non-digit at it. */
  lemma DigitPrefixExact(s: string, n: nat)
    requires n <= |s| && AllDigits(s[..n]) && (n == |s| || !IsDigit(s[n]))
    ensures DigitPrefix(s) == n
  {
  }

  /** `int(s)` for strings built of digits: fails on the empty string and on
      any other character. */
  function ParseInt(s: string): (r: Option<nat>)
    ensures r.Some? <==> |s| > 0 && AllDigits(s)
  {
    if |s| > 0 && AllDigits(s) then Some(DigitsValue(s)) else None
  }

  /** `int(s.replace(',', ''))` for a string of digits and commas: fails
      when there is no digit. */
  function ParseCommaInt(s: string): (r: Option<nat>)
    ensures r.Some? <==> |RemoveAll(s, ",")| > 0 && AllDigits(RemoveAll(s, ","))
  {
    ParseInt(RemoveAll(s, ","))
  }

  /** `float(s)` for strings of the shape `digits [. digits]`: succeeds when
      there is at least one digit; any other string fails. */
  function ParseFloat(s: string): (r: Option<real>)
    ensures r.Some? ==> r.value >= 0.0
    ensures |s| > 0 && AllDigits(s) ==> r == Some(DigitsValue(s) as real)
  {
    var d := DigitPrefix(s);
    var whole := DigitsValue(s[..d]) as real;
    if d == |s| then
      assert s[..d] == s;
      if d > 0 then Some(whole) else None
    else if s[d] == '.' && AllDigits(s[d + 1..]) && (d > 0 || d + 1 < |s|) then
      Some(whole + DigitsValue(s[d + 1..]) as real / Pow10(|s| - d - 1) as real)
    else None
  }

  /** Python's `a // b`, which rounds toward negative infinity. */
  function FloorDiv(a: int, b: int): (q: int)
    requires b != 0
    ensures b > 0 ==> q * b <= a < q * b + b
    ensures b < 0 ==> q * b >= a > q * b + b
  {
    if b > 0 then a / b
    else if a % b == 0 then a / b
    else a / b - 1
  }

  /** Nearest integer to `y`, ties going to the even one. */
  function RoundHalfEven(y: real): (n: int)
    ensures -0.5 <= n as real - y <= 0.5
  {
    var f := y.Floor;
    var frac := y - f as real;
    if frac < 0.5 then f else if frac > 0.5 then f + 1 else if f % 2 == 0 then f else f + 1
  }

  lemma RoundHalfEvenMonotone(a: real, b: real)
    requires a <= b
    ensures RoundHalfEven(a) <= RoundHalfEven(b)
  {
  }

  /** `round(x, places)` on the exact value: the nearest multiple of
      10^-places, ties going to the even neighbour. */
  function Round(x: real, places: nat): real {
    RoundScaled(x, Pow10(places) as real)
  }

  function RoundScaled(x: real, scale: real): real
    requires scale > 0.0
  {
    RoundHalfEven(x * scale) as real / scale
  }

  lemma RoundScaledDef(x: real, scale: real)
    requires scale > 0.0
    ensures RoundScaled(x, scale) == RoundHalfEven(x * scale) as real / scale
  {
  }

  lemma MulMonotone(a: real, b: real, c: real)
    requires a <= b && c > 0.0
    ensures a * c <= b * c
  {
    assert b * c - a * c == (b - a) * c;
  }

  lemma MulLeftMonotone(c: real, a: real, b: real)
    requires a <= b && c >= 0.0
    ensures c * a <= c * b
  {
    assert c * b - c * a == c * (b - a);
  }

  /** A value in [0, top] times a share in [0, 1] stays in [0, top]. */
  lemma ShareOf(top: real, v: real, t: real)
    requires 0.0 <= v <= top && 0.0 <= t <= 1.0
    ensures 0.0 <= v * t <= top
  {
    MulLeftMonotone(v, 0.0, t);
    MulLeftMonotone(v, t, 1.0);
  }

  lemma DivMonotone(a: real, b: real, c: real)
    requires a <= b && c > 0.0
    ensures a / c <= b / c
  {
    assert b / c - a / c == (b - a) / c;
  }

  lemma RoundScaledMonotone(x: real, y: real, scale: real)
    requires x <= y && scale > 0.0
    ensures RoundScaled(x, scale) <= RoundScaled(y, scale)
  {
    MulMonotone(x, y, scale);
    RoundHalfEvenMonotone(x * scale, y * scale);
    DivMonotone(RoundHalfEven(x * scale) as real, RoundHalfEven(y * scale) as real, scale);
  }

  /** Rounding never reverses an order. */
  lemma RoundMonotone(x: real, y: real, places: nat)
    requires x <= y
    ensures Round(x, places) <= Round(y, places)
  {
    RoundScaledMonotone(x, y, Pow10(places) as real);
  }

  lemma RoundScaledGrid(k: int, scale: real)
    requires scale > 0.0
    ensures RoundScaled(k as real / scale, scale) == k as real / scale
  {
    var x := k as real / scale;
    assert x * scale == k as real;
    assert (k as real).Floor == k;
    assert RoundHalfEven(x * scale) == k;
    RoundScaledDef(x, scale);
  }

  /** Rounding a value between two grid points stays between them. */
  lemma RoundBetween(x: real, lo: int, hi: int, places: nat)
    requires lo as real / Pow10(places) as real <= x <= hi as real / Pow10(places) as real
    ensures lo as real / Pow10(places) as real <= Round(x, places) <= hi as real / Pow10(places) as real
  {
    RoundMonotone(lo as real / Pow10(places) as real, x, places);
    RoundMonotone(x, hi as real / Pow10(places) as real, places);
    RoundGrid(lo, places);
    RoundGrid(hi, places);
  }

  /** A value already on the grid of the last place is left alone. */
  lemma RoundGrid(k: int, places: nat)
    ensures Round(k as real / Pow10(places) as real, places) == k as real / Pow10(places) as real
  {
    RoundScaledGrid(k, Pow10(places) as real);
  }
}
