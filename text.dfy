/**
 * The Kotlin/JVM string and number primitives the providers rely on:
 * `isWhitespace`, `isBlank`, `trim`, `trimEnd`, `contains`/`equals` with
 * `ignoreCase`, the regex class `\s`, `toIntOrNull`, decimal rendering of an
 * `Int` in a string template, and 32-bit wrap-around of `Int` arithmetic.
 */
module Text {
  import opened Wrappers

  const IntMax: int := 0x7fff_ffff
  const IntMin: int := -0x8000_0000
  const TwoTo32: int := 0x1_0000_0000

  // ---------------------------------------------------------------------
  // Character classes

  /** Kotlin `Char.isWhitespace()` on the JVM: `Character.isWhitespace(c) || Character.isSpaceChar(c)`. */
  predicate IsWhitespace(c: char) {
    c == ' ' || ('\t' <= c <= '\r') || ('\U{1C}' <= c <= '\U{1F}')
    || c == '\U{A0}' || c == '\U{1680}' || ('\U{2000}' <= c <= '\U{200A}')
    || c == '\U{2028}' || c == '\U{2029}' || c == '\U{202F}' || c == '\U{205F}' || c == '\U{3000}'
  }

  /** The regex class `\s` of java.util.regex without UNICODE_CHARACTER_CLASS: `[ \t\n\x0B\f\r]`. */
  predicate IsRegexSpace(c: char) {
    c == ' ' || ('\t' <= c <= '\r')
  }

  /** The regex class `\d`: ASCII digits. */
  predicate IsDigit(c: char) {
    '0' <= c <= '9'
  }

  /** The regex class `[a-zA-Z0-9]`. */
  predicate IsAlnum(c: char) {
    IsDigit(c) || ('a' <= c <= 'z') || ('A' <= c <= 'Z')
  }

  /** The regex class `\w`: `[a-zA-Z_0-9]`. */
  predicate IsWordChar(c: char) {
    IsAlnum(c) || c == '_'
  }

  predicate NotSlash(c: char) {
    c != '/'
  }

  predicate AllDigits(s: string) {
    forall k :: 0 <= k < |s| ==> IsDigit(s[k])
  }

  /** Kotlin `isBlank()`: empty or only whitespace. */
  predicate IsBlank(s: string) {
    forall k :: 0 <= k < |s| ==> IsWhitespace(s[k])
  }

  /**
   * The end of the longest run of `cls` characters starting at `i`; the
   * greedy `cls*` of a regex.
   */
  function RunEnd(s: string, i: nat, cls: char -> bool): (r: nat)
    requires i <= |s|
    ensures i <= r <= |s|
    ensures forall k :: i <= k < r ==> cls(s[k])
    ensures r < |s| ==> !cls(s[r])
    decreases |s| - i
  {
    if i < |s| && cls(s[i]) then RunEnd(s, i + 1, cls) else i
  }

  /** A run that ends where the class stops is the run `RunEnd` finds. */
  lemma {:induction false} RunEndIs(s: string, i: nat, e: nat, cls: char -> bool)
    requires i <= e <= |s|
    requires forall k :: i <= k < e ==> cls(s[k])
    requires e < |s| ==> !cls(s[e])
    ensures RunEnd(s, i, cls) == e
    decreases e - i
  {
    if i < e {
      RunEndIs(s, i + 1, e, cls);
    }
  }

  /** The start of the longest run of `cls` characters ending at `j`, never going below `lo`. */
  function RunStart(s: string, lo: nat, j: nat, cls: char -> bool): (r: nat)
    requires lo <= j <= |s|
    ensures lo <= r <= j
    ensures forall k :: r <= k < j ==> cls(s[k])
    ensures r > lo ==> !cls(s[r - 1])
    decreases j - lo
  {
    if j > lo && cls(s[j - 1]) then RunStart(s, lo, j - 1, cls) else j
  }

  // ---------------------------------------------------------------------
  // Trimming

  function TrimStartIndex(s: string): nat
    ensures TrimStartIndex(s) <= |s|
  {
    RunEnd(s, 0, IsWhitespace)
  }

  function TrimEndIndex(s: string): nat
    ensures TrimStartIndex(s) <= TrimEndIndex(s) <= |s|
  {
    RunStart(s, TrimStartIndex(s), |s|, IsWhitespace)
  }

  /** Kotlin `trim()`: drops leading and trailing whitespace. */
  function Trim(s: string): (r: string)
    ensures |r| <= |s|
    ensures r == s[TrimStartIndex(s)..TrimEndIndex(s)]
    ensures IsBlank(s[..TrimStartIndex(s)]) && IsBlank(s[TrimEndIndex(s)..])
    ensures r == [] <==> IsBlank(s)
    ensures r != [] ==> !IsWhitespace(r[0]) && !IsWhitespace(r[|r| - 1])
  {
    var a := TrimStartIndex(s);
    var b := TrimEndIndex(s);
    assert a < |s| ==> !IsWhitespace(s[a]);
    if a < |s| then assert b > a; s[a..b] else s[a..b]
  }

  /** After trimming, "blank" and "empty" coincide (so `trim().isNotBlank()` is `trim() != ""`). */
  lemma TrimmedBlankIsEmpty(s: string)
    ensures IsBlank(Trim(s)) <==> Trim(s) == []
  {
    var t := Trim(s);
    if t != [] {
      assert !IsWhitespace(t[0]);
    }
  }

  /** Kotlin `trimEnd(c)`: drops every trailing `c`. */
  function TrimEndChar(s: string, c: char): (r: string)
    ensures |r| <= |s| && r == s[..|r|]
    ensures forall k :: |r| <= k < |s| ==> s[k] == c
    ensures r != [] ==> r[|r| - 1] != c
  {
    s[..RunStart(s, 0, |s|, x => x == c)]
  }

  /** Kotlin `replace("\\s".toRegex(), "")`: every `\s` character removed. */
  function RemoveRegexSpace(s: string): (r: string)
    ensures |r| <= |s|
    ensures forall k :: 0 <= k < |r| ==> !IsRegexSpace(r[k])
    ensures (forall k :: 0 <= k < |s| ==> !IsRegexSpace(s[k])) ==> r == s
  {
    if s == [] then []
    else if IsRegexSpace(s[0]) then RemoveRegexSpace(s[1..])
    else [s[0]] + RemoveRegexSpace(s[1..])
  }

  /** Removing `\s` works piece by piece: it distributes over concatenation. */
  lemma {:induction false} RemoveRegexSpaceAppend(a: string, b: string)
    ensures RemoveRegexSpace(a + b) == RemoveRegexSpace(a) + RemoveRegexSpace(b)
  {
    if a == [] {
      assert a + b == b;
    } else {
      var ab := a + b;
      assert ab[0] == a[0] && ab[1..] == a[1..] + b;
      RemoveRegexSpaceAppend(a[1..], b);
      if IsRegexSpace(a[0]) {
        assert RemoveRegexSpace(ab) == RemoveRegexSpace(a[1..] + b);
      } else {
        assert RemoveRegexSpace(ab) == [a[0]] + RemoveRegexSpace(a[1..] + b);
      }
    }
  }

  /** Kotlin `filter { it.isDigit() }`, restricted to ASCII digits. */
  function FilterDigits(s: string): (r: string)
    ensures |r| <= |s| && AllDigits(r)
    ensures AllDigits(s) ==> r == s
    ensures (forall k :: 0 <= k < |s| ==> !IsDigit(s[k])) ==> r == []
  {
    if s == [] then []
    else if IsDigit(s[0]) then [s[0]] + FilterDigits(s[1..])
    else FilterDigits(s[1..])
  }

  // ---------------------------------------------------------------------
  // Case-insensitive comparison

  /**
   * The character a case-insensitive comparison against an ASCII letter sees:
   * ASCII letters in lower case, plus the four non-ASCII characters whose
   * simple upper- or lower-case mapping is an ASCII letter (dotless i, dotted
   * capital I, long s, Kelvin sign).
   */
  function Fold(c: char): char {
    if 'A' <= c <= 'Z' then (c as int + 32) as char
    else if c == '\U{131}' || c == '\U{130}' then 'i'
    else if c == '\U{17F}' then 's'
    else if c == '\U{212A}' then 'k'
    else c
  }

  /** Kotlin `Char.equals(other, ignoreCase)`. */
  predicate CharEquals(a: char, b: char, ignoreCase: bool) {
    a == b || (ignoreCase && Fold(a) == Fold(b))
  }

  /** `p` occurs in `t` at offset `i`. */
  predicate RegionMatches(t: string, i: nat, p: string, ignoreCase: bool) {
    i + |p| <= |t| && forall k :: 0 <= k < |p| ==> CharEquals(t[i + k], p[k], ignoreCase)
  }

  ghost predicate Occurs(t: string, p: string, ignoreCase: bool) {
    exists i: nat :: RegionMatches(t, i, p, ignoreCase)
  }

  function ContainsFrom(t: string, p: string, i: nat, ignoreCase: bool): (r: bool)
    ensures r <==> exists j: nat :: i <= j && RegionMatches(t, j, p, ignoreCase)
    decreases |t| - i
  {
    if i + |p| > |t| then false
    else RegionMatches(t, i, p, ignoreCase) || ContainsFrom(t, p, i + 1, ignoreCase)
  }

  /** Kotlin `t.contains(p, ignoreCase)`. */
  function Contains(t: string, p: string, ignoreCase: bool): (r: bool)
    ensures r <==> Occurs(t, p, ignoreCase)
  {
    ContainsFrom(t, p, 0, ignoreCase)
  }

  /** Kotlin `a.equals(b, ignoreCase = true)`. */
  predicate EqualsIgnoreCase(a: string, b: string) {
    |a| == |b| && RegionMatches(a, 0, b, true)
  }

  // ---------------------------------------------------------------------
  // Numbers

  function DigitValue(c: char): nat {
    if IsDigit(c) then c as int - '0' as int else 0
  }

  function DigitChar(d: nat): char
    requires d < 10
  {
    ('0' as int + d) as char
  }

  /** The value of a string of decimal digits. */
  function DigitsValue(s: string): nat {
    if s == [] then 0 else DigitsValue(s[..|s| - 1]) * 10 + DigitValue(s[|s| - 1])
  }

  /** At most four digits make at most 9999. */
  lemma {:induction false} DigitsBound(ds: string)
    requires |ds| <= 4
    ensures DigitsValue(ds) <= 9999
    ensures |ds| <= 3 ==> DigitsValue(ds) <= 999
    ensures |ds| <= 2 ==> DigitsValue(ds) <= 99
    ensures |ds| <= 1 ==> DigitsValue(ds) <= 9
  {
    if ds != [] {
      DigitsBound(ds[..|ds| - 1]);
    }
  }

  /** Kotlin `String.toIntOrNull()` in radix 10 (ASCII digits). */
  function ToIntOrNull(s: string): (r: Option<int>)
    ensures r.Some? ==> IntMin <= r.value <= IntMax
    ensures s != [] && AllDigits(s) ==> (r.Some? <==> DigitsValue(s) <= IntMax)
    ensures s != [] && AllDigits(s) && r.Some? ==> r.value == DigitsValue(s)
    ensures s == [] ==> r.None?
  {
    if s == [] then None
    else if s[0] == '-' || s[0] == '+' then
      if |s| == 1 || !AllDigits(s[1..]) then None
      else
        var v: int := if s[0] == '-' then 0 - DigitsValue(s[1..]) as int else DigitsValue(s[1..]);
        if IntMin <= v <= IntMax then Some(v) else None
    else if !AllDigits(s) then None
    else
      var v := DigitsValue(s);
      if v <= IntMax then Some(v) else None
  }

  /** The decimal digits of `n`, without leading zeros. */
  function NatToDecimal(n: nat): (r: string)
    ensures r != [] && AllDigits(r)
    ensures |r| > 1 ==> r[0] != '0'
  {
    (if n < 10 then [] else NatToDecimal(n / 10)) + [DigitChar(n % 10)]
  }

  /** Kotlin's rendering of an `Int` inside a string template (`"$n"`). */
  function IntToString(i: int): string {
    if i < 0 then "-" + NatToDecimal(-i) else NatToDecimal(i)
  }

  lemma {:induction false} DecimalRoundTrip(n: nat)
    ensures DigitsValue(NatToDecimal(n)) == n
  {
    var s := NatToDecimal(n);
    var front := if n < 10 then [] else NatToDecimal(n / 10);
    assert s[..|s| - 1] == front;
    if n >= 10 {
      DecimalRoundTrip(n / 10);
    }
  }

  /** Rendering a non-negative `Int` and parsing it back gives the same number. */
  lemma DecimalParsesBack(n: nat)
    requires n <= IntMax
    ensures ToIntOrNull(NatToDecimal(n)) == Some(n)
  {
    DecimalRoundTrip(n);
  }

  lemma DecimalLength(n: nat)
    ensures 100 <= n <= 999 ==> |NatToDecimal(n)| == 3
    ensures 1000 <= n <= 9999 ==> |NatToDecimal(n)| == 4
  {
    if n >= 10 {
      var m := n / 10;
      if m >= 10 {
        var q := m / 10;
        if q >= 10 {
          assert q / 10 < 10 ==> |NatToDecimal(q)| == 2;
        }
      }
    }
  }

  /** Kotlin `Int` arithmetic: the two's-complement 32-bit value congruent to `x`. */
  function Wrap32(x: int): (r: int)
    ensures IntMin <= r <= IntMax
    ensures (r - x) % TwoTo32 == 0
    ensures IntMin <= x <= IntMax ==> r == x
  {
    (x - IntMin) % TwoTo32 + IntMin
  }
}
