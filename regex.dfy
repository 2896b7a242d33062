/**
 * The handful of fixed regular expressions the providers use, each written
 * as a matcher "does the pattern match at offset i, and what is group 1",
 * plus the leftmost search that `Regex.find` performs over those offsets.
 * Every matcher is greedy as java.util.regex is; where backtracking cannot
 * change the outcome the comment says why.
 */
module Regex {
  import opened Wrappers
  import opened Text

  datatype CharClass = Word | Alnum

  /** `\w` or `[a-zA-Z0-9]`. */
  function ClassPred(cc: CharClass): char -> bool {
    match cc
    case Word => IsWordChar
    case Alnum => IsAlnum
  }

  /** The fixed patterns of the core. */
  datatype Pattern =
    | Digits                                        // (\d+)
    | NumberBefore(unit: string)                    // (\d+)\s*<unit>
    | Quality                                       // (\d{3,4})[pP]
    | AfterLiteral(lits: seq<string>, cc: CharClass) // (?:lit0|lit1|...)(cls+)

  /** Group 1 of `p` matched at offset `i`, if `p` matches there. */
  function MatchAt(p: Pattern, s: string, i: nat): Option<string> {
    match p
    case Digits => DigitsAt(s, i)
    case NumberBefore(unit) => NumberBeforeUnitAt(s, i, unit)
    case Quality => QualityAt(s, i)
    case AfterLiteral(lits, cc) => AfterLiteralAt(s, i, lits, ClassPred(cc))
  }

  /** A match found by `FindFrom`: where it starts and what its first group captured. */
  datatype Hit = Hit(start: nat, group: string)

  /** `Regex(p).find(s, from)`: the first offset at or after `from` where `p` matches. */
  function FindFrom(s: string, p: Pattern, from: nat): (r: Option<Hit>)
    ensures r.Some? ==> from <= r.value.start <= |s| && MatchAt(p, s, r.value.start) == Some(r.value.group)
    ensures r.Some? ==> forall j :: from <= j < r.value.start ==> MatchAt(p, s, j).None?
    ensures r.None? ==> forall j :: from <= j <= |s| ==> MatchAt(p, s, j).None?
    decreases |s| + 1 - from
  {
    if from > |s| then None
    else match MatchAt(p, s, from)
      case Some(g) => Some(Hit(from, g))
      case None => FindFrom(s, p, from + 1)
  }

  /** `Regex(p).find(s)?.groupValues?.get(1)`. */
  function FirstGroup(s: string, p: Pattern): (r: Option<string>)
    ensures r.Some? <==> exists j :: 0 <= j <= |s| && MatchAt(p, s, j).Some?
    ensures r.Some? ==> exists j :: 0 <= j <= |s| && MatchAt(p, s, j) == r
                                   && forall k :: 0 <= k < j ==> MatchAt(p, s, k).None?
  {
    match FindFrom(s, p, 0)
    case Some(h) => Some(h.group)
    case None => None
  }

  /** Whatever the search returns, it is the match at the first offset where `p` matches. */
  lemma FindIsFirst(s: string, p: Pattern, from: nat, j: nat, g: string)
    requires from <= j <= |s|
    requires MatchAt(p, s, j) == Some(g)
    requires forall k :: from <= k < j ==> MatchAt(p, s, k).None?
    ensures FindFrom(s, p, from) == Some(Hit(j, g))
  {
    var r := FindFrom(s, p, from);
    assert r.Some?;
  }

  /** `g` is the whole run of `cls` characters that starts at `i`, and is not empty. */
  ghost predicate IsMaximalRunAt(s: string, i: nat, g: string, cls: char -> bool) {
    && g != []
    && i + |g| <= |s|
    && s[i..i + |g|] == g
    && (forall k :: 0 <= k < |g| ==> cls(g[k]))
    && (i + |g| == |s| || !cls(s[i + |g|]))
  }

  /** `(\d+)` at offset `i`: group 1 is the maximal digit run starting at `i`. */
  function DigitsAt(s: string, i: nat): (r: Option<string>)
    ensures r.Some? <==> i < |s| && IsDigit(s[i])
    ensures r.Some? ==> IsMaximalRunAt(s, i, r.value, IsDigit)
  {
    if i < |s| && IsDigit(s[i]) then Some(s[i..RunEnd(s, i, IsDigit)]) else None
  }

  /**
   * `(\d+)\s*<unit>` at offset `i` (used with `hr` and `min`). Backtracking
   * never helps here: giving back a digit leaves a digit where `\s` or the
   * unit must start, and giving back a `\s` leaves a space where the unit
   * must start. So the match is the full digit run, then the full space run,
   * then the unit.
   */
  function NumberBeforeUnitAt(s: string, i: nat, unit: string): (r: Option<string>)
    ensures r.Some? ==> IsMaximalRunAt(s, i, r.value, IsDigit)
    ensures r.Some? ==> RegionMatches(s, RunEnd(s, i + |r.value|, IsRegexSpace), unit, false)
    ensures r.None? && i < |s| && IsDigit(s[i]) ==>
      !RegionMatches(s, RunEnd(s, RunEnd(s, i, IsDigit), IsRegexSpace), unit, false)
  {
    if i < |s| && IsDigit(s[i]) then
      var j := RunEnd(s, i, IsDigit);
      var k := RunEnd(s, j, IsRegexSpace);
      if RegionMatches(s, k, unit, false) then Some(s[i..j]) else None
    else None
  }

  predicate IsPChar(c: char) {
    c == 'p' || c == 'P'
  }

  /**
   * `(\d{3,4})[pP]` at offset `i`: four digits then p/P are tried first,
   * then three digits then p/P.
   */
  function QualityAt(s: string, i: nat): (r: Option<string>)
    ensures r.Some? ==> 3 <= |r.value| <= 4 && AllDigits(r.value)
    ensures r.Some? ==> i + |r.value| < |s| && s[i..i + |r.value|] == r.value && IsPChar(s[i + |r.value|])
    ensures r.Some? && |r.value| == 3 ==> !(i + 5 <= |s| && AllDigits(s[i..i + 4]) && IsPChar(s[i + 4]))
    ensures r.None? ==> !(i + 5 <= |s| && AllDigits(s[i..i + 4]) && IsPChar(s[i + 4]))
    ensures r.None? ==> !(i + 4 <= |s| && AllDigits(s[i..i + 3]) && IsPChar(s[i + 3]))
  {
    if i + 5 <= |s| && AllDigits(s[i..i + 4]) && IsPChar(s[i + 4]) then Some(s[i..i + 4])
    else if i + 4 <= |s| && AllDigits(s[i..i + 3]) && IsPChar(s[i + 3]) then Some(s[i..i + 3])
    else None
  }

  /** Literal `lit` at `i`, followed by at least one `cls` character. */
  predicate LiteralThenRun(s: string, i: nat, lit: string, cls: char -> bool) {
    i + |lit| < |s| && s[i..i + |lit|] == lit && cls(s[i + |lit|])
  }

  /** The first alternative at or after `from` that matches at `i` followed by a `cls` character. */
  function FirstLiteralFrom(s: string, i: nat, lits: seq<string>, cls: char -> bool, from: nat): (r: Option<nat>)
    requires from <= |lits|
    ensures r.Some? ==> from <= r.value < |lits| && LiteralThenRun(s, i, lits[r.value], cls)
    ensures r.Some? ==> forall b :: from <= b < r.value ==> !LiteralThenRun(s, i, lits[b], cls)
    ensures r.None? ==> forall b :: from <= b < |lits| ==> !LiteralThenRun(s, i, lits[b], cls)
    decreases |lits| - from
  {
    if from == |lits| then None
    else if LiteralThenRun(s, i, lits[from], cls) then Some(from)
    else FirstLiteralFrom(s, i, lits, cls, from + 1)
  }

  /**
   * `(?:lit0|lit1|...)(cls+)` at offset `i`: the alternatives are tried in
   * order, and the first one that is followed by at least one `cls`
   * character wins; group 1 is the maximal `cls` run after it. (Once an
   * alternative is followed by a `cls` character the greedy run cannot fail,
   * so no later alternative is ever tried.)
   */
  function AfterLiteralAt(s: string, i: nat, lits: seq<string>, cls: char -> bool): Option<string>
  {
    match FirstLiteralFrom(s, i, lits, cls, 0)
    case None => None
    case Some(a) =>
      var k := i + |lits[a]|;
      Some(s[k..RunEnd(s, k, cls)])
  }

  /** `(?:lit0|lit1|...)(cls+)` fails at `i` exactly when no alternative there is followed by a `cls` character. */
  lemma AfterLiteralMiss(s: string, i: nat, lits: seq<string>, cls: char -> bool)
    ensures AfterLiteralAt(s, i, lits, cls).None? <==> forall a :: 0 <= a < |lits| ==> !LiteralThenRun(s, i, lits[a], cls)
  {
  }

  /** A match of `(?:lit0|lit1|...)(cls+)` is the `cls` run after the first alternative that is followed by one. */
  lemma AfterLiteralHit(s: string, i: nat, lits: seq<string>, cls: char -> bool)
    requires AfterLiteralAt(s, i, lits, cls).Some?
    ensures var a := FirstLiteralFrom(s, i, lits, cls, 0);
      && a.Some? && a.value < |lits| && LiteralThenRun(s, i, lits[a.value], cls)
      && IsMaximalRunAt(s, i + |lits[a.value]|, AfterLiteralAt(s, i, lits, cls).value, cls)
      && forall b :: 0 <= b < a.value ==> !LiteralThenRun(s, i, lits[b], cls)
  {
    var a := FirstLiteralFrom(s, i, lits, cls, 0).value;
    var k := i + |lits[a]|;
    assert AfterLiteralAt(s, i, lits, cls).value == s[k..RunEnd(s, k, cls)];
  }
}
