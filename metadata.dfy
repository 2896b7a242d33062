/**
 * The metadata text helpers that Gojodesu and Anoboy share word for word:
 * the type and status classifiers of their companion objects, and the
 * duration and year parsing of `load`.
 */
module Metadata {
  import opened Wrappers
  import opened Text
  import opened Regex

  datatype TvType = Anime | AnimeMovie | OVA
  datatype ShowStatus = Completed | Ongoing

  /** An episode entry of a load response. */
  datatype Episode = Episode(url: string, name: string, number: Option<int>)

  /**
   * `getType`: the case-insensitive tests run in the order "Tv", "Movie",
   * "OVA"/"Special"; null and anything unmatched is Anime.
   */
  function GetType(t: Option<string>): (r: TvType)
    ensures t.None? ==> r == Anime
    ensures t.Some? && Occurs(t.value, "Tv", true) ==> r == Anime
    ensures r == AnimeMovie <==> t.Some? && !Occurs(t.value, "Tv", true) && Occurs(t.value, "Movie", true)
    ensures r == OVA <==>
      t.Some? && !Occurs(t.value, "Tv", true) && !Occurs(t.value, "Movie", true)
      && (Occurs(t.value, "OVA", true) || Occurs(t.value, "Special", true))
  {
    match t
    case None => Anime
    case Some(s) =>
      if Contains(s, "Tv", true) then Anime
      else if Contains(s, "Movie", true) then AnimeMovie
      else if Contains(s, "OVA", true) || Contains(s, "Special", true) then OVA
      else Anime
  }

  /** `getStatus`: Ongoing exactly when the text contains "Ongoing" ignoring case. */
  function GetStatus(t: Option<string>): (r: ShowStatus)
    ensures r == Ongoing <==> t.Some? && Occurs(t.value, "Ongoing", true)
  {
    match t
    case None => Completed
    case Some(s) => if Contains(s, "Ongoing", true) then Ongoing else Completed
  }

  /** A text naming both a TV type and a movie is classified as Anime, in any letter case. */
  lemma TvBeatsMovie()
    ensures GetType(Some("TV Movie")) == Anime
    ensures GetType(Some("movie (tv)")) == Anime
  {
    assert RegionMatches("TV Movie", 0, "Tv", true);
    assert RegionMatches("movie (tv)", 7, "Tv", true);
  }

  /**
   * `Regex("(\\d+)\\s*<unit>").find(it)?.groupValues?.get(1)?.toIntOrNull() ?: 0`.
   */
  function UnitValue(t: string, unit: string): (r: int)
    ensures 0 <= r <= IntMax
    ensures FindFrom(t, NumberBefore(unit), 0).None? ==> r == 0
    ensures FindFrom(t, NumberBefore(unit), 0).Some? ==>
      var g := FindFrom(t, NumberBefore(unit), 0).value.group;
      r == if DigitsValue(g) <= IntMax then DigitsValue(g) else 0
  {
    match FindFrom(t, NumberBefore(unit), 0)
    case None => 0
    case Some(h) => ToIntOrNull(h.group).GetOr(0)
  }

  /**
   * The `Durasi:` text of `load` in minutes: hours and minutes taken from
   * their first matches, 0 when absent, combined with Kotlin's 32-bit `Int`
   * arithmetic (`h * 60 + m`).
   */
  function Duration(t: string): (r: int)
    ensures IntMin <= r <= IntMax
    ensures (r - (UnitValue(t, "hr") * 60 + UnitValue(t, "min"))) % TwoTo32 == 0
  {
    var h := UnitValue(t, "hr");
    var m := UnitValue(t, "min");
    Wrap32Twice(h * 60, m);
    Wrap32(Wrap32(h * 60) + m)
  }

  /** Wrapping after each of two steps is congruent to the exact sum modulo 2^32. */
  lemma Wrap32Twice(a: int, b: int)
    ensures (Wrap32(Wrap32(a) + b) - (a + b)) % TwoTo32 == 0
  {
    var w := Wrap32(a);
    var r := Wrap32(w + b);
    assert r - (a + b) == (r - (w + b)) + (w - a);
  }

  /** Without overflow the duration is exactly hours * 60 + minutes. */
  lemma DurationExact(t: string)
    requires UnitValue(t, "hr") * 60 + UnitValue(t, "min") <= IntMax
    ensures Duration(t) == UnitValue(t, "hr") * 60 + UnitValue(t, "min")
  {
    var h := UnitValue(t, "hr");
    assert h * 60 <= IntMax;
  }

  /** `this.duration = duration ?: 0`: no `Durasi:` element gives 0. */
  function DurationField(ownText: Option<string>): (r: int)
    ensures ownText.None? ==> r == 0
    ensures ownText.Some? ==> r == Duration(ownText.value)
  {
    match ownText
    case None => 0
    case Some(t) => Duration(t)
  }

  /** "H hr M min", as the site writes a duration, is read back as H * 60 + M minutes. */
  lemma DurationRoundTrip(h: nat, m: nat)
    requires h * 60 + m <= IntMax
    ensures Duration(DurationText(h, m)) == h * 60 + m
  {
    HoursOfDurationText(h, m);
    MinutesOfDurationText(h, m);
    DurationExact(DurationText(h, m));
  }

  function DurationText(h: nat, m: nat): string {
    NatToDecimal(h) + " hr " + NatToDecimal(m) + " min"
  }

  lemma HoursOfDurationText(h: nat, m: nat)
    requires h <= IntMax
    ensures UnitValue(DurationText(h, m), "hr") == h
  {
    var dh, dm := NatToDecimal(h), NatToDecimal(m);
    var s := DurationText(h, m);
    var a := |dh|;
    DurationLayout(dh, dm);
    NumberBeforeUnitMatches(s, 0, a, "hr");
    FindIsFirst(s, NumberBefore("hr"), 0, 0, dh);
    DecimalParsesBack(h);
  }

  lemma MinutesOfDurationText(h: nat, m: nat)
    requires m <= IntMax
    ensures UnitValue(DurationText(h, m), "min") == m
  {
    var dh, dm := NatToDecimal(h), NatToDecimal(m);
    var s := DurationText(h, m);
    DurationLayout(dh, dm);
    FirstMinutes(s, |dh|, |dh| + 4 + |dm|);
    DecimalParsesBack(m);
  }

  /** In "<digits> hr <digits> min", the first match of `(\\d+)\\s*min` is the second number. */
  lemma FirstMinutes(s: string, a: nat, b: nat)
    requires 0 < a && a + 4 < b && b + 4 == |s|
    requires forall k :: 0 <= k < a ==> IsDigit(s[k])
    requires forall k :: a + 4 <= k < b ==> IsDigit(s[k])
    requires s[a] == ' ' && s[a + 1] == 'h' && s[a + 2] == 'r' && s[a + 3] == ' '
    requires s[b] == ' ' && s[b + 1] == 'm' && s[b + 2] == 'i' && s[b + 3] == 'n'
    ensures FindFrom(s, NumberBefore("min"), 0) == Some(Hit(a + 4, s[a + 4..b]))
  {
    NoMinutesInHours(s, a);
    NumberBeforeUnitMatches(s, a + 4, b, "min");
    FindIsFirst(s, NumberBefore("min"), 0, a + 4, s[a + 4..b]);
  }

  /** In "<digits> hr ...", no match of `(\\d+)\\s*min` starts before the minutes. */
  lemma NoMinutesInHours(s: string, a: nat)
    requires 0 < a && a + 4 <= |s|
    requires forall k :: 0 <= k < a ==> IsDigit(s[k])
    requires s[a] == ' ' && s[a + 1] == 'h' && s[a + 2] == 'r' && s[a + 3] == ' '
    ensures forall j :: 0 <= j < a + 4 ==> MatchAt(NumberBefore("min"), s, j).None?
  {
    forall j | 0 <= j < a + 4
      ensures MatchAt(NumberBefore("min"), s, j).None?
    {
      if j < a {
        NoUnitAfterDigits(s, j, a, "min");
      } else {
        assert !IsDigit(s[j]);
      }
    }
  }

  /** A digit run followed by one space and a letter other than the unit's first does not match. */
  lemma NoUnitAfterDigits(s: string, i: nat, e: nat, unit: string)
    requires i < e && e + 1 < |s|
    requires forall k :: i <= k < e ==> IsDigit(s[k])
    requires s[e] == ' ' && !IsRegexSpace(s[e + 1]) && !IsDigit(s[e])
    requires unit != [] && s[e + 1] != unit[0]
    ensures MatchAt(NumberBefore(unit), s, i).None?
  {
    RunEndIs(s, i, e, IsDigit);
    RunEndIs(s, e, e + 1, IsRegexSpace);
    assert !CharEquals(s[e + 1], unit[0], false);
  }

  lemma DurationLayout(dh: string, dm: string)
    requires AllDigits(dh) && AllDigits(dm) && dh != [] && dm != []
    ensures var s := dh + " hr " + dm + " min"; var a := |dh|; var b := a + 4 + |dm|;
      && |s| == b + 4
      && s[..a] == dh && s[a + 4..b] == dm
      && (forall k :: 0 <= k < a ==> IsDigit(s[k]))
      && (forall k :: a + 4 <= k < b ==> IsDigit(s[k]))
      && s[a] == ' ' && s[a + 1] == 'h' && s[a + 2] == 'r' && s[a + 3] == ' '
      && s[b] == ' ' && s[b + 1] == 'm' && s[b + 2] == 'i' && s[b + 3] == 'n'
  {
    var s := dh + " hr " + dm + " min";
    var a := |dh|;
    var b := a + 4 + |dm|;
    assert s == dh + (" hr " + (dm + " min"));
    assert forall k :: a + 4 <= k < b ==> s[k] == dm[k - a - 4];
  }

  /** `(\\d+)\\s*<unit>` matches at `i` with group `s[i..e]` when `s[i..e]` is a digit run followed by one space and the unit. */
  lemma NumberBeforeUnitMatches(s: string, i: nat, e: nat, unit: string)
    requires i < e < |s|
    requires forall k :: i <= k < e ==> IsDigit(s[k])
    requires s[e] == ' ' && e + 1 + |unit| <= |s|
    requires forall k :: 0 <= k < |unit| ==> s[e + 1 + k] == unit[k]
    requires unit != [] && !IsRegexSpace(unit[0])
    ensures MatchAt(NumberBefore(unit), s, i) == Some(s[i..e])
  {
    RunEndIs(s, i, e, IsDigit);
    assert s[e + 1] == unit[0];
    RunEndIs(s, e, e + 1, IsRegexSpace);
    assert RegionMatches(s, e + 1, unit, false);
  }

  /** `ownText()?.filter { it.isDigit() }?.take(4)?.toIntOrNull()`. */
  function Year(ownText: Option<string>): (r: Option<int>)
    ensures r.Some? ==> 0 <= r.value <= 9999
    ensures r.None? <==> ownText.None? || FilterDigits(ownText.value) == []
    ensures r.Some? ==> var ds := FilterDigits(ownText.value);
      r.value == DigitsValue(ds[..if |ds| < 4 then |ds| else 4])
  {
    match ownText
    case None => None
    case Some(t) =>
      var ds := FilterDigits(t);
      var four := ds[..if |ds| < 4 then |ds| else 4];
      assert AllDigits(four);
      DigitsBound(four);
      ToIntOrNull(four)
  }

  /** A four-digit year written alone is read back as that year. */
  lemma YearOfDecimal(y: nat)
    requires 1000 <= y <= 9999
    ensures Year(Some(NatToDecimal(y))) == Some(y)
  {
    DecimalLength(y);
    DecimalRoundTrip(y);
    var ds := NatToDecimal(y);
    assert ds[..4] == ds;
  }
}
