/**
 * The Gojodesu provider: origin and referer derivation, the iframe picker,
 * `loadLinks` (direct embed, then every mirror sub-page), and the episode
 * list of `load` (numbering fallbacks and the stable sort by number).
 */
module Gojodesu {
  import opened Wrappers
  import opened Text
  import opened Regex
  import opened Html
  import opened Metadata

  const MainUrl: string := "https://gojodesu.com"

  /** Attribute priority of `pickIframeSrc`: `src` first. */
  const IframeKeys: seq<string> := ["src", "data-src", "data-litespeed-src"]

  const MirrorSentinel: string := "Select Video Server"

  // ---------------------------------------------------------------------
  // getBaseUrl and refererOf

  /**
   * Where `^https?://` (case-insensitive) ends in `u`, if it matches. The
   * greedy `s?` is tried first; giving it back leaves `s` where `:` must be,
   * so the two cases exclude each other.
   */
  function SchemeEnd(u: string): (r: Option<nat>)
    ensures r.Some? ==> (r.value == 7 || r.value == 8) && r.value <= |u|
    ensures r.Some? ==> RegionMatches(u, 0, "http", true)
  {
    if !RegionMatches(u, 0, "http", true) then None
    else if RegionMatches(u, 4, "s://", true) then Some(8)
    else if RegionMatches(u, 4, "://", true) then Some(7)
    else None
  }

  /** `o` is a whole `https?://[^/]+` (case-insensitive). */
  ghost predicate IsOrigin(o: string) {
    && SchemeEnd(o).Some?
    && SchemeEnd(o).value < |o|
    && forall k :: SchemeEnd(o).value <= k < |o| ==> o[k] != '/'
  }

  /** Group 1 of `^(https?://[^/]+)` with IGNORE_CASE: the longest such prefix. */
  function Origin(u: string): (r: Option<string>)
    ensures r.Some? ==> IsOrigin(r.value) && |r.value| <= |u| && u[..|r.value|] == r.value
    ensures r.Some? ==> |r.value| == |u| || u[|r.value|] == '/'
  {
    match SchemeEnd(u)
    case None => None
    case Some(k) =>
      var e := RunEnd(u, k, NotSlash);
      if e > k then
        assert SchemeEnd(u[..e]) == SchemeEnd(u) by { SchemeEndOfPrefix(u, e); }
        Some(u[..e])
      else None
  }

  /** The scheme test reads only the first eight characters. */
  lemma SchemeEndOfPrefix(u: string, n: nat)
    requires 8 <= n <= |u|
    ensures SchemeEnd(u[..n]) == SchemeEnd(u)
  {
    var p := u[..n];
    assert forall k :: 0 <= k < n ==> p[k] == u[k];
    assert RegionMatches(p, 0, "http", true) == RegionMatches(u, 0, "http", true);
    assert RegionMatches(p, 4, "s://", true) == RegionMatches(u, 4, "s://", true);
    assert RegionMatches(p, 4, "://", true) == RegionMatches(u, 4, "://", true);
  }

  /**
   * The regex takes the longest origin: any prefix of the URL that is an
   * origin is covered by the match, so a failed match means there is none.
   */
  lemma OriginIsLongest(u: string, n: nat)
    requires n <= |u| && IsOrigin(u[..n])
    ensures Origin(u).Some? && n <= |Origin(u).value|
  {
    var p := u[..n];
    var k := SchemeEnd(p).value;
    SchemeEndOfPrefix(u, n);
    var e := RunEnd(u, k, NotSlash);
  }

  /** `getBaseUrl(url)`: the origin of `httpsify(url)`, or `mainUrl`. */
  function GetBaseUrl(url: string, httpsify: string -> string): (r: string)
    ensures Origin(httpsify(url)).Some? ==> r == Origin(httpsify(url)).value
    ensures Origin(httpsify(url)).None? ==> r == MainUrl
    ensures r != [] && r[|r| - 1] != '/'
  {
    match Origin(httpsify(url))
    case Some(o) => o
    case None => MainUrl
  }

  /**
   * `refererOf(embedUrl)`: the origin of the embed URL itself followed by
   * exactly one '/', or `mainUrl + "/"`.
   */
  function RefererOf(embedUrl: string, httpsify: string -> string): (r: string)
    ensures |r| >= 2 && r[|r| - 1] == '/' && r[|r| - 2] != '/'
    ensures r == GetBaseUrl(embedUrl, httpsify) + "/"
  {
    var base := GetBaseUrl(embedUrl, httpsify);
    assert TrimEndChar(base, '/') == base;
    TrimEndChar(base, '/') + "/"
  }

  /**
   * The referer is the embed's own `scheme://authority/` whenever the
   * (httpsified) embed URL has one, and the site's root otherwise.
   */
  lemma RefererIsEmbedOrigin(embedUrl: string, httpsify: string -> string)
    ensures var u := httpsify(embedUrl); var r := RefererOf(embedUrl, httpsify);
      var o := r[..|r| - 1];
      (IsOrigin(o) && |o| <= |u| && u[..|o|] == o && (|o| == |u| || u[|o|] == '/'))
      || (o == MainUrl && forall n :: 0 <= n <= |u| ==> !IsOrigin(u[..n]))
  {
    var u := httpsify(embedUrl);
    var r := RefererOf(embedUrl, httpsify);
    assert r[..|r| - 1] == GetBaseUrl(embedUrl, httpsify);
    if Origin(u).None? {
      forall n | 0 <= n <= |u| ensures !IsOrigin(u[..n]) {
        if IsOrigin(u[..n]) {
          OriginIsLongest(u, n);
        }
      }
    }
  }

  // ---------------------------------------------------------------------
  // pickIframeSrc and loadLinks

  /**
   * `pickIframeSrc`: `httpsify` of the first non-blank attribute among
   * `src`, `data-src`, `data-litespeed-src`, in that order.
   */
  function PickIframeSrc(iframe: Option<Element>, httpsify: string -> string): (r: Option<string>)
    ensures iframe.None? ==> r.None?
    ensures iframe.Some? ==> var e := iframe.value;
      && (!IsBlank(Attr(e, "src")) ==> r == Some(httpsify(Attr(e, "src"))))
      && (IsBlank(Attr(e, "src")) && !IsBlank(Attr(e, "data-src")) ==> r == Some(httpsify(Attr(e, "data-src"))))
      && (IsBlank(Attr(e, "src")) && IsBlank(Attr(e, "data-src")) && !IsBlank(Attr(e, "data-litespeed-src"))
          ==> r == Some(httpsify(Attr(e, "data-litespeed-src"))))
      && (IsBlank(Attr(e, "src")) && IsBlank(Attr(e, "data-src")) && IsBlank(Attr(e, "data-litespeed-src"))
          ==> r.None?)
  {
    match iframe
    case None => None
    case Some(e) =>
      match FirstNonBlank(e, IframeKeys)
      case None => None
      case Some(v) => Some(httpsify(v))
  }

  /** A mirror value survives the filter: not blank and not the placeholder label. */
  predicate KeepMirror(v: string) {
    !IsBlank(v) && !EqualsIgnoreCase(v, MirrorSentinel)
  }

  /** What one `option` value contributes to the mirror list. */
  function KeptMirror(v: string): (r: seq<string>)
    ensures |r| <= 1
    ensures |r| == 1 <==> KeepMirror(Trim(v))
    ensures |r| == 1 ==> r[0] == Trim(v) && r[0] != [] && !IsWhitespace(r[0][0]) && !IsWhitespace(r[0][|r[0]| - 1])
  {
    var t := Trim(v);
    if KeepMirror(t) then [t] else []
  }

  /** `map { it.trim() }.filter { it.isNotBlank() && !it.equals("Select Video Server", true) }`. */
  function KeptMirrors(values: seq<string>): (r: seq<string>)
    ensures |r| <= |values|
    ensures forall k :: 0 <= k < |r| ==> KeepMirror(r[k])
  {
    if values == [] then []
    else KeptMirror(values[0]) + KeptMirrors(values[1..])
  }

  /** The filter keeps the order of the values: it distributes over concatenation. */
  lemma {:induction false} KeptMirrorsAppend(a: seq<string>, b: seq<string>)
    ensures KeptMirrors(a + b) == KeptMirrors(a) + KeptMirrors(b)
  {
    if a == [] {
      assert a + b == b;
    } else {
      assert (a + b)[0] == a[0];
      assert (a + b)[1..] == a[1..] + b;
      KeptMirrorsAppend(a[1..], b);
    }
  }

  /** One value alone is kept, trimmed, exactly when its trimmed form passes the filter. */
  lemma KeptMirrorsSingle(v: string)
    ensures KeptMirrors([v]) == if KeepMirror(Trim(v)) then [Trim(v)] else []
  {
    assert [v][1..] == [];
  }

  /**
   * One iteration of the mirror loop: the body of its `runCatching` block,
   * which loads `httpsify(page)`, picks the iframe and dispatches it. `fetch` stands
   * for `app.get(pageUrl).document` followed by the iframe selection, and is
   * `None` when it throws.
   */
  function MirrorDispatch(mirror: string, fetch: string -> Option<Option<Element>>, httpsify: string -> string): seq<Dispatch>
  {
    match fetch(httpsify(mirror))
    case None => []
    case Some(iframe) =>
      match PickIframeSrc(iframe, httpsify)
      case None => []
      case Some(embed) => [Dispatch(embed, RefererOf(embed, httpsify))]
  }

  /**
   * A mirror yields a dispatch exactly when its page loads and has a usable
   * iframe; the dispatch goes to that iframe's URL with its own referer.
   */
  lemma MirrorDispatchSpec(mirror: string, fetch: string -> Option<Option<Element>>, httpsify: string -> string)
    ensures var r := MirrorDispatch(mirror, fetch, httpsify);
      && |r| <= 1
      && (|r| == 1 <==> fetch(httpsify(mirror)).Some? && PickIframeSrc(fetch(httpsify(mirror)).value, httpsify).Some?)
      && (|r| == 1 ==> Some(r[0].url) == PickIframeSrc(fetch(httpsify(mirror)).value, httpsify))
      && (|r| == 1 ==> RefererFits(r[0], httpsify))
  {
  }

  function MirrorDispatchFn(fetch: string -> Option<Option<Element>>, httpsify: string -> string): string -> seq<Dispatch>
  {
    mirror => MirrorDispatch(mirror, fetch, httpsify)
  }

  /** The dispatches of the mirror loop over `mirrors`, in order. */
  function MirrorPhase(mirrors: seq<string>, fetch: string -> Option<Option<Element>>, httpsify: string -> string): seq<Dispatch>
  {
    Each(mirrors, MirrorDispatchFn(fetch, httpsify))
  }

  /** A dispatch whose referer is the one `refererOf` derives from its own URL. */
  predicate RefererFits(d: Dispatch, httpsify: string -> string) {
    d.referer == RefererOf(d.url, httpsify)
  }

  /** Every dispatch in `ds` carries the referer derived from its own URL. */
  ghost predicate AllFit(ds: seq<Dispatch>, httpsify: string -> string) {
    forall k :: 0 <= k < |ds| ==> RefererFits(ds[k], httpsify)
  }

  lemma AllFitAppend(a: seq<Dispatch>, b: seq<Dispatch>, httpsify: string -> string)
    requires AllFit(a, httpsify) && AllFit(b, httpsify)
    ensures AllFit(a + b, httpsify)
  {
    forall k | 0 <= k < |a + b| ensures RefererFits((a + b)[k], httpsify) {
      if k < |a| { assert (a + b)[k] == a[k]; } else { assert (a + b)[k] == b[k - |a|]; }
    }
  }

  /** Every mirror dispatch carries the referer derived from its own URL. */
  lemma {:induction false} MirrorPhaseReferers(mirrors: seq<string>, fetch: string -> Option<Option<Element>>, httpsify: string -> string)
    ensures AllFit(MirrorPhase(mirrors, fetch, httpsify), httpsify)
  {
    if mirrors != [] {
      var n := |mirrors| - 1;
      MirrorPhaseReferers(mirrors[..n], fetch, httpsify);
      MirrorDispatchSpec(mirrors[n], fetch, httpsify);
      var a, b := MirrorPhase(mirrors[..n], fetch, httpsify), MirrorDispatch(mirrors[n], fetch, httpsify);
      assert MirrorPhase(mirrors, fetch, httpsify) == a + b;
      AllFitAppend(a, b, httpsify);
    }
  }

  /** At most one dispatch per mirror. */
  lemma MirrorPhaseLength(mirrors: seq<string>, fetch: string -> Option<Option<Element>>, httpsify: string -> string)
    ensures |MirrorPhase(mirrors, fetch, httpsify)| <= |mirrors|
  {
    forall k | 0 <= k < |mirrors| ensures |MirrorDispatchFn(fetch, httpsify)(mirrors[k])| <= 1 {
      MirrorDispatchSpec(mirrors[k], fetch, httpsify);
    }
    EachLength(mirrors, MirrorDispatchFn(fetch, httpsify));
  }

  /**
   * A mirror that dispatches nothing (its page fails to load or has no usable
   * iframe, see `MirrorDispatchSpec`) leaves the other mirrors' dispatches as they are.
   */
  lemma FailedMirrorIsSkipped(a: seq<string>, m: string, b: seq<string>, fetch: string -> Option<Option<Element>>, httpsify: string -> string)
    requires MirrorDispatch(m, fetch, httpsify) == []
    ensures MirrorPhase(a + [m] + b, fetch, httpsify) == MirrorPhase(a, fetch, httpsify) + MirrorPhase(b, fetch, httpsify)
  {
    SkippedItem(a, m, b, MirrorDispatchFn(fetch, httpsify));
  }

  /** The direct-embed dispatch, if the page's iframe has a usable attribute. */
  function DirectPhase(page: Page, httpsify: string -> string): (r: seq<Dispatch>)
    ensures |r| <= 1
    ensures |r| == 1 <==> PickIframeSrc(page.embed, httpsify).Some?
    ensures |r| == 1 ==> Some(r[0].url) == PickIframeSrc(page.embed, httpsify)
    ensures |r| == 1 ==> r[0].referer == RefererOf(r[0].url, httpsify)
  {
    match PickIframeSrc(page.embed, httpsify)
    case None => []
    case Some(embed) => [Dispatch(embed, RefererOf(embed, httpsify))]
  }

  /** Everything `loadLinks` dispatches for `page`, in order. */
  function LinkPlan(page: Page, fetch: string -> Option<Option<Element>>, httpsify: string -> string): seq<Dispatch> {
    DirectPhase(page, httpsify) + MirrorPhase(KeptMirrors(page.mirrorValues), fetch, httpsify)
  }

  /**
   * The mirror loop of `loadLinks`: one `runCatching` attempt per mirror page,
   * in order; an attempt that throws or finds no iframe dispatches nothing.
   */
  method DispatchMirrors(mirrorPages: seq<string>, fetch: string -> Option<Option<Element>>, httpsify: string -> string)
    returns (dispatched: seq<Dispatch>)
    ensures dispatched == MirrorPhase(mirrorPages, fetch, httpsify)
  {
    dispatched := [];
    var i := 0;
    while i < |mirrorPages|
      invariant 0 <= i <= |mirrorPages|
      invariant dispatched == MirrorPhase(mirrorPages[..i], fetch, httpsify)
    {
      EachPrefix(mirrorPages, i, MirrorDispatchFn(fetch, httpsify));
      dispatched := dispatched + MirrorDispatch(mirrorPages[i], fetch, httpsify);
      i := i + 1;
    }
    assert mirrorPages[..i] == mirrorPages;
  }

  /**
   * `loadLinks`: the direct embed first, then one attempt per kept mirror;
   * a mirror that fails is skipped and the loop goes on. Always returns true.
   */
  method LoadLinks(page: Page, fetch: string -> Option<Option<Element>>, httpsify: string -> string)
    returns (dispatched: seq<Dispatch>, result: bool)
    ensures result
    ensures dispatched == LinkPlan(page, fetch, httpsify)
  {
    var direct := DirectPhase(page, httpsify);
    var mirrorPages := KeptMirrors(page.mirrorValues);
    var mirrored := DispatchMirrors(mirrorPages, fetch, httpsify);
    dispatched := direct + mirrored;
    result := true;
  }

  /**
   * What the dispatches of `loadLinks` add up to: at most one per kept
   * mirror plus the direct one, the direct one first, and every referer
   * derived from its own URL, never from the page.
   */
  lemma LinkPlanShape(page: Page, fetch: string -> Option<Option<Element>>, httpsify: string -> string)
    ensures var plan := LinkPlan(page, fetch, httpsify);
      && |plan| <= 1 + |KeptMirrors(page.mirrorValues)|
      && (PickIframeSrc(page.embed, httpsify).Some? ==>
            plan[0] == Dispatch(PickIframeSrc(page.embed, httpsify).value,
                                RefererOf(PickIframeSrc(page.embed, httpsify).value, httpsify)))
      && (PickIframeSrc(page.embed, httpsify).None? ==>
            plan == MirrorPhase(KeptMirrors(page.mirrorValues), fetch, httpsify))
      && AllFit(plan, httpsify)
  {
    var d := DirectPhase(page, httpsify);
    var m := MirrorPhase(KeptMirrors(page.mirrorValues), fetch, httpsify);
    assert AllFit(d, httpsify);
    MirrorPhaseLength(KeptMirrors(page.mirrorValues), fetch, httpsify);
    MirrorPhaseReferers(KeptMirrors(page.mirrorValues), fetch, httpsify);
    AllFitAppend(d, m, httpsify);
    if d != [] {
      assert (d + m)[0] == d[0];
    } else {
      assert d + m == m;
    }
  }

  // ---------------------------------------------------------------------
  // Episodes of load

  /** The `a` element of an episode row. */
  datatype Anchor = Anchor(href: string, text: string)

  /**
   * One `div.eplister ul li` row: its anchor, the text of `.epl-num` and of
   * `.epl-title` (each absent when the element is).
   */
  datatype EpisodeRow = EpisodeRow(anchor: Option<Anchor>, numText: Option<string>, titleText: Option<string>)

  /** `Regex("(\\d+)").find(t)?.groupValues?.get(1)?.toIntOrNull()`. */
  function FirstNumber(t: string): (r: Option<int>)
    ensures r.Some? ==> 0 <= r.value <= IntMax
    ensures FindFrom(t, Digits, 0).None? ==> r.None?
    ensures FindFrom(t, Digits, 0).Some? ==> r == ToIntOrNull(FindFrom(t, Digits, 0).value.group)
    ensures r.Some? ==> exists j :: 0 <= j <= |t| && DigitsAt(t, j).Some?
                                    && r.value == DigitsValue(DigitsAt(t, j).value)
                                    && forall k :: 0 <= k < j ==> DigitsAt(t, k).None?
  {
    match FindFrom(t, Digits, 0)
    case None => None
    case Some(h) =>
      assert DigitsAt(t, h.start) == Some(h.group);
      assert AllDigits(h.group);
      assert forall k :: 0 <= k < h.start ==> DigitsAt(t, k) == MatchAt(Digits, t, k);
      ToIntOrNull(h.group)
  }

  /**
   * The episode number: the digits of `.epl-num`, else the first number in
   * `.epl-title`, else the first number in the anchor's text. A step that
   * yields nothing (absent, no digits, or over `Int.MAX_VALUE`) falls through.
   */
  function EpisodeNumber(row: EpisodeRow, a: Anchor): (r: Option<int>)
    ensures r.Some? ==> 0 <= r.value <= IntMax
    ensures row.numText.Some? && ToIntOrNull(FilterDigits(row.numText.value)).Some? ==>
      r == ToIntOrNull(FilterDigits(row.numText.value))
    ensures (row.numText.None? || ToIntOrNull(FilterDigits(row.numText.value)).None?) ==>
      r == (if row.titleText.Some? && FirstNumber(row.titleText.value).Some?
            then FirstNumber(row.titleText.value) else FirstNumber(a.text))
  {
    var fromNum := if row.numText.Some? then ToIntOrNull(FilterDigits(row.numText.value)) else None;
    if fromNum.Some? then
      assert 0 <= fromNum.value by {
        var ds := FilterDigits(row.numText.value);
        assert ds == [] || (AllDigits(ds) && fromNum.value == DigitsValue(ds));
      }
      fromNum
    else
      var fromTitle := if row.titleText.Some? then FirstNumber(row.titleText.value) else None;
      if fromTitle.Some? then fromTitle else FirstNumber(a.text)
  }

  /**
   * One row of the `mapNotNull`: rows without an anchor are dropped; the
   * name is the trimmed `.epl-title` text, else "Episode N", else "Episode".
   */
  function RowEpisode(row: EpisodeRow, fixUrl: string -> string): (r: Option<Episode>)
    ensures r.None? <==> row.anchor.None?
    ensures r.Some? ==> r.value.url == fixUrl(row.anchor.value.href)
    ensures r.Some? ==> r.value.number == EpisodeNumber(row, row.anchor.value)
    ensures r.Some? && row.titleText.Some? ==> r.value.name == Trim(row.titleText.value)
    ensures r.Some? && row.titleText.None? && r.value.number.Some? ==>
      r.value.name == "Episode " + IntToString(r.value.number.value)
    ensures r.Some? && row.titleText.None? && r.value.number.None? ==> r.value.name == "Episode"
  {
    match row.anchor
    case None => None
    case Some(a) =>
      var num := EpisodeNumber(row, a);
      var title := if row.titleText.Some? then Some(Trim(row.titleText.value)) else None;
      var name := title.GetOr(if num.Some? then "Episode " + IntToString(num.value) else "Episode");
      Some(Episode(fixUrl(a.href), name, num))
  }

  /** What one row contributes to the `mapNotNull`: its episode, or nothing. */
  function RowItem(row: EpisodeRow, fixUrl: string -> string): seq<Episode> {
    match RowEpisode(row, fixUrl)
    case None => []
    case Some(e) => [e]
  }

  /** The `mapNotNull` over the rows: one episode per row with an anchor, in page order. */
  function RowEpisodes(rows: seq<EpisodeRow>, fixUrl: string -> string): seq<Episode> {
    if rows == [] then [] else RowItem(rows[0], fixUrl) + RowEpisodes(rows[1..], fixUrl)
  }

  /** Every episode number read from the page is within `Int`. */
  lemma {:induction false} RowEpisodesInRange(rows: seq<EpisodeRow>, fixUrl: string -> string)
    ensures AllInRange(RowEpisodes(rows, fixUrl))
  {
    if rows != [] {
      RowEpisodesInRange(rows[1..], fixUrl);
      RowItemInRange(rows[0], fixUrl);
      AllInRangeAppend(RowItem(rows[0], fixUrl), RowEpisodes(rows[1..], fixUrl));
    }
  }

  lemma RowItemInRange(row: EpisodeRow, fixUrl: string -> string)
    ensures AllInRange(RowItem(row, fixUrl))
  {
    if RowEpisode(row, fixUrl).Some? {
      assert NumberInRange(RowEpisode(row, fixUrl).value);
    }
  }

  lemma AllInRangeAppend(h: seq<Episode>, t: seq<Episode>)
    requires AllInRange(h) && AllInRange(t)
    ensures AllInRange(h + t)
  {
    forall k | 0 <= k < |h + t| ensures NumberInRange((h + t)[k]) {
      if k < |h| {
        assert (h + t)[k] == h[k];
      } else {
        assert (h + t)[k] == t[k - |h|];
      }
    }
  }

  /** The `mapNotNull` keeps page order: it distributes over concatenation. */
  lemma {:induction false} RowEpisodesAppend(a: seq<EpisodeRow>, b: seq<EpisodeRow>, fixUrl: string -> string)
    ensures RowEpisodes(a + b, fixUrl) == RowEpisodes(a, fixUrl) + RowEpisodes(b, fixUrl)
  {
    if a != [] {
      var ab := a + b;
      assert ab[0] == a[0];
      assert ab[1..] == a[1..] + b;
      RowEpisodesAppend(a[1..], b, fixUrl);
      var h, x, y := RowItem(a[0], fixUrl), RowEpisodes(a[1..], fixUrl), RowEpisodes(b, fixUrl);
      assert RowEpisodes(ab, fixUrl) == h + (x + y);
      assert h + (x + y) == (h + x) + y;
    } else {
      assert a + b == b;
    }
  }

  /** One row alone gives its episode exactly when it has an anchor. */
  lemma RowEpisodesSingle(row: EpisodeRow, fixUrl: string -> string)
    ensures RowEpisodes([row], fixUrl) ==
      if RowEpisode(row, fixUrl).Some? then [RowEpisode(row, fixUrl).value] else []
  {
    assert [row][1..] == [];
  }

  /** The sort key of `sortedBy { it.episode ?: Int.MAX_VALUE }`. */
  function SortKey(e: Episode): int {
    e.number.GetOr(IntMax)
  }

  ghost predicate SortedByKey(s: seq<Episode>) {
    forall i, j :: 0 <= i < j < |s| ==> SortKey(s[i]) <= SortKey(s[j])
  }

  /** The episodes with sort key `k`, in their order in `s`. */
  function WithKey(s: seq<Episode>, k: int): seq<Episode>
  {
    if s == [] then []
    else (if SortKey(s[0]) == k then [s[0]] else []) + WithKey(s[1..], k)
  }

  /** Places `x` before the first element whose key is not smaller than its own. */
  function Insert(x: Episode, s: seq<Episode>): seq<Episode>
  {
    if s == [] || SortKey(x) <= SortKey(s[0]) then [x] + s
    else [s[0]] + Insert(x, s[1..])
  }

  /** Stable sort by `SortKey`, as Kotlin's `sortedBy`. */
  function SortByKey(s: seq<Episode>): seq<Episode>
  {
    if s == [] then []
    else Insert(s[0], SortByKey(s[1..]))
  }

  lemma {:induction false} InsertPermutes(x: Episode, s: seq<Episode>)
    ensures multiset(Insert(x, s)) == multiset(s) + multiset{x}
  {
    if s != [] && SortKey(x) > SortKey(s[0]) {
      InsertPermutes(x, s[1..]);
      assert s == [s[0]] + s[1..];
    }
  }

  lemma {:induction false} InsertSorted(x: Episode, s: seq<Episode>)
    requires SortedByKey(s)
    ensures SortedByKey(Insert(x, s))
    ensures forall k :: 0 <= k < |Insert(x, s)| ==> Insert(x, s)[k] == x || Insert(x, s)[k] in s
  {
    if s != [] && SortKey(x) > SortKey(s[0]) {
      InsertSorted(x, s[1..]);
      var t := Insert(x, s[1..]);
      forall k | 0 <= k < |t| ensures SortKey(s[0]) <= SortKey(t[k]) {
        if t[k] != x {
          assert t[k] in s[1..];
        }
      }
    }
  }

  /** `WithKey` of a sequence with a known head. */
  lemma WithKeyCons(x: Episode, s: seq<Episode>, k: int)
    ensures WithKey([x] + s, k) == (if SortKey(x) == k then [x] else []) + WithKey(s, k)
  {
    assert ([x] + s)[0] == x;
    assert ([x] + s)[1..] == s;
  }

  lemma {:induction false} InsertKeepsKeyOrder(x: Episode, s: seq<Episode>, k: int)
    requires SortedByKey(s)
    ensures WithKey(Insert(x, s), k) == (if SortKey(x) == k then [x] else []) + WithKey(s, k)
  {
    if s == [] || SortKey(x) <= SortKey(s[0]) {
      WithKeyCons(x, s, k);
    } else {
      var y, rest := s[0], s[1..];
      assert s == [y] + rest;
      InsertKeepsKeyOrder(x, rest, k);
      WithKeyCons(y, Insert(x, rest), k);
      WithKeyCons(y, rest, k);
      var ys: seq<Episode> := if SortKey(y) == k then [y] else [];
      var xs: seq<Episode> := if SortKey(x) == k then [x] else [];
      if SortKey(x) == k {
        assert SortKey(y) < k;
        assert ys == [];
      }
      assert WithKey(Insert(x, s), k) == ys + (xs + WithKey(rest, k));
    }
  }

  /** A number read from the page is never above `Int.MAX_VALUE`. */
  predicate NumberInRange(e: Episode) {
    e.number.Some? ==> e.number.value <= IntMax
  }

  ghost predicate AllInRange(s: seq<Episode>) {
    forall k :: 0 <= k < |s| ==> NumberInRange(s[k])
  }

  lemma {:induction false} SortKeepsRange(s: seq<Episode>)
    requires AllInRange(s)
    ensures AllInRange(SortByKey(s))
  {
    if s != [] {
      SortKeepsRange(s[1..]);
      InsertKeepsRange(s[0], SortByKey(s[1..]));
    }
  }

  lemma {:induction false} InsertKeepsRange(x: Episode, s: seq<Episode>)
    requires NumberInRange(x) && AllInRange(s)
    ensures AllInRange(Insert(x, s))
  {
    if s != [] && SortKey(x) > SortKey(s[0]) {
      InsertKeepsRange(x, s[1..]);
      var t := Insert(x, s[1..]);
      assert Insert(x, s) == [s[0]] + t;
      assert forall k :: 1 <= k < |t| + 1 ==> ([s[0]] + t)[k] == t[k - 1];
    }
  }

  /**
   * `sortedBy` is a stable sort: the result is ordered by key, is a
   * permutation of the input, and episodes with equal keys keep their order.
   */
  lemma {:induction false} SortByKeyCorrect(s: seq<Episode>)
    ensures SortedByKey(SortByKey(s))
    ensures multiset(SortByKey(s)) == multiset(s)
    ensures forall k :: WithKey(SortByKey(s), k) == WithKey(s, k)
  {
    if s != [] {
      SortByKeyCorrect(s[1..]);
      InsertSorted(s[0], SortByKey(s[1..]));
      InsertPermutes(s[0], SortByKey(s[1..]));
      assert s == [s[0]] + s[1..];
      forall k ensures WithKey(SortByKey(s), k) == WithKey(s, k) {
        InsertKeepsKeyOrder(s[0], SortByKey(s[1..]), k);
      }
    }
  }

  /** The episode list of `load`: the rows with an anchor, stably sorted by number. */
  function Episodes(rows: seq<EpisodeRow>, fixUrl: string -> string): seq<Episode> {
    SortByKey(RowEpisodes(rows, fixUrl))
  }

  /**
   * Sorting by `episode ?: Int.MAX_VALUE` puts episodes in ascending number,
   * an episode without a number after every numbered one (except one
   * numbered `Int.MAX_VALUE`, which ties with it), and keeps ties in order.
   */
  lemma {:induction false} SortedByNumber(s: seq<Episode>)
    requires AllInRange(s)
    ensures var r := SortByKey(s);
      && multiset(r) == multiset(s)
      && (forall i, j :: 0 <= i < j < |r| && r[i].number.Some? && r[j].number.Some? ==>
            r[i].number.value <= r[j].number.value)
      && (forall i, j :: 0 <= i < j < |r| && r[i].number.None? ==>
            r[j].number.None? || r[j].number == Some(IntMax))
      && forall k :: WithKey(r, k) == WithKey(s, k)
  {
    SortByKeyCorrect(s);
    SortKeepsRange(s);
  }

  /** The episode list of `load` is the page's episodes, ordered as `SortedByNumber` says. */
  lemma EpisodesOrdered(rows: seq<EpisodeRow>, fixUrl: string -> string)
    ensures var r := Episodes(rows, fixUrl); var s := RowEpisodes(rows, fixUrl);
      && multiset(r) == multiset(s)
      && (forall i, j :: 0 <= i < j < |r| && r[i].number.Some? && r[j].number.Some? ==>
            r[i].number.value <= r[j].number.value)
      && (forall i, j :: 0 <= i < j < |r| && r[i].number.None? ==>
            r[j].number.None? || r[j].number == Some(IntMax))
      && forall k :: WithKey(r, k) == WithKey(s, k)
  {
    RowEpisodesInRange(rows, fixUrl);
    SortedByNumber(RowEpisodes(rows, fixUrl));
  }
}
