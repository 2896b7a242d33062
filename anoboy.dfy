/**
 * The Anoboy provider: the iframe attribute picker, `loadLinks` (the player
 * iframe, then every base64-wrapped mirror, then every download anchor, all
 * with the page URL as referer), and the episode numbering of `load`.
 * `getType`, `getStatus` and the duration and year parsing are the shared
 * ones of `Metadata`.
 */
module Anoboy {
  import opened Wrappers
  import opened Text
  import opened Html
  import opened Metadata
  import Gojodesu

  // ---------------------------------------------------------------------
  // getIframeAttr

  /**
   * `Element?.getIframeAttr()`: `data-litespeed-src` if it is not empty, else
   * `data-src` if it is not empty, else `src` whatever it holds (possibly "");
   * null only for a missing element. The tests are for emptiness, not blankness.
   */
  function GetIframeAttr(iframe: Option<Element>): (r: Option<string>)
    ensures r.None? <==> iframe.None?
    ensures iframe.Some? ==> var e := iframe.value;
      && (Attr(e, "data-litespeed-src") != [] ==> r.value == Attr(e, "data-litespeed-src"))
      && (Attr(e, "data-litespeed-src") == [] && Attr(e, "data-src") != [] ==> r.value == Attr(e, "data-src"))
      && (Attr(e, "data-litespeed-src") == [] && Attr(e, "data-src") == [] ==> r.value == Attr(e, "src"))
  {
    match iframe
    case None => None
    case Some(e) =>
      if Attr(e, "data-litespeed-src") != [] then Some(Attr(e, "data-litespeed-src"))
      else if Attr(e, "data-src") != [] then Some(Attr(e, "data-src"))
      else Some(Attr(e, "src"))
  }

  /**
   * The two providers read an iframe in opposite orders: where both `src`
   * and `data-src` are set, Gojodesu's picker takes `src` and this one takes
   * `data-src`; where every attribute is empty, Gojodesu's gives nothing and
   * this one gives the empty `src`; a blank but non-empty `data-src` is
   * skipped by Gojodesu's and taken here.
   */
  lemma OppositePriorities(httpsify: string -> string)
    ensures var e := map["src" := "a", "data-src" := "b"];
      && GetIframeAttr(Some(e)) == Some("b")
      && Gojodesu.PickIframeSrc(Some(e), httpsify) == Some(httpsify("a"))
    ensures var e: Element := map[];
      && GetIframeAttr(Some(e)) == Some("")
      && Gojodesu.PickIframeSrc(Some(e), httpsify) == None
    ensures var e := map["src" := "a", "data-src" := " "];
      && GetIframeAttr(Some(e)) == Some(" ")
      && Gojodesu.PickIframeSrc(Some(e), httpsify) == Some(httpsify("a"))
  {
    var e1 := map["src" := "a", "data-src" := "b"];
    assert Attr(e1, "data-litespeed-src") == [];
    assert Attr(e1, "src") == "a" && !IsWhitespace("a"[0]);
    var e3 := map["src" := "a", "data-src" := " "];
    assert Attr(e3, "data-litespeed-src") == [];
    assert Attr(e3, "src") == "a";
  }

  // ---------------------------------------------------------------------
  // loadLinks

  /**
   * The mirror URL of a decoded fragment's first iframe: its `src` if not
   * blank, else its `data-src` if not blank, else none.
   */
  function MirrorIframeUrl(iframe: Option<Element>): (r: Option<string>)
    ensures iframe.None? ==> r.None?
    ensures iframe.Some? ==> var e := iframe.value;
      && (!IsBlank(Attr(e, "src")) ==> r == Some(Attr(e, "src")))
      && (IsBlank(Attr(e, "src")) && !IsBlank(Attr(e, "data-src")) ==> r == Some(Attr(e, "data-src")))
      && (IsBlank(Attr(e, "src")) && IsBlank(Attr(e, "data-src")) ==> r.None?)
  {
    match iframe
    case None => None
    case Some(e) => FirstNonBlank(e, ["src", "data-src"])
  }

  /**
   * The `try` block for one non-blank mirror token: strip every `\s`
   * character, base64-decode (`decode` is `None` where `base64Decode`
   * throws), parse the fragment and take its first iframe (`parseIframe`),
   * and dispatch the iframe's URL with the page as referer. A throw, a
   * missing iframe or a blank URL dispatches nothing.
   */
  function MirrorAttempt(token: string, decode: string -> Option<string>, parseIframe: string -> Option<Element>,
                         httpsify: string -> string, data: string): seq<Dispatch>
  {
    match decode(RemoveRegexSpace(token))
    case None => []
    case Some(html) =>
      match MirrorIframeUrl(parseIframe(html))
      case None => []
      case Some(mirrorUrl) => if IsBlank(mirrorUrl) then [] else [Dispatch(httpsify(mirrorUrl), data)]
  }

  /** One turn of the mirror loop: a blank token is skipped (`continue`) before any decoding. */
  function MirrorStep(token: string, decode: string -> Option<string>, parseIframe: string -> Option<Element>,
                      httpsify: string -> string, data: string): seq<Dispatch>
  {
    if IsBlank(token) then [] else MirrorAttempt(token, decode, parseIframe, httpsify, data)
  }

  function MirrorStepFn(decode: string -> Option<string>, parseIframe: string -> Option<Element>,
                        httpsify: string -> string, data: string): string -> seq<Dispatch>
  {
    token => MirrorStep(token, decode, parseIframe, httpsify, data)
  }

  /**
   * A mirror dispatches at most once: nothing for a blank token, whatever
   * `decode` does; otherwise the decoded fragment's iframe URL, exactly when
   * decoding succeeds and the iframe has a non-blank `src` or `data-src`.
   * There is no test for a placeholder label.
   */
  lemma MirrorStepSpec(token: string, decode: string -> Option<string>, parseIframe: string -> Option<Element>,
                       httpsify: string -> string, data: string)
    ensures var r := MirrorStep(token, decode, parseIframe, httpsify, data);
      var html := decode(RemoveRegexSpace(token));
      && |r| <= 1
      && (IsBlank(token) ==> r == [])
      && (!IsBlank(token) ==>
            (|r| == 1 <==> html.Some? && MirrorIframeUrl(parseIframe(html.value)).Some?))
      && (|r| == 1 ==> r[0] == Dispatch(httpsify(MirrorIframeUrl(parseIframe(html.value)).value), data))
  {
  }

  /**
   * Whitespace inside a token does not matter: a `\s` character inserted
   * anywhere into a non-blank token leaves the mirror's dispatch unchanged,
   * for every decoder.
   */
  lemma MirrorIgnoresSpaces(a: string, c: char, b: string, decode: string -> Option<string>,
                            parseIframe: string -> Option<Element>, httpsify: string -> string, data: string)
    requires IsRegexSpace(c) && !IsBlank(a + b)
    ensures MirrorStep(a + [c] + b, decode, parseIframe, httpsify, data)
         == MirrorStep(a + b, decode, parseIframe, httpsify, data)
  {
    StillNotBlank(a, c, b);
    SpaceRemoved(a, c, b);
  }

  lemma StillNotBlank(a: string, c: char, b: string)
    requires !IsBlank(a + b)
    ensures !IsBlank(a + [c] + b)
  {
    var j :| 0 <= j < |a + b| && !IsWhitespace((a + b)[j]);
    if j < |a| {
      assert (a + [c] + b)[j] == (a + b)[j];
    } else {
      assert (a + [c] + b)[j + 1] == (a + b)[j];
    }
  }

  lemma SpaceRemoved(a: string, c: char, b: string)
    requires IsRegexSpace(c)
    ensures RemoveRegexSpace(a + [c] + b) == RemoveRegexSpace(a + b)
  {
    var cb := [c] + b;
    assert cb[0] == c && cb[1..] == b;
    assert RemoveRegexSpace(cb) == RemoveRegexSpace(b);
    assert a + [c] + b == a + cb;
    RemoveRegexSpaceAppend(a, cb);
    RemoveRegexSpaceAppend(a, b);
  }

  /** One turn of the download loop: the trimmed `href`, dispatched when not blank. */
  function DownloadStep(href: string, httpsify: string -> string, data: string): seq<Dispatch>
  {
    var url := Trim(href);
    if IsBlank(url) then [] else [Dispatch(httpsify(url), data)]
  }

  function DownloadStepFn(httpsify: string -> string, data: string): string -> seq<Dispatch>
  {
    href => DownloadStep(href, httpsify, data)
  }

  /** The player iframe's dispatch: one exactly when the iframe exists, even for an empty `src`. */
  function EmbedPhase(page: Page, httpsify: string -> string, data: string): (r: seq<Dispatch>)
    ensures |r| <= 1
    ensures |r| == 1 <==> page.embed.Some?
    ensures |r| == 1 ==> r[0] == Dispatch(httpsify(GetIframeAttr(page.embed).value), data)
  {
    match GetIframeAttr(page.embed)
    case None => []
    case Some(iframe) => [Dispatch(httpsify(iframe), data)]
  }

  /** Everything `loadLinks` dispatches for the page at `data`: embed, mirrors, downloads. */
  function LinkPlan(data: string, page: Page, decode: string -> Option<string>, parseIframe: string -> Option<Element>,
                    httpsify: string -> string): seq<Dispatch>
  {
    EmbedPhase(page, httpsify, data)
    + Each(page.mirrorValues, MirrorStepFn(decode, parseIframe, httpsify, data))
    + Each(page.downloadHrefs, DownloadStepFn(httpsify, data))
  }

  /**
   * `loadLinks(data, ...)`: the player iframe, then the mirror loop (blank
   * tokens skipped, broken ones caught), then the download loop. Always
   * returns true.
   */
  method LoadLinks(data: string, page: Page, decode: string -> Option<string>, parseIframe: string -> Option<Element>,
                   httpsify: string -> string)
    returns (dispatched: seq<Dispatch>, result: bool)
    ensures result
    ensures dispatched == LinkPlan(data, page, decode, parseIframe, httpsify)
  {
    var embedded: seq<Dispatch> := [];
    var iframe := GetIframeAttr(page.embed);
    if iframe.Some? {
      embedded := [Dispatch(httpsify(iframe.value), data)];
    }

    var mirrorStep := MirrorStepFn(decode, parseIframe, httpsify, data);
    var mirrored: seq<Dispatch> := [];
    var i := 0;
    while i < |page.mirrorValues|
      invariant 0 <= i <= |page.mirrorValues|
      invariant mirrored == Each(page.mirrorValues[..i], mirrorStep)
    {
      var token := page.mirrorValues[i];
      EachPrefix(page.mirrorValues, i, mirrorStep);
      if IsBlank(token) {
        i := i + 1;
        continue;
      }
      mirrored := mirrored + MirrorAttempt(token, decode, parseIframe, httpsify, data);
      i := i + 1;
    }
    assert page.mirrorValues[..i] == page.mirrorValues;

    var downloadStep := DownloadStepFn(httpsify, data);
    var downloaded: seq<Dispatch> := [];
    var j := 0;
    while j < |page.downloadHrefs|
      invariant 0 <= j <= |page.downloadHrefs|
      invariant downloaded == Each(page.downloadHrefs[..j], downloadStep)
    {
      var url := Trim(page.downloadHrefs[j]);
      EachPrefix(page.downloadHrefs, j, downloadStep);
      if !IsBlank(url) {
        downloaded := downloaded + [Dispatch(httpsify(url), data)];
      }
      j := j + 1;
    }
    assert page.downloadHrefs[..j] == page.downloadHrefs;

    dispatched := embedded + mirrored + downloaded;
    result := true;
  }

  /**
   * A mirror whose decoding throws is skipped: the mirrors before and after
   * it dispatch exactly as they would without it.
   */
  lemma BrokenMirrorIsSkipped(before: seq<string>, token: string, after: seq<string>, decode: string -> Option<string>,
                              parseIframe: string -> Option<Element>, httpsify: string -> string, data: string)
    requires decode(RemoveRegexSpace(token)).None?
    ensures var step := MirrorStepFn(decode, parseIframe, httpsify, data);
      Each(before + [token] + after, step) == Each(before, step) + Each(after, step)
  {
    SkippedItem(before, token, after, MirrorStepFn(decode, parseIframe, httpsify, data));
  }

  /**
   * When no `href` is blank after trimming, the download loop dispatches
   * every one of them, trimmed, in document order.
   */
  lemma {:induction false} DownloadsInOrder(hrefs: seq<string>, httpsify: string -> string, data: string)
    requires forall k :: 0 <= k < |hrefs| ==> !IsBlank(Trim(hrefs[k]))
    ensures var r := Each(hrefs, DownloadStepFn(httpsify, data));
      && |r| == |hrefs|
      && forall k :: 0 <= k < |hrefs| ==> r[k] == Dispatch(httpsify(Trim(hrefs[k])), data)
  {
    if hrefs != [] {
      var n := |hrefs| - 1;
      var step := DownloadStepFn(httpsify, data);
      assert forall k :: 0 <= k < n ==> hrefs[..n][k] == hrefs[k];
      DownloadsInOrder(hrefs[..n], httpsify, data);
      var r := Each(hrefs[..n], step);
      DownloadKept(hrefs[n], httpsify, data);
      var x := Dispatch(httpsify(Trim(hrefs[n])), data);
      assert Each(hrefs, step) == r + [x];
      forall k | 0 <= k < |hrefs| ensures (r + [x])[k] == Dispatch(httpsify(Trim(hrefs[k])), data) {
        if k < n {
          assert (r + [x])[k] == r[k];
          assert hrefs[..n][k] == hrefs[k];
        }
      }
    }
  }

  lemma DownloadKept(href: string, httpsify: string -> string, data: string)
    requires !IsBlank(Trim(href))
    ensures DownloadStepFn(httpsify, data)(href) == [Dispatch(httpsify(Trim(href)), data)]
  {
  }

  /** An `href` that is blank after trimming dispatches nothing. */
  lemma DownloadSkipped(href: string, httpsify: string -> string, data: string)
    requires IsBlank(Trim(href))
    ensures DownloadStepFn(httpsify, data)(href) == []
  {
  }

  /**
   * A download anchor whose `href` is blank after trimming is skipped: the
   * anchors before and after it dispatch exactly as they would without it.
   */
  lemma BlankDownloadIsSkipped(before: seq<string>, href: string, after: seq<string>, httpsify: string -> string, data: string)
    requires IsBlank(Trim(href))
    ensures var step := DownloadStepFn(httpsify, data);
      Each(before + [href] + after, step) == Each(before, step) + Each(after, step)
  {
    DownloadSkipped(href, httpsify, data);
    SkippedItem(before, href, after, DownloadStepFn(httpsify, data));
  }

  /**
   * What `loadLinks` dispatches adds up to: the player iframe first when
   * there is one, at most one dispatch per mirror and per download anchor,
   * the download dispatches last, and the page URL as every referer.
   */
  lemma LinkPlanShape(data: string, page: Page, decode: string -> Option<string>, parseIframe: string -> Option<Element>,
                      httpsify: string -> string)
    ensures var plan := LinkPlan(data, page, decode, parseIframe, httpsify);
      var downloads := Each(page.downloadHrefs, DownloadStepFn(httpsify, data));
      && |plan| <= 1 + |page.mirrorValues| + |page.downloadHrefs|
      && (page.embed.Some? ==> plan[0] == Dispatch(httpsify(GetIframeAttr(page.embed).value), data))
      && |downloads| <= |plan| && plan[|plan| - |downloads|..] == downloads
      && AllReferTo(plan, data)
  {
    var e := EmbedPhase(page, httpsify, data);
    var m := Each(page.mirrorValues, MirrorStepFn(decode, parseIframe, httpsify, data));
    var d := Each(page.downloadHrefs, DownloadStepFn(httpsify, data));
    PhasesShape(data, page, decode, parseIframe, httpsify);
    var plan := e + m + d;
    assert plan[|plan| - |d|..] == d;
    if e != [] {
      assert plan[0] == e[0];
    }
    ThreeReferTo(e, m, d, data);
  }

  /** Each of the three phases dispatches at most once per item, with the page as referer. */
  lemma PhasesShape(data: string, page: Page, decode: string -> Option<string>, parseIframe: string -> Option<Element>,
                    httpsify: string -> string)
    ensures var m := Each(page.mirrorValues, MirrorStepFn(decode, parseIframe, httpsify, data));
      var d := Each(page.downloadHrefs, DownloadStepFn(httpsify, data));
      && |m| <= |page.mirrorValues| && |d| <= |page.downloadHrefs|
      && AllReferTo(m, data) && AllReferTo(d, data)
  {
    var mirrorStep := MirrorStepFn(decode, parseIframe, httpsify, data);
    var downloadStep := DownloadStepFn(httpsify, data);
    MirrorStepsShape(page.mirrorValues, decode, parseIframe, httpsify, data);
    DownloadStepsShape(page.downloadHrefs, httpsify, data);
    EachLength(page.mirrorValues, mirrorStep);
    EachLength(page.downloadHrefs, downloadStep);
    EachRefersTo(page.mirrorValues, mirrorStep, data);
    EachRefersTo(page.downloadHrefs, downloadStep, data);
  }

  lemma MirrorStepsShape(tokens: seq<string>, decode: string -> Option<string>, parseIframe: string -> Option<Element>,
                         httpsify: string -> string, data: string)
    ensures forall k :: 0 <= k < |tokens| ==>
      var r := MirrorStepFn(decode, parseIframe, httpsify, data)(tokens[k]);
      |r| <= 1 && AllReferTo(r, data)
  {
    forall k | 0 <= k < |tokens|
      ensures var r := MirrorStepFn(decode, parseIframe, httpsify, data)(tokens[k]);
        |r| <= 1 && AllReferTo(r, data)
    {
      MirrorStepSpec(tokens[k], decode, parseIframe, httpsify, data);
    }
  }

  lemma DownloadStepsShape(hrefs: seq<string>, httpsify: string -> string, data: string)
    ensures forall k :: 0 <= k < |hrefs| ==>
      var r := DownloadStepFn(httpsify, data)(hrefs[k]);
      |r| <= 1 && AllReferTo(r, data)
  {
  }

  lemma ThreeReferTo(e: seq<Dispatch>, m: seq<Dispatch>, d: seq<Dispatch>, data: string)
    requires AllReferTo(e, data) && AllReferTo(m, data) && AllReferTo(d, data)
    ensures AllReferTo(e + m + d, data)
  {
    var plan := e + m + d;
    forall k | 0 <= k < |plan| ensures plan[k].referer == data {
      if k < |e| {
        assert plan[k] == e[k];
      } else if k < |e| + |m| {
        assert plan[k] == m[k - |e|];
      } else {
        assert plan[k] == d[k - |e| - |m|];
      }
    }
  }

  // ---------------------------------------------------------------------
  // Episodes of load

  function Reversed(s: seq<string>): (r: seq<string>)
    ensures |r| == |s|
    ensures forall k :: 0 <= k < |s| ==> r[k] == s[|s| - 1 - k]
  {
    if s == [] then [] else [s[|s| - 1]] + Reversed(s[..|s| - 1])
  }

  /** `mapIndexed` from index `from`: the episode at index i is numbered i + 1. */
  function Numbered(hrefs: seq<string>, fixUrl: string -> string, from: nat): seq<Episode>
    decreases |hrefs|
  {
    if hrefs == [] then []
    else [Episode(fixUrl(hrefs[0]), "Episode " + IntToString(from + 1), Some(from + 1))]
         + Numbered(hrefs[1..], fixUrl, from + 1)
  }

  lemma {:induction false} NumberedAt(hrefs: seq<string>, fixUrl: string -> string, from: nat)
    ensures var r := Numbered(hrefs, fixUrl, from);
      && |r| == |hrefs|
      && forall k :: 0 <= k < |hrefs| ==>
           r[k] == Episode(fixUrl(hrefs[k]), "Episode " + IntToString(from + k + 1), Some(from + k + 1))
    decreases |hrefs|
  {
    if hrefs != [] {
      var tail := Numbered(hrefs[1..], fixUrl, from + 1);
      NumberedAt(hrefs[1..], fixUrl, from + 1);
      var head := Episode(fixUrl(hrefs[0]), "Episode " + IntToString(from + 1), Some(from + 1));
      assert Numbered(hrefs, fixUrl, from) == [head] + tail;
      forall k | 1 <= k < |hrefs|
        ensures ([head] + tail)[k] == Episode(fixUrl(hrefs[k]), "Episode " + IntToString(from + k + 1), Some(from + k + 1))
      {
        assert ([head] + tail)[k] == tail[k - 1];
        assert hrefs[1..][k - 1] == hrefs[k];
      }
    }
  }

  /** The episode list of `load`: the `div.eplister` anchors' `href`s reversed, then numbered. */
  function Episodes(hrefs: seq<string>, fixUrl: string -> string): seq<Episode> {
    Numbered(Reversed(hrefs), fixUrl, 0)
  }

  /**
   * The site lists the newest episode first: episode k (counting from 1) is
   * the k-th anchor from the bottom, named "Episode k" and numbered k.
   */
  lemma EpisodesNumbered(hrefs: seq<string>, fixUrl: string -> string)
    ensures var r := Episodes(hrefs, fixUrl);
      && |r| == |hrefs|
      && forall k :: 0 <= k < |hrefs| ==>
           r[k] == Episode(fixUrl(hrefs[|hrefs| - 1 - k]), "Episode " + IntToString(k + 1), Some(k + 1))
  {
    NumberedAt(Reversed(hrefs), fixUrl, 0);
  }

  /**
   * The numbering is 1, 2, ..., n: consecutive and strictly ascending, so
   * the list is already in the order a sort by episode number gives.
   */
  lemma EpisodesAscending(hrefs: seq<string>, fixUrl: string -> string)
    ensures var r := Episodes(hrefs, fixUrl);
      && (forall k :: 0 <= k < |r| ==> r[k].number == Some(k + 1))
      && (forall i, j :: 0 <= i < j < |r| ==> r[i].number.value < r[j].number.value)
  {
    EpisodesNumbered(hrefs, fixUrl);
  }
}
