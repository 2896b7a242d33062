/**
 * The Kuramanime host extractors: Linkbox (`Lbx`), Kuramadrive and
 * Pixeldrain. Each `getUrl` is modelled as the requests it makes and the
 * links it hands to `callback`, in order; what a request answers is a
 * parameter, with `None` where `parsedSafe` (or a `?.` chain after it) is null.
 */
module Kuramanime {
  import opened Wrappers
  import opened Text
  import opened Regex

  /** An HTTP request: URL, `referer` argument, extra headers and cookies. */
  datatype Request = Request(url: string, referer: Option<string>, headers: map<string, string>, cookies: map<string, string>)

  /**
   * A link handed to `callback`. `referer` is `None` and `headers` is empty
   * where the builder block does not set them.
   */
  datatype ExtractorLink = ExtractorLink(source: string, name: string, url: string, referer: Option<string>,
                                         quality: int, headers: map<string, string>)

  /** The requests one `getUrl` call makes and the links it emits, both in order. */
  datatype Outcome = Outcome(requests: seq<Request>, links: seq<ExtractorLink>)

  /** A nullable value rendered in a Kotlin string template: null becomes "null". */
  function Template(o: Option<string>): (r: string)
    ensures o.Some? ==> r == o.value
    ensures o.None? ==> r == "null"
  {
    match o
    case Some(v) => v
    case None => "null"
  }

  /** The container formats the extractors let through: `contains(".mp4") || contains(".m3u8")`, case-sensitive. */
  predicate IsStreamContainer(u: string) {
    Contains(u, ".mp4", false) || Contains(u, ".m3u8", false)
  }

  // ---------------------------------------------------------------------
  // Lbx (Linkbox)

  const LbxName: string := "Linkbox"
  const RealUrl: string := "https://www.linkbox.to"
  const ShareListPrefix: string :=
    "https://www.linkbox.to/api/file/share_out_list/?sortField=utime&sortAsc=0&pageNo=1&pageSize=50&shareToken="
  const DetailPrefix: string := "https://www.linkbox.to/api/file/detail?itemId="

  /** The alternatives of `(?:/f/|/file/|\?id=)(\w+)`, in order. */
  const TokenLiterals: seq<string> := ["/f/", "/file/", "?id="]

  /** One entry of `resolutionList`: both fields are nullable. */
  datatype Resolution = Resolution(url: Option<string>, resolution: Option<string>)

  /** `(?:/f/|/file/|\?id=)(\w+)`. */
  const TokenPattern: Pattern := AfterLiteral(TokenLiterals, Word)

  /** The share token of `url`, if the token pattern occurs in it. */
  function LbxToken(url: string): Option<string> {
    FirstGroup(url, TokenPattern)
  }

  /** `TokenLiterals[a]` followed by a word character occurs at `j`. */
  ghost predicate TokenAt(url: string, j: nat, a: nat) {
    a < |TokenLiterals| && LiteralThenRun(url, j, TokenLiterals[a], IsWordChar)
  }

  /** There is no token exactly when no alternative followed by a word character occurs anywhere. */
  lemma LbxTokenNone(url: string)
    ensures LbxToken(url).None? <==> forall j, a :: 0 <= j <= |url| ==> !TokenAt(url, j, a)
  {
    if LbxToken(url).None? {
      forall j, a | 0 <= j <= |url| ensures !TokenAt(url, j, a) {
        assert MatchAt(TokenPattern, url, j).None?;
        NoMatchNoLiteral(url, j);
      }
    } else {
      var h := FindFrom(url, TokenPattern, 0).value;
      assert AfterLiteralAt(url, h.start, TokenLiterals, IsWordChar) == Some(h.group);
      var a := FirstLiteralFrom(url, h.start, TokenLiterals, IsWordChar, 0).value;
      assert TokenAt(url, h.start, a);
    }
  }

  /**
   * `g` is the whole word-character run right after alternative `a` at
   * offset `j`, where `j` is the leftmost offset any alternative matches and
   * `a` the first alternative, in pattern order, that matches there.
   */
  ghost predicate IsTokenMatch(url: string, j: nat, a: nat, g: string) {
    && j <= |url| && TokenAt(url, j, a)
    && IsMaximalRunAt(url, j + |TokenLiterals[a]|, g, IsWordChar)
    && (forall b :: 0 <= b < a ==> !TokenAt(url, j, b))
    && (forall i, b :: 0 <= i < j ==> !TokenAt(url, i, b))
  }

  /** A token found is the one of the leftmost match, as `IsTokenMatch` says. */
  lemma LbxTokenSome(url: string)
    requires LbxToken(url).Some?
    ensures exists j, a :: IsTokenMatch(url, j, a, LbxToken(url).value)
  {
    var h := FindFrom(url, TokenPattern, 0).value;
    var a := TokenMatchOfHit(url, h);
  }

  /** The hit of the leftmost search is a token match, with the alternative that matched. */
  lemma TokenMatchOfHit(url: string, h: Hit) returns (a: nat)
    requires FindFrom(url, TokenPattern, 0) == Some(h)
    ensures IsTokenMatch(url, h.start, a, h.group)
  {
    assert AfterLiteralAt(url, h.start, TokenLiterals, IsWordChar) == Some(h.group);
    a := HitAlternative(url, h.start, h.group);
    NoTokenBefore(url, h.start);
  }

  lemma HitAlternative(url: string, j: nat, g: string) returns (a: nat)
    requires AfterLiteralAt(url, j, TokenLiterals, IsWordChar) == Some(g)
    ensures TokenAt(url, j, a) && IsMaximalRunAt(url, j + |TokenLiterals[a]|, g, IsWordChar)
    ensures forall b :: 0 <= b < a ==> !TokenAt(url, j, b)
  {
    AfterLiteralHit(url, j, TokenLiterals, IsWordChar);
    a := FirstLiteralFrom(url, j, TokenLiterals, IsWordChar, 0).value;
  }

  lemma NoTokenBefore(url: string, j: nat)
    requires forall i :: 0 <= i < j ==> MatchAt(TokenPattern, url, i).None?
    ensures forall i, b :: 0 <= i < j ==> !TokenAt(url, i, b)
  {
    forall i, b | 0 <= i < j ensures !TokenAt(url, i, b) {
      assert MatchAt(TokenPattern, url, i).None?;
      NoMatchNoLiteral(url, i);
    }
  }

  lemma NoMatchNoLiteral(url: string, j: nat)
    requires AfterLiteralAt(url, j, TokenLiterals, IsWordChar).None?
    ensures forall a :: 0 <= a < |TokenLiterals| ==> !LiteralThenRun(url, j, TokenLiterals[a], IsWordChar)
  {
    AfterLiteralMiss(url, j, TokenLiterals, IsWordChar);
  }

  /** The request for the shared folder's item id; a missing token is sent as the text "null". */
  function ShareRequest(token: Option<string>): Request {
    Request(ShareListPrefix + Template(token), None, map[], map[])
  }

  /** The request for the item's details, with the extractor's own URL as referer; a missing id is sent as "null". */
  function DetailRequest(id: Option<string>, url: string): Request {
    Request(DetailPrefix + Template(id), Some(url), map[], map[])
  }

  /**
   * The link for one resolution entry, if any: its URL must be present and be
   * an mp4 or m3u8 one (so an mkv is skipped).
   */
  function ResolutionLink(entry: Resolution, qualityFromName: Option<string> -> int): seq<ExtractorLink> {
    if entry.url.Some? && IsStreamContainer(entry.url.value) then
      [ExtractorLink(LbxName, LbxName, entry.url.value, Some(RealUrl + "/"), qualityFromName(entry.resolution), map[])]
    else []
  }

  /** The links of `resolutionList.map { ... }`, entry by entry. */
  function ResolutionLinks(entries: seq<Resolution>, qualityFromName: Option<string> -> int): seq<ExtractorLink> {
    if entries == [] then []
    else ResolutionLinks(entries[..|entries| - 1], qualityFromName) + ResolutionLink(entries[|entries| - 1], qualityFromName)
  }

  /**
   * `Lbx.getUrl(url)`: look up the item id of the share token, then its
   * resolution list (`None` when the response or any field on the way is
   * null), and emit one link per usable entry.
   */
  function LbxGetUrl(url: string, itemIdOf: Request -> Option<string>, resolutionsOf: Request -> Option<seq<Resolution>>,
                     qualityFromName: Option<string> -> int): Outcome
  {
    var share := ShareRequest(LbxToken(url));
    var detail := DetailRequest(itemIdOf(share), url);
    var links := match resolutionsOf(detail)
      case None => []
      case Some(entries) => ResolutionLinks(entries, qualityFromName);
    Outcome([share, detail], links)
  }

  /** `Lbx.getUrl` step by step: the two requests, then the callback loop over the resolution list. */
  method LbxFetch(url: string, itemIdOf: Request -> Option<string>, resolutionsOf: Request -> Option<seq<Resolution>>,
                  qualityFromName: Option<string> -> int)
    returns (requests: seq<Request>, links: seq<ExtractorLink>)
    ensures Outcome(requests, links) == LbxGetUrl(url, itemIdOf, resolutionsOf, qualityFromName)
  {
    var token := LbxToken(url);
    var share := ShareRequest(token);
    var id := itemIdOf(share);
    var detail := DetailRequest(id, url);
    requests := [share, detail];
    links := [];
    var list := resolutionsOf(detail);
    if list.Some? {
      var entries := list.value;
      var i := 0;
      while i < |entries|
        invariant 0 <= i <= |entries|
        invariant links == ResolutionLinks(entries[..i], qualityFromName)
      {
        var entry := entries[i];
        assert entries[..i + 1][..i] == entries[..i];
        if entry.url.Some? && IsStreamContainer(entry.url.value) {
          links := links + [ExtractorLink(LbxName, LbxName, entry.url.value, Some(RealUrl + "/"),
                                          qualityFromName(entry.resolution), map[])];
        }
        i := i + 1;
      }
      assert entries[..i] == entries;
    }
  }

  /** One entry emits one link exactly when its URL is present and is mp4 or m3u8; the link carries that URL. */
  lemma ResolutionLinkSpec(entry: Resolution, qualityFromName: Option<string> -> int)
    ensures var r := ResolutionLink(entry, qualityFromName);
      && |r| <= 1
      && (|r| == 1 <==> entry.url.Some? && (Occurs(entry.url.value, ".mp4", false) || Occurs(entry.url.value, ".m3u8", false)))
      && (|r| == 1 ==> r[0].url == entry.url.value && r[0].quality == qualityFromName(entry.resolution)
                       && LinkboxLink(r[0]))
  {
    assert RealUrl + "/" == "https://www.linkbox.to/";
  }

  /** A link as Linkbox emits it: its name, its referer, a streamable container and no headers. */
  ghost predicate LinkboxLink(l: ExtractorLink) {
    && l.source == "Linkbox" && l.name == "Linkbox"
    && l.referer == Some("https://www.linkbox.to/")
    && IsStreamContainer(l.url)
    && l.headers == map[]
  }

  /** Entries are independent: the links of `a + b` are those of `a`, then those of `b`. */
  lemma {:induction false} ResolutionLinksAppend(a: seq<Resolution>, b: seq<Resolution>, q: Option<string> -> int)
    ensures ResolutionLinks(a + b, q) == ResolutionLinks(a, q) + ResolutionLinks(b, q)
  {
    if b == [] {
      assert a + b == a;
    } else {
      var n := |b| - 1;
      var ab := a + b;
      assert ab[..|ab| - 1] == a + b[..n];
      assert ab[|ab| - 1] == b[n];
      ResolutionLinksAppend(a, b[..n], q);
      var x, y, z := ResolutionLinks(a, q), ResolutionLinks(b[..n], q), ResolutionLink(b[n], q);
      assert (x + y) + z == x + (y + z);
    }
  }

  /** At most one link per entry, and every link is a Linkbox one. */
  lemma {:induction false} ResolutionLinksShape(entries: seq<Resolution>, q: Option<string> -> int)
    ensures var r := ResolutionLinks(entries, q);
      && |r| <= |entries|
      && forall k :: 0 <= k < |r| ==> LinkboxLink(r[k])
  {
    if entries != [] {
      var n := |entries| - 1;
      ResolutionLinksShape(entries[..n], q);
      ResolutionLinkSpec(entries[n], q);
      var a: seq<ExtractorLink>, b: seq<ExtractorLink> := ResolutionLinks(entries[..n], q), ResolutionLink(entries[n], q);
      assert forall k :: 0 <= k < |a| ==> (a + b)[k] == a[k];
      assert forall k :: |a| <= k < |a + b| ==> (a + b)[k] == b[k - |a|];
    }
  }

  /** When every entry is usable, entry k gives link k: one link each, in list order. */
  lemma {:induction false} ResolutionLinksAllKept(entries: seq<Resolution>, q: Option<string> -> int)
    requires forall k :: 0 <= k < |entries| ==> entries[k].url.Some? && IsStreamContainer(entries[k].url.value)
    ensures var r := ResolutionLinks(entries, q);
      && |r| == |entries|
      && forall k :: 0 <= k < |entries| ==> r[k].url == entries[k].url.value && r[k].quality == q(entries[k].resolution)
  {
    if entries != [] {
      var n := |entries| - 1;
      assert forall k :: 0 <= k < n ==> entries[..n][k] == entries[k];
      ResolutionLinksAllKept(entries[..n], q);
      var a: seq<ExtractorLink>, b: seq<ExtractorLink> := ResolutionLinks(entries[..n], q), ResolutionLink(entries[n], q);
      forall k | 0 <= k < |entries|
        ensures (a + b)[k].url == entries[k].url.value && (a + b)[k].quality == q(entries[k].resolution)
      {
        if k < n {
          assert (a + b)[k] == a[k];
          assert entries[..n][k] == entries[k];
        }
      }
    }
  }

  /** When no entry is usable (no URL, or an mkv one), nothing is emitted. */
  lemma {:induction false} ResolutionLinksNoneKept(entries: seq<Resolution>, q: Option<string> -> int)
    requires forall k :: 0 <= k < |entries| ==> !(entries[k].url.Some? && IsStreamContainer(entries[k].url.value))
    ensures ResolutionLinks(entries, q) == []
  {
    if entries != [] {
      var n := |entries| - 1;
      assert forall k :: 0 <= k < n ==> entries[..n][k] == entries[k];
      ResolutionLinksNoneKept(entries[..n], q);
    }
  }

  /**
   * `Lbx.getUrl` always makes its two requests, the second with the
   * extractor's URL as referer, even when the token or the id is missing
   * (then "null" is sent); a null resolution list emits nothing.
   */
  lemma LbxRequests(url: string, itemIdOf: Request -> Option<string>, resolutionsOf: Request -> Option<seq<Resolution>>,
                    q: Option<string> -> int)
    ensures var o := LbxGetUrl(url, itemIdOf, resolutionsOf, q);
      && |o.requests| == 2
      && o.requests[0].url == ShareListPrefix + (if LbxToken(url).Some? then LbxToken(url).value else "null")
      && o.requests[1].url == DetailPrefix + (if itemIdOf(o.requests[0]).Some? then itemIdOf(o.requests[0]).value else "null")
      && o.requests[1].referer == Some(url)
      && (resolutionsOf(o.requests[1]).None? ==> o.links == [])
      && |o.links| <= (if resolutionsOf(o.requests[1]).Some? then |resolutionsOf(o.requests[1]).value| else 0)
  {
    var o := LbxGetUrl(url, itemIdOf, resolutionsOf, q);
    if resolutionsOf(o.requests[1]).Some? {
      ResolutionLinksShape(resolutionsOf(o.requests[1]).value, q);
    }
  }

  /** A share link `https://lbx.to/f/<token>` yields exactly its token. */
  lemma LbxTokenOfShareLink(t: string)
    requires t != [] && forall k :: 0 <= k < |t| ==> IsWordChar(t[k])
    ensures LbxToken("https://lbx.to/f/" + t) == Some(t)
  {
    var pre := "https://lbx.to/f/";
    var s := pre + t;
    assert s[..17] == pre;
    forall j | 0 <= j < 14 ensures MatchAt(TokenPattern, s, j).None? {
      NoTokenLiteralAt(s, j);
    }
    assert s[14..17] == "/f/";
    assert LiteralThenRun(s, 14, TokenLiterals[0], IsWordChar);
    assert FirstLiteralFrom(s, 14, TokenLiterals, IsWordChar, 0) == Some(0);
    assert forall k :: 17 <= k < |s| ==> s[k] == t[k - 17];
    RunEndIs(s, 17, |s|, IsWordChar);
    assert s[17..RunEnd(s, 17, IsWordChar)] == t;
    assert |TokenLiterals[0]| == 3;
    assert AfterLiteralAt(s, 14, TokenLiterals, IsWordChar) == Some(t);
    assert MatchAt(TokenPattern, s, 14) == Some(t);
    FindIsFirst(s, TokenPattern, 0, 14, t);
  }

  /** The characters of `https://lbx.to/f/` before its last `/`: no `?`, and no `/` followed by `f`. */
  lemma LbxPrefixChars(s: string, j: nat)
    requires |s| > 17 && s[..17] == "https://lbx.to/f/" && j < 14
    ensures s[j] != '?' && (s[j] != '/' || s[j + 1] != 'f')
  {
    assert s[j] == s[..17][j] && s[j + 1] == s[..17][j + 1];
  }

  /** Before offset 14 of `https://lbx.to/f/...` no alternative of the token pattern matches. */
  lemma NoTokenLiteralAt(s: string, j: nat)
    requires |s| > 17 && s[..17] == "https://lbx.to/f/" && j < 14
    ensures AfterLiteralAt(s, j, TokenLiterals, IsWordChar).None?
  {
    LbxPrefixChars(s, j);
    var m := if s[j] != '/' then 0 else 1;
    NoLiteralAt(s, j, "/f/", m);
    NoLiteralAt(s, j, "/file/", m);
    NoLiteralAt(s, j, "?id=", 0);
  }

  /** A literal that differs from `s` at its `m`-th character does not occur at `j`. */
  lemma NoLiteralAt(s: string, j: nat, lit: string, m: nat)
    requires m < |lit| && j + m < |s| && s[j + m] != lit[m]
    ensures !(j + |lit| <= |s| && s[j..j + |lit|] == lit)
  {
    if j + |lit| <= |s| {
      assert s[j..j + |lit|][m] == s[j + m];
    }
  }

  // ---------------------------------------------------------------------
  // Kuramadrive and getIndexQuality

  const KuramadriveName: string := "DriveKurama"
  const KuramadriveMainUrl: string := "https://kuramadrive.com"

  /**
   * `getIndexQuality(str)`: the number of the leftmost `(\d{3,4})[pP]` match
   * in `str` (null read as ""), else `unknown` (`Qualities.Unknown.value`).
   */
  function IndexQuality(str: Option<string>, unknown: int): (r: int)
    ensures var s := str.GetOr("");
      && (FirstGroup(s, Quality).None? ==> r == unknown)
      && (FirstGroup(s, Quality).Some? ==> 0 <= r <= 9999 && r == DigitsValue(FirstGroup(s, Quality).value))
  {
    var s := str.GetOr("");
    match FindFrom(s, Quality, 0)
    case None => unknown
    case Some(h) =>
      assert QualityAt(s, h.start) == Some(h.group);
      DigitsBound(h.group);
      ToIntOrNull(h.group).GetOr(unknown)
  }

  /**
   * A title whose first digits are a 3- or 4-digit resolution followed by
   * p or P, as in "Episode 01 1080p"-style titles without other digits before
   * it, gives that resolution, whatever follows.
   */
  lemma IndexQualityOfTitle(prefix: string, n: nat, c: char, rest: string, unknown: int)
    requires forall k :: 0 <= k < |prefix| ==> !IsDigit(prefix[k])
    requires 100 <= n <= 9999 && IsPChar(c)
    ensures IndexQuality(Some(prefix + NatToDecimal(n) + [c] + rest), unknown) == n
  {
    var d := NatToDecimal(n);
    DecimalLength(n);
    QualityFound(prefix, d, c, rest);
    DecimalParsesBack(n);
  }

  /** The leftmost match in `prefix + d + [c] + rest` is `d`, right after the digit-free prefix. */
  lemma QualityFound(prefix: string, d: string, c: char, rest: string)
    requires forall k :: 0 <= k < |prefix| ==> !IsDigit(prefix[k])
    requires 3 <= |d| <= 4 && AllDigits(d) && IsPChar(c)
    ensures FindFrom(prefix + d + [c] + rest, Quality, 0) == Some(Hit(|prefix|, d))
  {
    var s := prefix + d + [c] + rest;
    var i := |prefix|;
    QualityLayout(prefix, d, c, rest);
    forall j | 0 <= j < i ensures MatchAt(Quality, s, j).None? {
      assert !IsDigit(s[j]);
    }
    QualityOfDigits(s, i, d);
    FindIsFirst(s, Quality, 0, i, d);
  }

  lemma QualityLayout(prefix: string, d: string, c: char, rest: string)
    ensures var s := prefix + d + [c] + rest; var i := |prefix|;
      && i + |d| < |s| && s[i..i + |d|] == d && s[i + |d|] == c
      && forall k :: 0 <= k < i ==> s[k] == prefix[k]
  {
    var s := prefix + d + [c] + rest;
    assert s == prefix + (d + ([c] + rest));
  }

  /** A 3- or 4-digit run at `i` followed by p/P is read by `(\d{3,4})[pP]` as exactly that run. */
  lemma QualityOfDigits(s: string, i: nat, d: string)
    requires 3 <= |d| <= 4 && AllDigits(d)
    requires i + |d| < |s| && s[i..i + |d|] == d && IsPChar(s[i + |d|])
    ensures QualityAt(s, i) == Some(d)
  {
    if |d| == 3 {
      assert !IsDigit(s[i + 3]);
      assert !AllDigits(s[i..i + 4]) by { assert s[i..i + 4][3] == s[i + 3]; }
    } else {
      assert s[i..i + 4] == d;
    }
  }

  /** The page `app.get(url, referer)` returns: its title text, CSRF token, check route and cookies. */
  datatype DrivePage = DrivePage(title: string, csrfToken: string, routeCheckAvl: string, cookies: map<string, string>)

  /** The JSON request to the page's check route. */
  function SourceRequest(url: string, page: DrivePage): Request {
    Request(page.routeCheckAvl, Some(url), map["X-Requested-With" := "XMLHttpRequest", "X-CSRF-TOKEN" := page.csrfToken],
            page.cookies)
  }

  /**
   * `Kuramadrive.getUrl(url, referer)`: load the page, ask its check route
   * for the stream URL (`streamUrlOf` is `None` when parsing fails or `url`
   * is missing), and emit it only when it is mp4 or m3u8, with the page
   * title's resolution as quality.
   */
  function KuramadriveGetUrl(url: string, referer: Option<string>, load: Request -> DrivePage,
                             streamUrlOf: Request -> Option<string>, unknown: int): (r: Outcome)
    ensures var first := Request(url, referer, map[], map[]);
      var page := load(first);
      var second := SourceRequest(url, page);
      var stream := streamUrlOf(second);
      && r.requests == [first, second]
      && |r.links| <= 1
      && (|r.links| == 1 <==> stream.Some? && (Occurs(stream.value, ".mp4", false) || Occurs(stream.value, ".m3u8", false)))
      && (|r.links| == 1 ==> r.links[0] == ExtractorLink("DriveKurama", "DriveKurama", stream.value,
                                                         Some("https://kuramadrive.com/"),
                                                         IndexQuality(Some(page.title), unknown), map[]))
  {
    assert KuramadriveMainUrl + "/" == "https://kuramadrive.com/";
    var first := Request(url, referer, map[], map[]);
    var page := load(first);
    var second := SourceRequest(url, page);
    var links := match streamUrlOf(second)
      case None => []
      case Some(streamUrl) =>
        if !IsStreamContainer(streamUrl) then []
        else [ExtractorLink(KuramadriveName, KuramadriveName, streamUrl, Some(KuramadriveMainUrl + "/"),
                            IndexQuality(Some(page.title), unknown), map[])];
    Outcome([first, second], links)
  }

  /** The check-route request carries the AJAX marker, the page's CSRF token and cookies, and the page URL as referer. */
  lemma SourceRequestHeaders(url: string, page: DrivePage)
    ensures var q := SourceRequest(url, page);
      && q.url == page.routeCheckAvl && q.referer == Some(url) && q.cookies == page.cookies
      && q.headers.Keys == {"X-Requested-With", "X-CSRF-TOKEN"}
      && q.headers["X-Requested-With"] == "XMLHttpRequest" && q.headers["X-CSRF-TOKEN"] == page.csrfToken
  {
  }

  // ---------------------------------------------------------------------
  // Pixeldrain

  const PixeldrainName: string := "Pixeldrain"
  const PixeldrainMainUrl: string := "https://pixeldrain.com"
  const FilesystemPrefix: string := "https://pixeldrain.com/api/filesystem/"

  /** `/d/([a-zA-Z0-9]+)`. */
  const FilePattern: Pattern := AfterLiteral(["/d/"], Alnum)
  /** `/u/([a-zA-Z0-9]+)`. */
  const UserPattern: Pattern := AfterLiteral(["/u/"], Alnum)

  /** The file id: the run after the first `/d/` that has one, else after the first `/u/`. */
  function PixeldrainId(url: string): Option<string>
  {
    match FirstGroup(url, FilePattern)
    case Some(id) => Some(id)
    case None => FirstGroup(url, UserPattern)
  }

  /**
   * `Pixeldrain.getUrl(url)`: no id, no link; otherwise exactly one link to
   * the id's filesystem URL, of unknown quality, asking for the whole file.
   */
  function PixeldrainGetUrl(url: string, unknown: int): (r: seq<ExtractorLink>)
    ensures |r| <= 1
    ensures |r| == 1 <==> PixeldrainId(url).Some?
    ensures |r| == 1 ==> var l := r[0];
      && l.source == "Pixeldrain" && l.name == "Pixeldrain"
      && l.url == FilesystemPrefix + PixeldrainId(url).value
      && l.referer.None? && l.quality == unknown
      && l.headers == map["Range" := "bytes=0-", "Accept" := "*/*"]
  {
    assert PixeldrainMainUrl + "/api/filesystem/" == FilesystemPrefix;
    match PixeldrainId(url)
    case None => []
    case Some(id) =>
      [ExtractorLink(PixeldrainName, PixeldrainName, PixeldrainMainUrl + "/api/filesystem/" + id, None, unknown,
                     map["Range" := "bytes=0-", "Accept" := "*/*"])]
  }

  /** The id can be read back from the emitted URL: it is what follows the filesystem prefix. */
  lemma PixeldrainUrlHoldsId(url: string, unknown: int)
    requires PixeldrainId(url).Some?
    ensures var l := PixeldrainGetUrl(url, unknown)[0];
      |FilesystemPrefix| <= |l.url| && l.url[..|FilesystemPrefix|] == FilesystemPrefix
      && l.url[|FilesystemPrefix|..] == PixeldrainId(url).value
  {
  }

  /** A file link `https://pixeldrain.com/u/<id>` yields `<id>`. */
  lemma PixeldrainIdOfUserLink(id: string)
    requires id != [] && forall k :: 0 <= k < |id| ==> IsAlnum(id[k])
    ensures PixeldrainId("https://pixeldrain.com/u/" + id) == Some(id)
  {
    var pre := "https://pixeldrain.com/u/";
    var s := pre + id;
    assert s[..25] == pre;
    assert forall k :: 25 <= k < |s| ==> s[k] == id[k - 25];
    NoFileLink(s);
    UserLinkMatch(s);
    assert s[25..] == id;
  }

  lemma NoFileLink(s: string)
    requires |s| > 25 && s[..25] == "https://pixeldrain.com/u/"
    requires forall k :: 25 <= k < |s| ==> IsAlnum(s[k])
    ensures FirstGroup(s, FilePattern).None?
  {
    forall j | 0 <= j <= |s| ensures MatchAt(FilePattern, s, j).None? {
      if j + 2 < |s| {
        PixeldrainChars(s, j);
        var m := if s[j] != '/' then 0 else if s[j + 1] != 'd' then 1 else 2;
        NoLiteralAt(s, j, "/d/", m);
      }
    }
  }

  lemma UserLinkMatch(s: string)
    requires |s| > 25 && s[..25] == "https://pixeldrain.com/u/"
    requires forall k :: 25 <= k < |s| ==> IsAlnum(s[k])
    ensures FirstGroup(s, UserPattern) == Some(s[25..])
  {
    forall j | 0 <= j < 22 ensures MatchAt(UserPattern, s, j).None? {
      PixeldrainChars(s, j);
      var m := if s[j] != '/' then 0 else 1;
      NoLiteralAt(s, j, "/u/", m);
    }
    assert s[22..25] == "/u/";
    assert LiteralThenRun(s, 22, "/u/", IsAlnum);
    assert FirstLiteralFrom(s, 22, ["/u/"], IsAlnum, 0) == Some(0);
    RunEndIs(s, 25, |s|, IsAlnum);
    assert |["/u/"][0]| == 3 && s[25..RunEnd(s, 25, IsAlnum)] == s[25..];
    assert AfterLiteralAt(s, 22, ["/u/"], IsAlnum) == Some(s[25..]);
    assert MatchAt(UserPattern, s, 22) == Some(s[25..]);
    FindIsFirst(s, UserPattern, 0, 22, s[25..]);
  }

  /**
   * In `https://pixeldrain.com/u/<alnum>` no `/` is followed by `d`, and
   * the only `/` followed by `u` is the one at offset 22.
   */
  lemma PixeldrainChars(s: string, j: nat)
    requires |s| > 25 && s[..25] == "https://pixeldrain.com/u/" && j + 2 < |s|
    requires forall k :: 25 <= k < |s| ==> IsAlnum(s[k])
    ensures s[j] == '/' && s[j + 1] == 'd' ==> s[j + 2] != '/'
    ensures j < 22 ==> s[j] != '/' || s[j + 1] != 'u'
  {
    if j + 2 < 25 {
      assert s[j] == s[..25][j] && s[j + 1] == s[..25][j + 1] && s[j + 2] == s[..25][j + 2];
    } else if j + 1 < 25 {
      assert s[j] == s[..25][j] && s[j + 1] == s[..25][j + 1];
    }
  }

  /**
   * `/d/` wins over `/u/` wherever each occurs: when `/d/<alnum>` occurs
   * anywhere the id is the leftmost one of those, even after a `/u/` link;
   * only without one is the leftmost `/u/<alnum>` taken; with neither there is no id.
   */
  lemma PixeldrainIdSpec(url: string)
    ensures (exists j :: 0 <= j <= |url| && MatchAt(FilePattern, url, j).Some?) ==>
      PixeldrainId(url).Some? && PixeldrainId(url) == FirstGroup(url, FilePattern)
    ensures (forall j :: 0 <= j <= |url| ==> MatchAt(FilePattern, url, j).None?) ==>
      PixeldrainId(url) == FirstGroup(url, UserPattern)
    ensures PixeldrainId(url).None? <==>
      forall j :: 0 <= j <= |url| ==> MatchAt(FilePattern, url, j).None? && MatchAt(UserPattern, url, j).None?
  {
  }
}
