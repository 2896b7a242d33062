# Anime provider core: Gojodesu, Anoboy and the Kuramanime extractors

This project models the parts of three CloudStream provider plugins that make
decisions, and it proves properties of them.

- **Gojodesu** (`Gojodesu.kt`)
  - The type classifier `getType` and the status classifier `getStatus`.
  - The duration and release-year parsing of `load`.
  - The episode list of `load`: the three-step number fallback, the name fallback, and the stable sort by `episode ?: Int.MAX_VALUE`.
  - `loadLinks`: the page's own iframe first, then every enabled mirror option. Options that are blank or carry the "Select Video Server" label are dropped. Each kept mirror page is fetched and its iframe is dispatched.
  - The referer for a dispatch comes from `refererOf`/`getBaseUrl`, as the `scheme://authority/` of the embed URL.
- **Anoboy** (`Anoboy.kt`)
  - The same `getType`, `getStatus`, duration and year code. `Anoboy.kt:26-42` and `Anoboy.kt:95-104` are character for character the code of `Gojodesu.kt:27-43` and `Gojodesu.kt:97-106`, so module `Metadata` models both once.
  - The reversed, 1-based episode numbering.
  - `getIframeAttr`.
  - `loadLinks` in three phases. The player iframe comes first. Then come the base64-wrapped mirror fragments, where whitespace is stripped, a decode failure is caught, and the fragment's iframe `src`/`data-src` is used. Last come the trimmed download anchors. Every dispatch uses the page URL as referer.
- **Kuramanime extractors** (`Extractors.kt`)
  - `Lbx.getUrl`: the share token regex, the two API requests, and the mp4/m3u8 filter over the resolution list.
  - `Kuramadrive.getUrl` with `getIndexQuality`.
  - `Pixeldrain.getUrl`: `/d/` is preferred over `/u/`, and the link goes to the filesystem URL.

How the model is built:

- An HTML element is its attribute map.
- A `loadExtractor` call is a `Dispatch(url, referer)` value. `loadLinks` is proved equal to a list of dispatches.
- The extractors' output is the list of requests they make and of `ExtractorLink`s they emit (an `Outcome`).
- Everything the code asks a library or the network is a function parameter. This covers `app.get` plus jsoup selection, `base64Decode`, `httpsify`, `fixUrl`, `getQualityFromName` and `Qualities.Unknown.value`. A call that throws, or a `parsedSafe` that yields null, is `None`.
- The fixed regular expressions are written as matchers in module `Regex`. Their greedy and leftmost-first semantics are spelled out there.
- Kotlin's `Int` is modelled with its bounds (`toIntOrNull` fails above `Int.MAX_VALUE`) and 32-bit wrap-around (`h * 60 + m`).

Modules by file:

- `wrappers.dfy`: `Option`.
- `text.dfy`: Kotlin string and number primitives.
- `regex.dfy`: the patterns and `find`.
- `html.dfy`: elements, pages, dispatches, and the generic `Each` loop.
- `metadata.dfy`: the shared classifiers, duration and year.
- `gojodesu.dfy`, `anoboy.dfy`, `kuramanime.dfy`: one module per source file.

`loadLinks` of both providers and `Lbx.getUrl` are `method`s with loops. Each one is proved equal to the specification function that the lemmas speak about.

## Model

| member | source | states |
|---|---|---|
| Metadata.GetType | Gojodesu/src/main/kotlin/com/gojodesu/Gojodesu.kt:27-35 | null is Anime; a case-insensitive "Tv" wins; AnimeMovie exactly when "Movie" occurs without "Tv"; OVA exactly when "OVA" or "Special" occurs without either |
| Metadata.GetStatus | Gojodesu/src/main/kotlin/com/gojodesu/Gojodesu.kt:37-43 | Ongoing exactly when the text is present and contains "Ongoing" in any case |
| Metadata.TvBeatsMovie | Anoboy/src/main/kotlin/com/anoboy/Anoboy.kt:26-34 | "TV Movie" and "movie (tv)" are Anime: the Tv test comes first and ignores case |
| Metadata.UnitValue | Gojodesu/src/main/kotlin/com/gojodesu/Gojodesu.kt:103-104 | the first `(\d+)\s*unit` number, 0 when no match, 0 when it overflows `Int`; always within 0..Int.MAX_VALUE |
| Metadata.Duration | Gojodesu/src/main/kotlin/com/gojodesu/Gojodesu.kt:102-106 | `h * 60 + m` in 32-bit `Int` arithmetic: within `Int` bounds and congruent to the exact hours * 60 + minutes modulo 2^32 |
| Metadata.DurationExact | Gojodesu/src/main/kotlin/com/gojodesu/Gojodesu.kt:105 | without overflow the duration is exactly hours * 60 + minutes |
| Metadata.DurationField | Gojodesu/src/main/kotlin/com/gojodesu/Gojodesu.kt:188 | a missing `Durasi:` element gives 0, a present one its parsed duration |
| Metadata.DurationRoundTrip | Anoboy/src/main/kotlin/com/anoboy/Anoboy.kt:100-104 | "H hr M min" is read back as H * 60 + M minutes |
| Metadata.HoursOfDurationText | Anoboy/src/main/kotlin/com/anoboy/Anoboy.kt:101 | in "H hr M min" the hours pattern finds H |
| Metadata.MinutesOfDurationText | Anoboy/src/main/kotlin/com/anoboy/Anoboy.kt:102 | in "H hr M min" the minutes pattern skips the hours and finds M |
| Metadata.Year | Gojodesu/src/main/kotlin/com/gojodesu/Gojodesu.kt:97-100 | null exactly when the element is missing or has no digit; otherwise the value of the first (up to) four digits, within 0..9999 |
| Metadata.YearOfDecimal | Anoboy/src/main/kotlin/com/anoboy/Anoboy.kt:95-98 | a four-digit year written alone is read back as itself |
| Regex.FindFrom | Gojodesu/src/main/kotlin/com/gojodesu/Gojodesu.kt:150-151 | `find` returns the match at the leftmost offset where the pattern matches, and none only when it matches nowhere |
| Regex.FirstGroup | KuramanimeProvider/src/main/kotlin/com/kuramanime/Extractors.kt:38 | `find(..)?.groupValues?.get(1)` is present exactly when some offset matches, and is the group of the leftmost one |
| Regex.FindIsFirst | Gojodesu/src/main/kotlin/com/gojodesu/Gojodesu.kt:103-104 | a match with none before it is what `find` returns |
| Regex.DigitsAt | Gojodesu/src/main/kotlin/com/gojodesu/Gojodesu.kt:150 | `(\d+)` matches exactly at a digit, capturing the maximal digit run |
| Regex.NumberBeforeUnitAt | Gojodesu/src/main/kotlin/com/gojodesu/Gojodesu.kt:103-104 | `(\d+)\s*unit` captures the maximal digit run when the unit follows the space run, and fails otherwise |
| Regex.QualityAt | KuramanimeProvider/src/main/kotlin/com/kuramanime/Extractors.kt:131 | `(\d{3,4})[pP]` captures 3 or 4 digits followed by p/P, trying four first |
| Regex.AfterLiteralMiss | KuramanimeProvider/src/main/kotlin/com/kuramanime/Extractors.kt:38 | an alternation followed by `(\w+)` fails at an offset exactly when no alternative there is followed by a word character |
| Regex.AfterLiteralHit | KuramanimeProvider/src/main/kotlin/com/kuramanime/Extractors.kt:38 | a match takes the first alternative, in pattern order, that is followed by a class character, and captures the maximal run after it |
| Gojodesu.Origin | Gojodesu/src/main/kotlin/com/gojodesu/Gojodesu.kt:256 | group 1 of `^(https?://[^/]+)` is a prefix of the URL that ends at the end or at a `/` |
| Gojodesu.OriginIsLongest | Gojodesu/src/main/kotlin/com/gojodesu/Gojodesu.kt:256 | every `https?://[^/]+` prefix of the URL is at most as long as the match |
| Gojodesu.GetBaseUrl | Gojodesu/src/main/kotlin/com/gojodesu/Gojodesu.kt:254-258 | the origin of the httpsified URL, or `mainUrl` when it has none; never ends in `/` |
| Gojodesu.RefererOf | Gojodesu/src/main/kotlin/com/gojodesu/Gojodesu.kt:224-225 | the base URL with exactly one trailing `/` |
| Gojodesu.RefererIsEmbedOrigin | Gojodesu/src/main/kotlin/com/gojodesu/Gojodesu.kt:224-225 | the referer is the embed's own `scheme://authority/`, or the site root exactly when the embed URL has no origin |
| Gojodesu.PickIframeSrc | Gojodesu/src/main/kotlin/com/gojodesu/Gojodesu.kt:227-232 | the httpsified first non-blank of `src`, `data-src`, `data-litespeed-src`, in that order, and none when all are blank or the iframe is missing |
| Gojodesu.KeptMirror | Gojodesu/src/main/kotlin/com/gojodesu/Gojodesu.kt:238-240 | one option value is kept, trimmed, exactly when its trimmed form is neither blank nor "Select Video Server" ignoring case |
| Gojodesu.KeptMirrors | Gojodesu/src/main/kotlin/com/gojodesu/Gojodesu.kt:238-240 | no more values than options, and every kept value passes the filter |
| Gojodesu.KeptMirrorsAppend | Gojodesu/src/main/kotlin/com/gojodesu/Gojodesu.kt:238-240 | the filter keeps document order: it distributes over concatenation |
| Gojodesu.KeptMirrorsSingle | Gojodesu/src/main/kotlin/com/gojodesu/Gojodesu.kt:238-240 | a single value is kept exactly when its trimmed form passes the filter |
| Gojodesu.MirrorDispatchSpec | Gojodesu/src/main/kotlin/com/gojodesu/Gojodesu.kt:242-249 | a mirror dispatches at most once, exactly when its page loads and has a usable iframe, to that iframe with its own origin as referer |
| Gojodesu.MirrorPhaseReferers | Gojodesu/src/main/kotlin/com/gojodesu/Gojodesu.kt:242-249 | every mirror dispatch carries the referer derived from its own URL |
| Gojodesu.MirrorPhaseLength | Gojodesu/src/main/kotlin/com/gojodesu/Gojodesu.kt:242-249 | at most one dispatch per mirror |
| Gojodesu.FailedMirrorIsSkipped | Gojodesu/src/main/kotlin/com/gojodesu/Gojodesu.kt:243-248 | a mirror that fails (`runCatching`) or has no iframe leaves the other mirrors' dispatches unchanged |
| Gojodesu.DirectPhase | Gojodesu/src/main/kotlin/com/gojodesu/Gojodesu.kt:234-236 | one dispatch exactly when the page's iframe has a usable attribute, to the picked URL with its own referer |
| Gojodesu.DispatchMirrors | Gojodesu/src/main/kotlin/com/gojodesu/Gojodesu.kt:242-249 | the mirror loop dispatches what `MirrorPhase` specifies, in mirror order |
| Gojodesu.LoadLinks | Gojodesu/src/main/kotlin/com/gojodesu/Gojodesu.kt:216-252 | returns true and dispatches the direct embed, then the kept mirrors' embeds |
| Gojodesu.LinkPlanShape | Gojodesu/src/main/kotlin/com/gojodesu/Gojodesu.kt:216-252 | at most one dispatch plus one per kept mirror, the direct embed first, and every referer derived from the dispatch's own URL |
| Gojodesu.FirstNumber | Gojodesu/src/main/kotlin/com/gojodesu/Gojodesu.kt:150-151 | none when `(\d+)` matches nowhere; otherwise `toIntOrNull` of the leftmost run, which is that run's value when it fits in `Int` and none when it overflows |
| Gojodesu.EpisodeNumber | Gojodesu/src/main/kotlin/com/gojodesu/Gojodesu.kt:149-151 | the digits of `.epl-num`, else the first number of `.epl-title`, else of the anchor text; each step falls through when it yields nothing |
| Gojodesu.RowEpisode | Gojodesu/src/main/kotlin/com/gojodesu/Gojodesu.kt:147-156 | a row without an anchor is dropped; URL via `fixUrl`; name is the trimmed title, else "Episode N", else "Episode" |
| Gojodesu.RowEpisodesInRange | Gojodesu/src/main/kotlin/com/gojodesu/Gojodesu.kt:147-156 | every episode number read from the page is within `Int` |
| Gojodesu.RowEpisodesAppend | Gojodesu/src/main/kotlin/com/gojodesu/Gojodesu.kt:147-156 | the `mapNotNull` keeps page order: it distributes over concatenation of the rows |
| Gojodesu.RowEpisodesSingle | Gojodesu/src/main/kotlin/com/gojodesu/Gojodesu.kt:147-148 | one row gives its episode exactly when it has an anchor, and nothing otherwise |
| Gojodesu.InsertPermutes | Gojodesu/src/main/kotlin/com/gojodesu/Gojodesu.kt:157 | one insertion step of the sort adds exactly that element |
| Gojodesu.InsertSorted | Gojodesu/src/main/kotlin/com/gojodesu/Gojodesu.kt:157 | an insertion step keeps the list sorted by key |
| Gojodesu.InsertKeepsKeyOrder | Gojodesu/src/main/kotlin/com/gojodesu/Gojodesu.kt:157 | an insertion step places the element before the ones with the same key; since the sort inserts each element into the already sorted rest, this keeps equal keys in their original order (stability) |
| Gojodesu.SortByKeyCorrect | Gojodesu/src/main/kotlin/com/gojodesu/Gojodesu.kt:157 | `sortedBy` is sorted by key, a permutation, and keeps the order of equal keys |
| Gojodesu.SortedByNumber | Gojodesu/src/main/kotlin/com/gojodesu/Gojodesu.kt:157 | numbered episodes ascend, unnumbered ones come after all others except one numbered `Int.MAX_VALUE`, and ties keep page order |
| Gojodesu.EpisodesOrdered | Gojodesu/src/main/kotlin/com/gojodesu/Gojodesu.kt:146-157 | the episode list is a stable, ascending-by-number permutation of the page's episodes |
| Anoboy.GetIframeAttr | Anoboy/src/main/kotlin/com/anoboy/Anoboy.kt:267-271 | null only for a missing element; `data-litespeed-src` if non-empty, else `data-src` if non-empty, else `src` as it is |
| Anoboy.OppositePriorities | Anoboy/src/main/kotlin/com/anoboy/Anoboy.kt:267-271 | where Gojodesu's picker takes `src` this one takes `data-src`; it returns an empty `src` and takes a blank `data-src` where Gojodesu's does neither |
| Anoboy.MirrorIframeUrl | Anoboy/src/main/kotlin/com/anoboy/Anoboy.kt:234-238 | the fragment iframe's `src` if not blank, else `data-src` if not blank, else none |
| Anoboy.MirrorStepSpec | Anoboy/src/main/kotlin/com/anoboy/Anoboy.kt:227-245 | a blank token dispatches nothing; otherwise one dispatch exactly when decoding succeeds and the iframe has a usable URL, httpsified, with the page as referer |
| Anoboy.MirrorIgnoresSpaces | Anoboy/src/main/kotlin/com/anoboy/Anoboy.kt:231 | a `\s` character inserted anywhere into a non-blank token leaves the dispatch unchanged |
| Anoboy.BrokenMirrorIsSkipped | Anoboy/src/main/kotlin/com/anoboy/Anoboy.kt:242-244 | a token whose decoding throws leaves the other mirrors' dispatches unchanged |
| Anoboy.EmbedPhase | Anoboy/src/main/kotlin/com/anoboy/Anoboy.kt:220-224 | one dispatch exactly when the player iframe exists, even with an empty `src`, with the page as referer |
| Anoboy.LoadLinks | Anoboy/src/main/kotlin/com/anoboy/Anoboy.kt:212-256 | returns true and dispatches the embed, then every mirror step, then every download step, in document order |
| Anoboy.DownloadsInOrder | Anoboy/src/main/kotlin/com/anoboy/Anoboy.kt:247-253 | with no blank `href`, every download anchor is dispatched once, trimmed and httpsified, in document order |
| Anoboy.DownloadKept | Anoboy/src/main/kotlin/com/anoboy/Anoboy.kt:249-252 | a non-blank trimmed `href` is dispatched with the page URL as referer |
| Anoboy.DownloadSkipped | Anoboy/src/main/kotlin/com/anoboy/Anoboy.kt:249-250 | an `href` that is blank after trimming dispatches nothing |
| Anoboy.BlankDownloadIsSkipped | Anoboy/src/main/kotlin/com/anoboy/Anoboy.kt:247-253 | a blank download anchor leaves the other anchors' dispatches as if it were absent |
| Anoboy.LinkPlanShape | Anoboy/src/main/kotlin/com/anoboy/Anoboy.kt:212-256 | at most one dispatch per embed, mirror and download; the embed first; the downloads last; the page URL as every referer |
| Anoboy.Reversed | Anoboy/src/main/kotlin/com/anoboy/Anoboy.kt:146 | same length, element k is element n-1-k |
| Anoboy.NumberedAt | Anoboy/src/main/kotlin/com/anoboy/Anoboy.kt:147-153 | `mapIndexed` numbers the element at index i as i + 1 and names it "Episode i+1" |
| Anoboy.EpisodesNumbered | Anoboy/src/main/kotlin/com/anoboy/Anoboy.kt:144-153 | episode k is the k-th anchor from the bottom, named "Episode k" and numbered k |
| Anoboy.EpisodesAscending | Anoboy/src/main/kotlin/com/anoboy/Anoboy.kt:144-153 | the numbers are 1..n, consecutive and strictly ascending |
| Kuramanime.Template | KuramanimeProvider/src/main/kotlin/com/kuramanime/Extractors.kt:40 | a null in a string template is written "null" |
| Kuramanime.LbxTokenNone | KuramanimeProvider/src/main/kotlin/com/kuramanime/Extractors.kt:38 | no token exactly when no `/f/`, `/file/` or `?id=` followed by a word character occurs |
| Kuramanime.LbxTokenSome | KuramanimeProvider/src/main/kotlin/com/kuramanime/Extractors.kt:38 | a token is the full word run after the first matching alternative at the leftmost matching offset |
| Kuramanime.TokenMatchOfHit | KuramanimeProvider/src/main/kotlin/com/kuramanime/Extractors.kt:38 | the search's hit is such a leftmost, first-alternative match |
| Kuramanime.LbxFetch | KuramanimeProvider/src/main/kotlin/com/kuramanime/Extractors.kt:32-63 | the step-by-step `getUrl` makes the requests and emits the links `LbxGetUrl` specifies |
| Kuramanime.ResolutionLinkSpec | KuramanimeProvider/src/main/kotlin/com/kuramanime/Extractors.kt:44-61 | one entry emits one "Linkbox" link to its URL, with referer `https://www.linkbox.to/` and the name's quality, exactly when its URL is present and mp4 or m3u8 |
| Kuramanime.ResolutionLinksAppend | KuramanimeProvider/src/main/kotlin/com/kuramanime/Extractors.kt:44-62 | the links of `a + b` are those of `a`, then those of `b` |
| Kuramanime.ResolutionLinksShape | KuramanimeProvider/src/main/kotlin/com/kuramanime/Extractors.kt:44-62 | at most one link per entry, and every link is a Linkbox stream link |
| Kuramanime.ResolutionLinksAllKept | KuramanimeProvider/src/main/kotlin/com/kuramanime/Extractors.kt:44-62 | when every entry is usable, entry k gives link k with its URL and quality |
| Kuramanime.ResolutionLinksNoneKept | KuramanimeProvider/src/main/kotlin/com/kuramanime/Extractors.kt:46-49 | entries without a URL or with an mkv one emit nothing |
| Kuramanime.LbxRequests | KuramanimeProvider/src/main/kotlin/com/kuramanime/Extractors.kt:40-44 | the share-list and detail requests are always made, the second with the extractor's URL as referer and "null" for a missing value; a null list emits nothing |
| Kuramanime.LbxTokenOfShareLink | KuramanimeProvider/src/main/kotlin/com/kuramanime/Extractors.kt:28-38 | `https://lbx.to/f/<token>` yields exactly its token |
| Kuramanime.IndexQuality | KuramanimeProvider/src/main/kotlin/com/kuramanime/Extractors.kt:130-133 | `unknown` with no match, else the leftmost 3- or 4-digit `p` resolution, within 0..9999 |
| Kuramanime.IndexQualityOfTitle | KuramanimeProvider/src/main/kotlin/com/kuramanime/Extractors.kt:130-133 | a title whose first digits are "NNNp" or "NNNNp" gives that resolution |
| Kuramanime.KuramadriveGetUrl | KuramanimeProvider/src/main/kotlin/com/kuramanime/Extractors.kt:89-128 | two requests (the page, then its check route); one "DriveKurama" link exactly when a stream URL is returned and is mp4 or m3u8, with referer `https://kuramadrive.com/` and the title's quality |
| Kuramanime.SourceRequestHeaders | KuramanimeProvider/src/main/kotlin/com/kuramanime/Extractors.kt:102-110 | the check-route request carries `X-Requested-With`, the page's CSRF token, its cookies and the page URL as referer |
| Kuramanime.PixeldrainGetUrl | KuramanimeProvider/src/main/kotlin/com/kuramanime/Extractors.kt:145-173 | one link exactly when an id is found, to `https://pixeldrain.com/api/filesystem/<id>`, of unknown quality, with the Range and Accept headers |
| Kuramanime.PixeldrainUrlHoldsId | KuramanimeProvider/src/main/kotlin/com/kuramanime/Extractors.kt:157 | the id is what follows the filesystem prefix of the emitted URL |
| Kuramanime.PixeldrainIdOfUserLink | KuramanimeProvider/src/main/kotlin/com/kuramanime/Extractors.kt:152-154 | `https://pixeldrain.com/u/<id>` yields `<id>` |
| Kuramanime.PixeldrainIdSpec | KuramanimeProvider/src/main/kotlin/com/kuramanime/Extractors.kt:152-154 | a `/d/` id anywhere wins over any `/u/` id; the `/u/` id only without one; none exactly when neither occurs |

## Left out

- Network, HTML parsing and JSON. `app.get`, jsoup's CSS selection, `parsedSafe`, `base64Decode`, `httpsify`, `fixUrl` and `getQualityFromName` are parameters of the model. Their own behaviour is not modelled. `Qualities.Unknown.value` is a parameter too.
- Exceptions from `app.get` outside a `runCatching`/`try` are not modelled. This covers the content page of `loadLinks`, the extractor requests and `load`. The model assumes each of those answers.
- The callbacks are not modelled as effects. A `loadExtractor` call is recorded as a `Dispatch`, and a `callback.invoke` as an `ExtractorLink` in the output. What the extractor that a dispatch reaches does with it is not modelled. `subtitleCallback` and `isCasting` are unused by the modelled code.
- `INFER_TYPE`, the link type, is not modelled: every link has it.
- Unicode: `isDigit` is modelled as the ASCII digits 0-9. Kotlin also accepts other Unicode decimal digits. Case-insensitive `contains`/`equals` folds the ASCII letters and the four non-ASCII characters whose case mapping is an ASCII letter (U+0130, U+0131, U+017F, U+212A). It does not fold one non-ASCII letter against another (such as 'É' against 'é'). That cannot change a result, because every literal compared is ASCII.
- `load`'s other fields are not modelled: poster, description, rating (floating point), tags, actors, recommendations and trackers. `getMainPage`, `search`, `toSearchResult` and `getImageAttr` are not modelled either.
- The other extractor subclasses in `Extractors.kt` (Sunrong, Nyomo, Streamhide) only set constants and are not modelled.
- Gojodesu's own `getIframeAttr` (`Gojodesu.kt:269-273`) is unused in that file. It is the same code as Anoboy's, which `Anoboy.GetIframeAttr` models.
- Anoboy.EpisodesNumbered: it does not model the 32-bit overflow of `index + 1`. That would take more than 2^31 episode anchors.
- Concurrency and suspension (`suspend`) are not modelled; the calls are sequential.

Two behaviours of the code worth noting:

- Anoboy's mirror loop (`Anoboy.kt:226-245`) has no "Select Video Server" filter. Only blank tokens are skipped.
- The two providers pick iframe attributes in opposite orders. Gojodesu picks `src` first and skips blanks. Anoboy's `getIframeAttr` tests `data-litespeed-src` first, then `data-src`, and tests for emptiness, not blankness. `Anoboy.OppositePriorities` shows both differences.
