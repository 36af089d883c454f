# Google Scholar publications: scraper, cache and renderers

This project models the core of a small service. The service fetches a
researcher's Google Scholar profile page and turns its publication table into
a list of `Paper` records. It keeps each list in an in-memory cache with a time
to live, and renders a list either as an SVG badge or as a self-contained HTML
widget.

The Dafny modules follow the source files:

- `types.dfy`: the records of `lib/types.ts`. These are `Paper`, the
  `ScraperResponse` union with its four error kinds, and `CacheEntry`.
- `scraper.dfy` models `lib/scraper.ts`.
  - `parseScholarHTML` is an imperative method (`Scraper.ParseScholarHtml`). It
    runs the rate-limit and profile checks, then a row loop that pushes one
    paper per titled row, then the stable sort by citations.
  - The method is proved against the specification function `Classify`.
  - `scrapeScholarProfile` becomes a function of the fetch outcome.
- `cache.dfy` models `lib/cache.ts`. The class `CitationCache` has a `map`
  field, and its `Get`, `Set` and `Invalidate` methods update that field.
  Each method is tied to a pure transition function `Apply`, and the
  lifetime lemmas are proved about `Apply` and `Run`.
- `svg_renderer.dfy` and `widget_renderer.dfy` model `lib/svg-renderer.ts` and
  `lib/widget-renderer.ts`. The renderers are pure functions that build the
  output strings.
- `escaping.dfy`: the XML and HTML escapes shared by the two renderers, a
  reference definition that escapes one character at a time, and a decoder.
- `display.dfy`: the `maxPapers` option with its default of five, the slice
  of papers shown, and the year text.
- `jstext.dfy`: the JavaScript string operations the source relies on:
  - `trim`, `includes`, `startsWith` and `slice(0, n)`;
  - `join`, and template literals;
  - `parseInt(s, 10)` (ECMA-262, section 19.2.5) and `String(n)` for integers.
- `occurrences.dfy`: counting the occurrences of a marker in a text, and how
  the count behaves under concatenation. It is used to prove that the widget
  holds exactly one card per displayed paper.

## Model

| member | source | states |
|---|---|---|
| Scraper.Classify | lib/scraper.ts:15-80 | The specification of `parseScholarHTML`. It never gives NETWORK_ERROR. A success holds the kept rows' papers, permuted and sorted by citations, descending. |
| Scraper.ParseScholarHtml | lib/scraper.ts:15-80 | The method, with its row loop, returns exactly `Classify(doc)`. A loader fault gives PARSE_ERROR. The CAPTCHA element or the robot phrase gives RATE_LIMITED. An empty trimmed name together with no table body gives INVALID_PROFILE. Otherwise the result is the sorted papers of the titled rows. |
| Scraper.VisitRow | lib/scraper.ts:43-66 | One row's callback returns the paper it pushes, which is `RowPaper(row)`, and returns None when the trimmed title is empty. |
| Scraper.RowPaper | lib/scraper.ts:45-66 | A row yields a paper exactly when its trimmed title is non-empty. |
| Scraper.RateLimitFirst | lib/scraper.ts:19-26 | A loaded page is RATE_LIMITED if and only if it has the CAPTCHA element or contains the robot-check phrase, whatever its profile name and table. |
| Scraper.InvalidProfileExactly | lib/scraper.ts:28-38 | INVALID_PROFILE is returned if and only if the page is loaded, is not rate limited, has an empty trimmed name and has no table body. A name without a table is a success with no papers. |
| Scraper.KeptPapersTitles | lib/scraper.ts:45-58 | Every kept paper has a non-empty title with no white space at either end. |
| Scraper.KeptPapersFromRows | lib/scraper.ts:40-67 | The kept papers are exactly the papers of the titled rows: one per titled row, each from some row, and every titled row's paper is kept. |
| Scraper.SortByCitations | lib/scraper.ts:69-70 | The result is a permutation of its input. Order and stability are in `SortByCitationsCorrect`. |
| Scraper.SortByCitationsCorrect | lib/scraper.ts:69-70 | The sort result is non-increasing in citation count and is a permutation of its input. For every count, the papers with that count keep their input order, which is stability. |
| Scraper.SuccessfulParse | lib/scraper.ts:40-72 | On success, the papers are sorted by citations, descending. They are a permutation of the kept rows' papers, one per titled row, with equal counts in document order, and every title is non-empty. |
| Scraper.ScholarUrlShape | lib/scraper.ts:47-48 | An href starting with `http` is kept verbatim. Any other non-empty href gets `https://scholar.google.com` prefixed. A missing or empty href gives "". So a URL is either empty or starts with `http`. |
| Scraper.CitationCountDefaults | lib/scraper.ts:52-62 | Blank or non-numeric citation text gives 0. The count is non-negative unless the trimmed text starts with `-`. |
| Scraper.CitationCountOfNumeral | lib/scraper.ts:52-53 | A count written by `String(n)` reads back as `n`. |
| Scraper.YearDefaults | lib/scraper.ts:55-63 | Blank or non-numeric year text gives null, never 0. Otherwise the year is the `parseInt` value, and `String(y)` reads back as `y`. |
| Scraper.ScrapeScholarProfile | lib/scraper.ts:87-124 | A success comes only from a 2xx response. NETWORK_ERROR comes only from a thrown fetch or a non-2xx status. PARSE_ERROR comes only from a 2xx body that fails to load. |
| Scraper.FetchOutcomeMapping | lib/scraper.ts:96-123 | A thrown fetch gives NETWORK_ERROR with a message containing the error text. Status 429 gives RATE_LIMITED, whatever the body. Any other non-2xx status gives NETWORK_ERROR with a message containing the status. A 2xx response is the classification of its body. |
| Cache.CitationCache.constructor | lib/cache.ts:15-18 | The cache starts empty. The ttl is the configured value, or 86,400,000 ms (lib/cache.ts:7-9) when none is given. The ttl is a `const`, fixed from then on. |
| Cache.CitationCache.Get | lib/cache.ts:20-33 | A miss returns null and leaves the map unchanged. An entry with elapsed time ≥ ttl is deleted and null is returned. A live entry is returned as stored, with the map unchanged. |
| Cache.CitationCache.Set | lib/cache.ts:35-40 | The key's entry is replaced by the papers stamped with `now`. Every other key is untouched. |
| Cache.CitationCache.Invalidate | lib/cache.ts:42-44 | The key is removed if present, and nothing happens otherwise. Every other key is untouched. |
| Cache.OtherKeysUntouched | lib/cache.ts:20-44 | Any sequence of calls about other keys leaves an entry exactly as it was, present with the same papers and timestamp, or absent. |
| Cache.AbsentUntilSet | lib/cache.ts:20-44 | An absent key only becomes present through a `set` of that key. |
| Cache.EntryLifetime | lib/cache.ts:26-40 | After `set(k, v)` at `t0`, and any calls about other keys, `get(k)` at `now` behaves as follows. It returns `v` and changes nothing while `now - t0 < ttl`. From then on it returns null and evicts the entry. |
| Cache.CacheScenario | lib/cache.ts:15-44 | A client run with a ttl of 1000 ms: the list is returned at 999 ms and is gone at 1000 ms. The default ttl is 86,400,000 ms. An empty list is returned as `[]`, not as a miss. After invalidating a missing key another key is still returned, and after invalidating a present key it is a miss. |
| Escaping.EscapeXml | lib/svg-renderer.ts:17-24 | `escapeXml`, the chain of five replacements, equals escaping each character on its own with `&apos;`. |
| Escaping.EscapeHtml | lib/widget-renderer.ts:11-18 | `escapeHtml` equals escaping each character on its own with `&#39;`. |
| Escaping.EscapeWithIsPerChar | lib/svg-renderer.ts:17-24 | The chain of five global replacements, `&` first, equals escaping each character on its own, so no entity is escaped twice. |
| Escaping.EscapeWithChar | lib/widget-renderer.ts:11-18 | One character maps to its entity (`&amp;`, `&lt;`, `&gt;`, `&quot;`, or the apostrophe entity) or to itself. |
| Escaping.EscapedHasNoSpecial | lib/svg-renderer.ts:17-24 | The output of `escapeXml` and of `escapeHtml` contains no `<`, `>`, `"` or `'`. |
| Escaping.EscapedOmitsMarkup | lib/widget-renderer.ts:11-18 | Escaped text holds no `<` and no `"`. |
| Escaping.UnescapeEscape | lib/widget-renderer.ts:11-18 | Decoding the five entities of either escape gives back the original text, so escaping loses nothing. |
| Escaping.EscapePlain | lib/svg-renderer.ts:17-24 | Text without any of the five characters is copied unchanged. |
| Escaping.EscapeNumeral | lib/svg-renderer.ts:85-87 | A number written by `String` is unchanged by either escape. |
| Display.DisplayPapers | lib/widget-renderer.ts:43-44 | The papers shown are a prefix of the input. Their exact length is in `DisplayPapersPrefix`. |
| Display.DisplayPapersPrefix | lib/widget-renderer.ts:43-44 | The papers shown are exactly the first min(maxPapers, \|papers\|) papers, in order, with five when the option is omitted. |
| Display.EscapeYearText | lib/svg-renderer.ts:69 | The year text, a number or `N/A`, is unchanged by either escape. |
| JsText.TrimEmptyIff | lib/scraper.ts:29-32 | A string trims to "" exactly when it is all white space. |
| JsText.TrimSlice | lib/scraper.ts:46 | `trim` returns a contiguous part of the string. That part neither starts nor ends with white space, and everything cut off is white space. |
| JsText.IncludesIff | lib/scraper.ts:20 | `includes` holds exactly when the phrase occurs at some position. |
| JsText.SliceEnd | lib/svg-renderer.ts:95 | The end index of `slice(0, n)` never exceeds the length. |
| JsText.JoinIncludes | lib/svg-renderer.ts:99-101 | Every joined element occurs in the joined text. |
| JsText.FillIncludesHole | lib/widget-renderer.ts:23-36 | Every value substituted into a template literal occurs in the result. |
| JsText.LeadingDigits | lib/scraper.ts:53 | The digit scan of `parseInt` takes the longest prefix of decimal digits. |
| JsText.ParseIntShape | lib/scraper.ts:53 | `parseInt` is NaN exactly when no digit follows the optional sign after leading white space. Without a `-` sign, the value is non-negative. |
| JsText.ParseIntOfIntToString | lib/scraper.ts:53 | `parseInt(String(n), 10) == n`. |
| JsText.IntToStringChars | lib/svg-renderer.ts:70 | `String(n)` writes only decimal digits, after a leading `-` for a negative number. |
| SvgRenderer.Truncate | lib/svg-renderer.ts:26-34 | For a limit of at least 1, the result is min(\|s\|, limit) characters long. |
| SvgRenderer.TruncateBounds | lib/svg-renderer.ts:26-34 | Text that fits is returned unchanged, and only such text. Longer text becomes its first max−1 characters followed by `…`, exactly `max` long. |
| SvgRenderer.TitleAndAuthorsLimits | lib/svg-renderer.ts:26-34 | Titles are cut at 65 characters and authors at 80. |
| SvgRenderer.RenderRows | lib/svg-renderer.ts:99-100 | One row per displayed paper. |
| SvgRenderer.RowsStack | lib/svg-renderer.ts:96-97 | Row i starts at y = 40 + 64·i, each row 64 px below the previous one. The total height is 40 + 64·n + 8, and every row fits inside it. |
| SvgRenderer.EmptyHeight | lib/svg-renderer.ts:97 | The empty badge is 48 px tall. |
| SvgRenderer.DividerOnlyBetweenRows | lib/svg-renderer.ts:77-80 | A divider `<line>` is emitted if and only if the row index is greater than 0. |
| SvgRenderer.BadgeGeometry | lib/svg-renderer.ts:72-74 | The badge width is 30 for a one-character count and 9·len + 12 otherwise. Its right edge is at the right padding, and it is centred vertically in its row. |
| SvgRenderer.RenderSvgRows | lib/svg-renderer.ts:94-101 | The badge is the document of the first min(maxPapers, \|papers\|) papers, with five by default. |
| SvgRenderer.RenderSvg | lib/svg-renderer.ts:90-113 | The body is the document template over the displayed papers. Its properties are in `RenderSvgRows`, `RenderSvgIsSvgElement` and `RenderSvgShowsPapers`. |
| SvgRenderer.RenderSvgIsSvgElement | lib/svg-renderer.ts:103-112 | The output starts with `<svg`, ends with `</svg>` and shows "Publications", also for an empty list. |
| SvgRenderer.RenderPaperRow | lib/svg-renderer.ts:62-88 | The body is the row's template. Its properties are in `RowShowsPaper`, `DividerOnlyBetweenRows` and `BadgeGeometry`. |
| SvgRenderer.RowShowsPaper | lib/svg-renderer.ts:62-88 | A row shows the escaped, truncated title, the citation count and the year text. |
| SvgRenderer.SvgDocumentIncludesRow | lib/svg-renderer.ts:99-111 | Row i of the document renders paper i at index i, and occurs in the document. |
| SvgRenderer.RenderSvgShowsPapers | lib/svg-renderer.ts:90-113 | Every displayed paper's escaped, truncated title, its citation count and its year (or `N/A`) appear in the badge. |
| WidgetRenderer.RenderPaperCard | lib/widget-renderer.ts:20-37 | The body is the card's template. Its properties are in `CardShowsPaper`, `CardHolesFacts` and `CardCount`. |
| WidgetRenderer.CardShowsPaper | lib/widget-renderer.ts:20-37 | A card shows the escaped title, authors and URL, the citation count and the year, or `N/A`. |
| WidgetRenderer.CardHolesFacts | lib/widget-renderer.ts:25-34 | None of the six escaped values substituted into a card contains `<`. |
| WidgetRenderer.CardCount | lib/widget-renderer.ts:23-36 | A card holds `<div class="paper-card">` exactly once: no escaped value can forge another. |
| WidgetRenderer.RenderCards | lib/widget-renderer.ts:45 | One card per displayed paper. |
| WidgetRenderer.CardsCount | lib/widget-renderer.ts:45 | The cards, joined by line breaks, hold one card marker per paper. |
| WidgetRenderer.RuleGroupMarkers | lib/widget-renderer.ts:53-160 | No part of the inline stylesheet holds a card marker, and none completes a marker begun before it. |
| WidgetRenderer.PageHeadCount | lib/widget-renderer.ts:47-164 | Everything before the cards holds no card marker and adds none to what follows. |
| WidgetRenderer.WidgetDocumentCount | lib/widget-renderer.ts:47-168 | The page holds exactly one card marker per displayed paper. |
| WidgetRenderer.RenderWidget | lib/widget-renderer.ts:39-169 | The body is the page template over the displayed papers. Its properties are in `RenderWidgetCardCount`, `RenderWidgetShowsPapers` and `RenderWidgetIsDocument`. |
| WidgetRenderer.RenderWidgetCardCount | lib/widget-renderer.ts:39-169 | `renderWidget` produces exactly min(maxPapers, \|papers\|) cards, five by default, and none for an empty list. |
| WidgetRenderer.WidgetDocumentIncludesCard | lib/widget-renderer.ts:45-165 | Card i of the page is the card of paper i, and it occurs in the page. |
| WidgetRenderer.RenderWidgetShowsPapers | lib/widget-renderer.ts:39-169 | Every displayed paper's escaped title, authors and URL, its citation count and its year, or `N/A`, appear in the widget. |
| WidgetRenderer.PageHeadShape | lib/widget-renderer.ts:47-164 | The page head starts with `<!DOCTYPE html>` and contains "Publications". |
| WidgetRenderer.RenderWidgetIsDocument | lib/widget-renderer.ts:47-168 | The widget starts with `<!DOCTYPE html>`, ends with `</html>` and shows "Publications", also for an empty list. |

## Left out

**The HTML document and the network**

- The HTML parser and DOM queries are not modelled. A `Scraper.Document` holds what the queries read: the CAPTCHA-element flag, the raw text, the untrimmed profile name, whether the table body exists, and the rows with their title text, href, first grey text, citation text and year text.
  - A loader failure is an explicit `loadFails` input, which gives PARSE_ERROR.
  - `Scraper.FetchOutcomeMapping`: the request itself is not modelled. This covers the URL built with `encodeURIComponent`, the User-Agent header, the 10-second timeout and `response.text()`. The outcome is an input, either a thrown value or a response with a status and an already-read body.

**Clock, concurrency and external code**

- `Cache.CitationCache.Get` / `Cache.CitationCache.Set`: `Date.now()` is a `now` parameter. Concurrent requests sharing one cache are not modelled.
- The route handlers, `lib/fallback.ts`, `scripts/scrape.ts` and the console sanity script are not part of this model. They are I/O plumbing around the core.
  - The badge route clamps `maxPapers` to at least 1. The renderer lemmas about slicing require `maxPapers >= 0`, so the negative-index behaviour of `slice` appears only in `JsText.SliceEnd`.
- The colours of `lib/themes.ts` are copied into `SvgRenderer.LightTheme` and `SvgRenderer.DarkTheme`. No property is proved about them or about the CSS text.

**Cache**

- Cache.CitationCache.constructor: an explicit `ttlMs: undefined` is spread over the default (lib/cache.ts:17), so the ttl is `undefined` and `now - timestamp >= undefined` is always false (lib/cache.ts:27): such entries never expire. The model takes `None` as the default of 24 hours and always has an integer ttl.
- Cache.CitationCache.Set: the cache stores the caller's array itself (lib/cache.ts:37) and `get` returns that same array (lib/cache.ts:32), so a caller that mutates it changes the cached list. A `seq<Paper>` is a value, so the model cannot express this aliasing.

**Numbers and string formatting**

- Numbers are unbounded integers.
  - `parseInt` is not modelled as a floating-point function. Huge digit strings lose no precision here, and `String(n)` of such values is not modelled.
  - An explicitly passed `maxPapers: undefined`, which JavaScript spreads over the default, is modelled as the default (`None`).
- String lengths count Unicode code points. JavaScript's `length` counts UTF-16 code units, so `truncateTitle` and `truncateAuthors` cut astral characters differently.
- Two coordinates of the badge can be half-integers: the header line's `x2` (719.5) and the badge centre `badgeX + badgeWidth / 2`. `SvgRenderer.FormatHalf` writes them as `String` prints such numbers. No lemma states the exact coordinate text.
- The widget header's book emoji appears in the source as mojibake, a UTF-8 encoding read back as Windows-1252. The model writes the intended character U+1F4DA.

**Sorting**

- `Scraper.SortByCitations`: `Array.prototype.sort` with the comparator `b.citationCount - a.citationCount` is modelled as a stable insertion sort on a sequence. The sort in place on the array and the engine's algorithm are not modelled; the standard requires stability, and the order of the result is what is proved.

**Unproved SVG property**

- `SvgRenderer.RenderSvgShowsPapers`: it proves every displayed paper's title appears, but not that there is exactly one `class="paper-title"` element per paper. The marker-counting argument is carried out for the widget's card marker only.

**Stale tests**

- Two tests disagree with the code. The model follows the code in both cases.
  - One expects titles truncated at 42 characters; the code cuts at 65.
  - One counts a `fill` attribute that the code no longer emits.
