/**
 * The SVG badge of lib/svg-renderer.ts: a header and one row per displayed
 * paper (escaped, truncated title and authors, year, citation badge), styled
 * for a light and a dark colour scheme.
 *
 * Long constant texts below are written as several short literals joined by
 * `+`, cut at word boundaries. The pieces spell the same text; keeping each
 * literal short keeps the verifier's cost of equations between texts down.
 */
module SvgRenderer {
  import opened Types
  import opened JsText
  import opened Escaping
  import opened Display

  const HeaderHeight: int := 40
  const RowHeight: int := 64
  const PaddingX: int := 16
  const Width: int := 720
  const BadgeHeight: int := 22

  const TitleMaxChars: int := 65
  const AuthorsMaxChars: int := 80
  const Ellipsis: char := '\U{2026}'

  const HeaderTitle: string := "Publications"
  const SvgOpen: string := "<svg"
  const SvgClose: string := "</svg>"

  function Max(a: int, b: int): int {
    if a >= b then a else b
  }

  // ---------------------------------------------------------------------------
  // Truncation
  // ---------------------------------------------------------------------------

  /** `truncateTitle` / `truncateAuthors`: over-long text keeps `maxChars - 1` characters and gains an ellipsis. */
  function Truncate(s: string, maxChars: int): (r: string)
    ensures maxChars >= 1 ==> |r| == Min(|s|, maxChars)
  {
    if |s| <= maxChars then s else Slice(s, maxChars - 1) + [Ellipsis]
  }

  function TruncateTitle(title: string): string {
    Truncate(title, TitleMaxChars)
  }

  function TruncateAuthors(authors: string): string {
    Truncate(authors, AuthorsMaxChars)
  }

  /**
   * Text that fits is returned unchanged; longer text becomes a prefix of it
   * followed by the ellipsis, exactly `maxChars` long.
   */
  lemma TruncateBounds(s: string, maxChars: int)
    requires maxChars >= 1
    ensures |Truncate(s, maxChars)| == Min(|s|, maxChars)
    ensures Truncate(s, maxChars) == s <==> |s| <= maxChars
    ensures |s| > maxChars ==>
      && Truncate(s, maxChars)[..maxChars - 1] <= s
      && Truncate(s, maxChars)[maxChars - 1] == Ellipsis
  {
    if |s| > maxChars {
      assert |Truncate(s, maxChars)| < |s|;
    }
  }

  /** The two limits the renderer uses: titles at 65 characters, authors at 80. */
  lemma TitleAndAuthorsLimits(title: string, authors: string)
    ensures |TruncateTitle(title)| == Min(|title|, 65)
    ensures |TruncateAuthors(authors)| == Min(|authors|, 80)
    ensures TruncateTitle(title) == title <==> |title| <= 65
    ensures TruncateAuthors(authors) == authors <==> |authors| <= 80
  {
    TruncateBounds(title, TitleMaxChars);
    TruncateBounds(authors, AuthorsMaxChars);
  }

  // ---------------------------------------------------------------------------
  // Theme styles (the colours of lib/themes.ts)
  // ---------------------------------------------------------------------------

  datatype ThemeColors = ThemeColors(
    bg: string, headerBg: string, border: string, title: string, authors: string,
    citationBadge: string, citationText: string, yearText: string, divider: string,
    headerTitle: string, headerSub: string)

  const LightTheme: ThemeColors := ThemeColors(
    "#ffffff", "#f6f8fa", "#d0d7de", "#24292f", "#656d76",
    "#0969da", "#ffffff", "#656d76", "#d8dee4", "#24292f", "#656d76")

  const DarkTheme: ThemeColors := ThemeColors(
    "#0d1117", "#161b22", "#30363d", "#e6edf3", "#8b949e",
    "#58a6ff", "#ffffff", "#8b949e", "#21262d", "#e6edf3", "#8b949e")

  /** One CSS rule per themed class, each setting a fill or stroke colour. */
  function BuildThemeRules(colors: ThemeColors): string {
    "\n" + "  .badge-surface { fill: " + colors.bg + "; }\n" + "  .badge-border { stroke: " + colors.border
    + "; }\n" + "  .badge-header-bg { fill: " + colors.headerBg + "; }\n" + "  .badge-header-title { fill: "
    + colors.headerTitle + "; }\n" + "  .badge-header-sub { fill: " + colors.headerSub + "; }\n"
    + "  .paper-divider { stroke: " + colors.divider + "; }\n" + "  .paper-title { fill: " + colors.title
    + "; }\n" + "  .paper-authors { fill: " + colors.authors + "; }\n" + "  .paper-year { fill: "
    + colors.yearText + "; }\n" + "  .paper-citation-badge { fill: " + colors.citationBadge + "; }\n"
    + "  .paper-citation-text { fill: " + colors.citationText + "; }"
  }

  /** Light rules by default, dark rules under `prefers-color-scheme: dark`. */
  function RenderThemeStyles(): string {
    "<style>\n" + BuildThemeRules(LightTheme) + "\n" + "  @media (prefers-color-scheme: " + "dark) {"
    + BuildThemeRules(DarkTheme) + "\n" + "  }\n" + "</style>"
  }

  // ---------------------------------------------------------------------------
  // One paper row
  // ---------------------------------------------------------------------------

  /** The top of row `index`. */
  function RowY(index: int): int {
    HeaderHeight + index * RowHeight
  }

  /** The badge grows by 9 px per character of the count, from a minimum of 30 px. */
  function BadgeWidth(citationStr: string): int {
    Max(30, |citationStr| * 9 + 12)
  }

  /** The decimal form of `twice / 2`, a multiple of one half (as `String` prints it). */
  function FormatHalf(twice: int): string {
    if twice % 2 == 0 then IntToString(twice / 2)
    else if twice > 0 then IntToString(twice / 2) + ".5"
    else "-" + IntToString(-twice / 2) + ".5"
  }

  /** The separator above every row but the first. */
  function Divider(index: int, y: int): string {
    if index > 0 then
      "<line x1=\"" + IntToString(PaddingX) + "\" y1=\"" + IntToString(y) + "\" x2=\""
      + IntToString(Width - PaddingX) + "\" y2=\"" + IntToString(y) + "\" class=\"paper-divider\" "
      + "stroke-width=\"1\"/>"
    else ""
  }

  /** A `<text>` element on a line of its own. */
  function TextLine(attributes: string, content: string): string {
    "\n    <text " + attributes + ">" + content + "</text>"
  }

  function TitleAttributes(titleY: int): string {
    "x=\"" + IntToString(PaddingX) + "\" y=\"" + IntToString(titleY) + "\" font-family=\"Segoe UI, "
    + "Helvetica, Arial, sans-serif\" font-size" + "=\"13\" class=\"paper-title\" " + "font-weight=\"600\""
  }

  function AuthorsAttributes(authorsY: int): string {
    "x=\"" + IntToString(PaddingX) + "\" y=\"" + IntToString(authorsY) + "\" font-family=\"Segoe UI, "
    + "Helvetica, Arial, sans-serif\" font-size" + "=\"11\" class=\"paper-authors\""
  }

  function YearAttributes(yearY: int): string {
    "x=\"" + IntToString(PaddingX) + "\" y=\"" + IntToString(yearY) + "\" font-family=\"Segoe UI, "
    + "Helvetica, Arial, sans-serif\" font-size" + "=\"11\" class=\"paper-year\""
  }

  /** The badge's left edge: its right edge is at the right padding. */
  function BadgeX(citationStr: string): int {
    Width - PaddingX - BadgeWidth(citationStr)
  }

  /** The badge's top: the badge is centred vertically in the row starting at `y`. */
  function BadgeY(y: int): int {
    y + (RowHeight - BadgeHeight) / 2
  }

  function BadgeRect(citationStr: string, y: int): string {
    "\n" + "    <rect x=\"" + IntToString(BadgeX(citationStr)) + "\" y=\"" + IntToString(BadgeY(y))
    + "\" width=\"" + IntToString(BadgeWidth(citationStr)) + "\" height=\"22\" rx=\"11\" "
    + "class=\"paper-citation-badge\"/>"
  }

  function BadgeTextAttributes(citationStr: string, y: int): string {
    "x=\"" + FormatHalf(2 * BadgeX(citationStr) + BadgeWidth(citationStr)) + "\" y=\""
    + IntToString(BadgeY(y) + 15) + "\" font-family=\"Segoe UI, " + "Helvetica, Arial, sans-serif\" font-size"
    + "=\"11\" class=\"paper-citation-text" + "\" text-anchor=\"middle\" " + "font-weight=\"600\""
  }

  /** The citation badge: a rounded rectangle with the count centred on it. */
  function CitationBadge(citationStr: string, y: int): string {
    BadgeRect(citationStr, y) + TextLine(BadgeTextAttributes(citationStr, y), EscapeXml(citationStr))
  }

  /** The escaped, truncated title a row shows. */
  function DisplayTitle(paper: Paper): string {
    EscapeXml(TruncateTitle(paper.title))
  }

  /** `renderPaperRow(paper, index)`. */
  function RenderPaperRow(paper: Paper, index: int): string {
    Divider(index, RowY(index))
    + TextLine(TitleAttributes(RowY(index) + 18), DisplayTitle(paper))
    + TextLine(AuthorsAttributes(RowY(index) + 34), EscapeXml(TruncateAuthors(paper.authors)))
    + TextLine(YearAttributes(RowY(index) + 48), EscapeXml(YearText(paper.year)))
    + CitationBadge(IntToString(paper.citationCount), RowY(index))
  }

  // ---------------------------------------------------------------------------
  // The whole badge
  // ---------------------------------------------------------------------------

  /** The badge height: the header, one row per paper and an 8 px bottom margin. */
  function TotalHeight(rowCount: int): int {
    Max(HeaderHeight + rowCount * RowHeight + 8, HeaderHeight + 8)
  }

  /** Row `i` of the badge renders `display[i]` at position `i`. */
  function RenderRows(display: seq<Paper>): (rows: seq<string>)
    ensures |rows| == |display|
  {
    seq(|display|, i requires 0 <= i < |display| => RenderPaperRow(display[i], i))
  }

  /** Everything before the rows: frame, styles, header bar and its two labels. */
  function SvgHead(totalHeight: int): string {
    SvgOpen + SvgFrame(totalHeight) + HeaderTitle + HeaderRest()
  }

  /** The attributes of the opening tag, the styles, the frame and the header bar, up to the header title. */
  function SvgFrame(totalHeight: int): string {
    " xmlns=\"http://www.w3.org/2000/svg\"" + " width=\"" + IntToString(Width) + "\" height=\""
    + IntToString(totalHeight) + "\" viewBox=\"0 0 " + IntToString(Width) + " " + IntToString(totalHeight)
    + "\">\n" + "  " + RenderThemeStyles() + "\n" + "  <rect x=\"0.5\" y=\"0.5\" width=\""
    + IntToString(Width - 1) + "\" height=\"" + IntToString(totalHeight - 1)
    + "\" rx=\"6\" class=\"badge-surface " + "badge-border\" stroke-width=\"1\"/>\n"
    + "  <rect x=\"0.5\" y=\"0.5\" width=\"" + IntToString(Width - 1) + "\" height=\""
    + IntToString(HeaderHeight) + "\" rx=\"6\" class=\"badge-header-bg "
    + "badge-border\" stroke-width=\"1\"/>" + "\n" + "  <rect x=\"0.5\" y=\"20\" width=\""
    + IntToString(Width - 1) + "\" height=\"" + IntToString(HeaderHeight - 19)
    + "\" class=\"badge-header-bg\"/>\n" + "  <line x1=\"0.5\" y1=\"" + IntToString(HeaderHeight) + "\" x2=\""
    + FormatHalf(2 * Width - 1) + "\" y2=\"" + IntToString(HeaderHeight)
    + "\" class=\"badge-border\" " + "stroke-width=\"1\"/>\n" + "  <text x=\"" + IntToString(PaddingX)
    + "\" y=\"26\" font-family=\"Segoe UI, " + "Helvetica, Arial, sans-serif\" "
    + "font-size=\"14\" " + "class=\"badge-header-title\" font-weight=\"700\">"
  }

  /** The rest of the header: the "Cites" label, then the line break before the rows. */
  function HeaderRest(): string {
    "</text>\n" + "  <text x=\"" + IntToString(Width - PaddingX) + "\" y=\"26\" font-family=\"Segoe UI, "
    + "Helvetica, Arial, sans-serif\" " + "font-size=\"12\" "
    + "class=\"badge-header-sub\" font-weight=\"600\" " + "text-anchor=\"end\">Cites</text>\n"
  }

  /** The badge for the papers it displays: header, rows one per line, closing tag. */
  function SvgDocument(display: seq<Paper>): string {
    SvgHead(TotalHeight(|display|)) + Join(RenderRows(display), "\n") + "\n" + SvgClose
  }

  /** `renderSVG(papers, { maxPapers })`; `None` stands for an omitted option. */
  function RenderSvg(papers: seq<Paper>, maxPapers: Option<int>): string {
    SvgDocument(DisplayPapers(papers, maxPapers))
  }

  // ---------------------------------------------------------------------------
  // Properties
  // ---------------------------------------------------------------------------

  /** Row `i` starts 64 px below row `i - 1`, under the 40 px header; the badge is as tall as needed. */
  lemma RowsStack(k: int, i: int)
    requires 0 <= i < k
    ensures RowY(i) == 40 + 64 * i
    ensures RowY(i + 1) == RowY(i) + RowHeight
    ensures HeaderHeight <= RowY(i) && RowY(i) + RowHeight <= TotalHeight(k) - 8
    ensures TotalHeight(k) == 40 + 64 * k + 8
  {
  }

  /** The empty badge is just the header and an 8 px margin. */
  lemma EmptyHeight()
    ensures TotalHeight(0) == 48
  {
  }

  /** A divider is drawn above every row except the first. */
  lemma DividerOnlyBetweenRows(index: int, y: int)
    requires index >= 0
    ensures Divider(index, y) == "" <==> index == 0
    ensures index > 0 ==> StartsWith(Divider(index, y), "<line")
  {
    if index > 0 {
      var d := Divider(index, y);
      assert d[0] == '<';
    }
  }

  /**
   * The citation badge is 30 px wide for a one-character count and 9 px per
   * character plus 12 px otherwise; its right edge is at the right padding and
   * it is centred vertically in its row.
   */
  lemma BadgeGeometry(paper: Paper, index: int)
    ensures var s := IntToString(paper.citationCount);
      var w := BadgeWidth(s);
      && (|s| == 1 ==> w == 30)
      && (|s| >= 2 ==> w == 9 * |s| + 12)
      && BadgeX(s) + w == Width - PaddingX
      && BadgeY(RowY(index)) + BadgeHeight / 2 == RowY(index) + RowHeight / 2
  {
  }

  /** The badge is the document of the first min(maxPapers, |papers|) papers. */
  lemma RenderSvgRows(papers: seq<Paper>, maxPapers: Option<int>)
    requires maxPapers.Some? ==> maxPapers.value >= 0
    ensures RenderSvg(papers, maxPapers) == SvgDocument(papers[..Min(MaxPapersOption(maxPapers), |papers|)])
  {
    DisplayPapersPrefix(papers, maxPapers);
    assert DisplayPapers(papers, maxPapers) == papers[..Min(MaxPapersOption(maxPapers), |papers|)];
  }

  /** A document of this shape is an `<svg>` element that shows `title`. */
  lemma SvgShape(frame: string, title: string, rest: string, body: string)
    ensures StartsWith(SvgOpen + frame + title + rest + body + "\n" + SvgClose, SvgOpen)
    ensures EndsWith(SvgOpen + frame + title + rest + body + "\n" + SvgClose, SvgClose)
    ensures Includes(SvgOpen + frame + title + rest + body + "\n" + SvgClose, title)
  {
    var head := SvgOpen + frame + title + rest;
    StartsWithAppend(SvgOpen, frame, SvgOpen);
    StartsWithAppend(SvgOpen + frame, title, SvgOpen);
    StartsWithAppend(SvgOpen + frame + title, rest, SvgOpen);
    StartsWithAppend(head, body, SvgOpen);
    StartsWithAppend(head + body, "\n", SvgOpen);
    StartsWithAppend(head + body + "\n", SvgClose, SvgOpen);
    EndsWithAppend(head + body + "\n", SvgClose, SvgClose);
    IncludesSelf(title);
    IncludesInContext(SvgOpen + frame, title, rest, title);
    IncludesLeft(head, body);
    IncludesLeft(head + body, "\n");
    IncludesLeft(head + body + "\n", SvgClose);
    IncludesTrans(head + body, head, title);
    IncludesTrans(head + body + "\n", head + body, title);
    IncludesTrans(head + body + "\n" + SvgClose, head + body + "\n", title);
  }

  /** The output is an `<svg>` element with the header title, also for an empty list. */
  lemma RenderSvgIsSvgElement(papers: seq<Paper>, maxPapers: Option<int>)
    ensures StartsWith(RenderSvg(papers, maxPapers), "<svg")
    ensures EndsWith(RenderSvg(papers, maxPapers), "</svg>")
    ensures Includes(RenderSvg(papers, maxPapers), "Publications")
  {
    var display := DisplayPapers(papers, maxPapers);
    DocumentParts(display);
    SvgShape(SvgFrame(TotalHeight(|display|)), HeaderTitle, HeaderRest(), Join(RenderRows(display), "\n"));
  }

  /** A document is the opening tag, the frame, the header title, the rest of the header, the rows and the closing tag. */
  lemma DocumentParts(display: seq<Paper>)
    ensures SvgDocument(display) == SvgOpen + SvgFrame(TotalHeight(|display|)) + HeaderTitle + HeaderRest()
      + Join(RenderRows(display), "\n") + "\n" + SvgClose
  {
  }

  lemma TextLineIncludes(attributes: string, content: string)
    ensures Includes(TextLine(attributes, content), content)
  {
    IncludesSelf(content);
    IncludesInContext("\n    <text " + attributes + ">", content, "</text>", content);
  }

  /** A row is its divider, its title, authors and year lines and its badge. */
  lemma RowParts(paper: Paper, index: int)
    ensures RenderPaperRow(paper, index) == Divider(index, RowY(index))
      + TextLine(TitleAttributes(RowY(index) + 18), DisplayTitle(paper))
      + TextLine(AuthorsAttributes(RowY(index) + 34), EscapeXml(TruncateAuthors(paper.authors)))
      + TextLine(YearAttributes(RowY(index) + 48), EscapeXml(YearText(paper.year)))
      + CitationBadge(IntToString(paper.citationCount), RowY(index))
  {
  }

  /** What occurs in the second, fourth or fifth of five parts occurs in the whole. */
  lemma IncludesInPart(a: string, b: string, c: string, d: string, e: string, x: string)
    ensures Includes(b, x) ==> Includes(a + b + c + d + e, x)
    ensures Includes(d, x) ==> Includes(a + b + c + d + e, x)
    ensures Includes(e, x) ==> Includes(a + b + c + d + e, x)
  {
    if Includes(b, x) {
      IncludesRight(a, b);
      IncludesTrans(a + b, b, x);
      IncludesLeft(a + b, c);
      IncludesTrans(a + b + c, a + b, x);
    }
    if Includes(b, x) || Includes(d, x) {
      if Includes(d, x) {
        IncludesRight(a + b + c, d);
        IncludesTrans(a + b + c + d, d, x);
      } else {
        IncludesLeft(a + b + c, d);
        IncludesTrans(a + b + c + d, a + b + c, x);
      }
      IncludesLeft(a + b + c + d, e);
      IncludesTrans(a + b + c + d + e, a + b + c + d, x);
    }
    if Includes(e, x) {
      IncludesRight(a + b + c + d, e);
      IncludesTrans(a + b + c + d + e, e, x);
    }
  }

  /** The badge shows the escaped count. */
  lemma BadgeShowsCount(citationStr: string, y: int)
    ensures Includes(CitationBadge(citationStr, y), EscapeXml(citationStr))
  {
    var line := TextLine(BadgeTextAttributes(citationStr, y), EscapeXml(citationStr));
    TextLineIncludes(BadgeTextAttributes(citationStr, y), EscapeXml(citationStr));
    IncludesRight(BadgeRect(citationStr, y), line);
    IncludesTrans(CitationBadge(citationStr, y), line, EscapeXml(citationStr));
  }

  /**
   * A row shows the paper's escaped, truncated title, its citation count and
   * its year (or "N/A"), numbers written as `String` writes them.
   */
  lemma RowShowsPaper(paper: Paper, index: int)
    ensures Includes(RenderPaperRow(paper, index), EscapeXml(TruncateTitle(paper.title)))
    ensures Includes(RenderPaperRow(paper, index), IntToString(paper.citationCount))
    ensures Includes(RenderPaperRow(paper, index), YearText(paper.year))
  {
    var count, year := IntToString(paper.citationCount), EscapeXml(YearText(paper.year));
    RowParts(paper, index);
    TextLineIncludes(TitleAttributes(RowY(index) + 18), DisplayTitle(paper));
    TextLineIncludes(YearAttributes(RowY(index) + 48), year);
    BadgeShowsCount(count, RowY(index));
    EscapeNumeral(paper.citationCount);
    EscapeYearText(paper.year);
    var d, t, a := Divider(index, RowY(index)),
      TextLine(TitleAttributes(RowY(index) + 18), DisplayTitle(paper)),
      TextLine(AuthorsAttributes(RowY(index) + 34), EscapeXml(TruncateAuthors(paper.authors)));
    var y, b := TextLine(YearAttributes(RowY(index) + 48), year), CitationBadge(count, RowY(index));
    IncludesInPart(d, t, a, y, b, DisplayTitle(paper));
    IncludesInPart(d, t, a, y, b, year);
    IncludesInPart(d, t, a, y, b, EscapeXml(count));
  }

  /** What occurs in the body of a document occurs in the document. */
  lemma IncludesInBody(head: string, body: string, x: string)
    requires Includes(body, x)
    ensures Includes(head + body + "\n" + SvgClose, x)
  {
    IncludesRight(head, body);
    IncludesLeft(head + body, "\n");
    IncludesLeft(head + body + "\n", SvgClose);
    IncludesTrans(head + body, body, x);
    IncludesTrans(head + body + "\n", head + body, x);
    IncludesTrans(head + body + "\n" + SvgClose, head + body + "\n", x);
  }

  /** Every row of a document occurs in it. */
  lemma SvgDocumentIncludesRow(display: seq<Paper>, i: int)
    requires 0 <= i < |display|
    ensures Includes(SvgDocument(display), RenderPaperRow(display[i], i))
  {
    assert RenderRows(display)[i] == RenderPaperRow(display[i], i);
    JoinIncludes(RenderRows(display), "\n", i);
    IncludesInBody(SvgHead(TotalHeight(|display|)), Join(RenderRows(display), "\n"), RenderPaperRow(display[i], i));
  }

  /**
   * Every displayed paper's title (escaped and truncated), citation count and
   * year (or "N/A") appear in the badge.
   */
  lemma RenderSvgShowsPapers(papers: seq<Paper>, maxPapers: Option<int>, i: int)
    requires maxPapers.Some? ==> maxPapers.value >= 0
    requires 0 <= i < |papers| && i < MaxPapersOption(maxPapers)
    ensures Includes(RenderSvg(papers, maxPapers), EscapeXml(TruncateTitle(papers[i].title)))
    ensures Includes(RenderSvg(papers, maxPapers), IntToString(papers[i].citationCount))
    ensures Includes(RenderSvg(papers, maxPapers), YearText(papers[i].year))
  {
    var display := DisplayPapers(papers, maxPapers);
    assert display[i] == papers[i];
    SvgDocumentIncludesRow(display, i);
    RowShowsPaper(papers[i], i);
    var svg, row := SvgDocument(display), RenderPaperRow(papers[i], i);
    IncludesTrans(svg, row, EscapeXml(TruncateTitle(papers[i].title)));
    IncludesTrans(svg, row, IntToString(papers[i].citationCount));
    IncludesTrans(svg, row, YearText(papers[i].year));
  }
}
