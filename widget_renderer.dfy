/**
 * The HTML widget of lib/widget-renderer.ts: a complete page with an inline
 * stylesheet, a "Publications" header and one card per displayed paper
 * (linked title, citation count, authors, year, link to Google Scholar).
 */
module WidgetRenderer {
  import opened Types
  import opened JsText
  import opened Escaping
  import opened Display
  import opened Occurrences

  /** The class of a paper's card. */
  const CardClass: string := "paper-card"

  /** The opening tag of a card: the widget holds it once per displayed paper. */
  const CardMarker: string := "<div class=\"" + CardClass + "\">"

  /** Two characters adjacent somewhere in the card marker. */
  predicate CardBigram(x: char, y: char) {
    (x == ' ' && y == 'c') || (x == '\"' && y == '>') || (x == '\"' && y == 'p') || (x == '-' && y == 'c')
    || (x == '<' && y == 'd') || (x == '=' && y == '\"') || (x == 'a' && y == 'p') || (x == 'a' && y == 'r')
    || (x == 'a' && y == 's') || (x == 'c' && y == 'a') || (x == 'c' && y == 'l') || (x == 'd' && y == '\"')
    || (x == 'd' && y == 'i') || (x == 'e' && y == 'r') || (x == 'i' && y == 'v') || (x == 'l' && y == 'a')
    || (x == 'p' && y == 'a') || (x == 'p' && y == 'e') || (x == 'r' && y == '-') || (x == 'r' && y == 'd')
    || (x == 's' && y == '=') || (x == 's' && y == 's') || (x == 'v' && y == ' ')
  }

  /** The card marker: its length, its first character, and its adjacent pairs. */
  lemma CardMarkerFacts()
    ensures |CardMarker| == 24 && CardMarker[0] == '<' && '\n' !in CardMarker
    ensures forall x, y | IsBigram(x, y, CardMarker) :: CardBigram(x, y)
  {
    assert CardMarker == "<div class=\"paper-card\">";
  }

  /** Past its first character the card marker holds no `<`, no line break and no `P`. */
  lemma CardMarkerTail()
    ensures |CardMarker| == 24
    ensures forall j | 1 <= j < |CardMarker| :: CardMarker[j] != '<' && CardMarker[j] != '\n' && CardMarker[j] != 'P'
  {
    assert CardMarker == "<div class=\"paper-card\">";
  }

  /**
   * Markup written in pieces shorter than the card marker, no two neighbours
   * of which meet in two adjacent characters of it, holds no card marker.
   *
   * This is why the constant markup below is written as lists of short
   * pieces, cut wherever that rule allows and so often in the middle of a
   * word (`"\" content=\"width=device", "-width, initial-scale=1"`): each
   * piece is too short to hold the marker, and no marker can straddle a cut.
   * The pieces concatenate to the source's text unchanged.
   */
  lemma MarkupPiecesCount(xs: seq<string>)
    requires forall i | 0 <= i < |xs| :: 0 < |xs[i]| < 24
    requires forall i | 1 <= i < |xs| :: !CardBigram(xs[i - 1][|xs[i - 1]| - 1], xs[i][0])
    ensures Count(Concat(xs), CardMarker) == 0
  {
    CardMarkerFacts();
    ShortPiecesCount(xs, CardMarker);
  }

  const DocType: string := "<!DOCTYPE html>"
  const HtmlClose: string := "</html>"
  const WidgetTitle: string := "Publications"

  // ---------------------------------------------------------------------------
  // One card (the template literal of `renderPaperCard`)
  // ---------------------------------------------------------------------------

  /** The pieces of `CardOpen()`. */
  const CardOpenPieces: seq<string> := [
    "\n" + "        ", "<div class=\"paper-head", "er\">\n          <a", " class=\"paper-", "title\" href=\""]

  /** The card's opening tag, its header and the title link up to its URL. */
  function CardOpen(): string {
    "      " + CardMarker + Concat(CardOpenPieces)
  }

  /** `CardOpen()` holds the card marker once. */
  lemma CardOpenCount()
    ensures Count(CardOpen(), CardMarker) == 1
  {
    CardMarkerFacts();
    assert !IsBigram(' ', '<', CardMarker);
    CountSelf(CardMarker);
    CountAppend("      ", CardMarker, CardMarker);
    MarkupPiecesCount(CardOpenPieces);
    ConcatFirstLast(CardOpenPieces);
    SeamBefore("      " + CardMarker, Concat(CardOpenPieces), CardMarker);
    CountAppend("      " + CardMarker, Concat(CardOpenPieces), CardMarker);
  }

  /** `CardOpen()` ends in a tail that no substituted value can complete to a card marker. */
  lemma CardOpenTail()
    ensures |CardOpen()| >= |CardMarker| - 1 && LeadFreeTail(CardOpen(), CardMarker)
  {
    CardMarkerFacts();
    LeadFreeTailOf(" class=\"paper-" + "title\" href=\"", CardMarker);
    ConcatLeadFreeTail(CardOpenPieces, CardMarker);
    LeadFreeTailLong("      " + CardMarker, Concat(CardOpenPieces), CardMarker);
  }

  /** The pieces of `TitleLinkRest()`. */
  const TitleLinkRestPieces: seq<string> := [
    "\"" + " target=\"_blank\" rel", "=\"", "noopener noreferrer\">"]

  /** The rest of the title link's opening tag. */
  function TitleLinkRest(): string {
    Concat(TitleLinkRestPieces)
  }

  /** `TitleLinkRest()` holds no card marker. */
  lemma TitleLinkRestCount()
    ensures Count(TitleLinkRest(), CardMarker) == 0
  {
    MarkupPiecesCount(TitleLinkRestPieces);
  }

  /** `TitleLinkRest()` ends in a tail that no substituted value can complete to a card marker. */
  lemma TitleLinkRestTail()
    ensures |TitleLinkRest()| >= |CardMarker| - 1 && LeadFreeTail(TitleLinkRest(), CardMarker)
  {
    CardMarkerFacts();
    LeadFreeTailOf("=\"" + "noopener noreferrer\">", CardMarker);
    ConcatLeadFreeTail(TitleLinkRestPieces, CardMarker);
  }

  /** The pieces of `CitationBadgeOpen()`. */
  const CitationBadgeOpenPieces: seq<string> := [
    "</a>\n" + "          ", "<div class=\"citation-wr", "apper\">\n            <s", "pan class=\"citation-lab",
    "el\">Cites</span>\n      ", "      <span", " class=\"", "citation-badge\">"]

  /** From the end of the title to the citation badge. */
  function CitationBadgeOpen(): string {
    Concat(CitationBadgeOpenPieces)
  }

  /** `CitationBadgeOpen()` holds no card marker. */
  lemma CitationBadgeOpenCount()
    ensures Count(CitationBadgeOpen(), CardMarker) == 0
  {
    MarkupPiecesCount(CitationBadgeOpenPieces);
  }

  /** `CitationBadgeOpen()` ends in a tail that no substituted value can complete to a card marker. */
  lemma CitationBadgeOpenTail()
    ensures |CitationBadgeOpen()| >= |CardMarker| - 1 && LeadFreeTail(CitationBadgeOpen(), CardMarker)
  {
    CardMarkerFacts();
    LeadFreeTailOf(" class=\"" + "citation-badge\">", CardMarker);
    ConcatLeadFreeTail(CitationBadgeOpenPieces, CardMarker);
  }

  /** The pieces of `AuthorsOpen()`. */
  const AuthorsOpenPieces: seq<string> := [
    "</span>\n" + "          </div", ">\n        </div>\n      ", "  ", "<div class=\"paper-", "authors\">"]

  /** From the badge to the authors line. */
  function AuthorsOpen(): string {
    Concat(AuthorsOpenPieces)
  }

  /** `AuthorsOpen()` holds no card marker. */
  lemma AuthorsOpenCount()
    ensures Count(AuthorsOpen(), CardMarker) == 0
  {
    MarkupPiecesCount(AuthorsOpenPieces);
  }

  /** `AuthorsOpen()` ends in a tail that no substituted value can complete to a card marker. */
  lemma AuthorsOpenTail()
    ensures |AuthorsOpen()| >= |CardMarker| - 1 && LeadFreeTail(AuthorsOpen(), CardMarker)
  {
    CardMarkerFacts();
    LeadFreeTailOf("<div class=\"paper-" + "authors\">", CardMarker);
    ConcatLeadFreeTail(AuthorsOpenPieces, CardMarker);
  }

  /** The pieces of `YearOpen()`. */
  const YearOpenPieces: seq<string> := [
    "</div>\n" + "        ", "<div class=\"paper-meta", "\">\n          <s", "pa", "n class=\"paper-year\">"]

  /** From the authors to the year. */
  function YearOpen(): string {
    Concat(YearOpenPieces)
  }

  /** `YearOpen()` holds no card marker. */
  lemma YearOpenCount()
    ensures Count(YearOpen(), CardMarker) == 0
  {
    MarkupPiecesCount(YearOpenPieces);
  }

  /** `YearOpen()` ends in a tail that no substituted value can complete to a card marker. */
  lemma YearOpenTail()
    ensures |YearOpen()| >= |CardMarker| - 1 && LeadFreeTail(YearOpen(), CardMarker)
  {
    CardMarkerFacts();
    LeadFreeTailOf("pa" + "n class=\"paper-year\">", CardMarker);
    ConcatLeadFreeTail(YearOpenPieces, CardMarker);
  }

  /** The pieces of `ScholarLinkOpen()`. */
  const ScholarLinkOpenPieces: seq<string> := [
    "</span>\n" + "          <a", " class=\"", "scholar-link\" href=\""]

  /** From the year to the Google Scholar link's URL. */
  function ScholarLinkOpen(): string {
    Concat(ScholarLinkOpenPieces)
  }

  /** `ScholarLinkOpen()` holds no card marker. */
  lemma ScholarLinkOpenCount()
    ensures Count(ScholarLinkOpen(), CardMarker) == 0
  {
    MarkupPiecesCount(ScholarLinkOpenPieces);
  }

  /** `ScholarLinkOpen()` ends in a tail that no substituted value can complete to a card marker. */
  lemma ScholarLinkOpenTail()
    ensures |ScholarLinkOpen()| >= |CardMarker| - 1 && LeadFreeTail(ScholarLinkOpen(), CardMarker)
  {
    CardMarkerFacts();
    LeadFreeTailOf(" class=\"" + "scholar-link\" href=\"", CardMarker);
    ConcatLeadFreeTail(ScholarLinkOpenPieces, CardMarker);
  }

  /** The pieces of `CardClose()`. */
  const CardClosePieces: seq<string> := [
    "\"" + " target=\"_blank\" rel=\"", "noopener noreferrer\">Vi", "ew on Google Scholar</a",
    ">\n        </div>\n      ", "</div>"]

  /** The rest of the Scholar link and the card's closing tags. */
  function CardClose(): string {
    Concat(CardClosePieces)
  }

  /** `CardClose()` holds no card marker. */
  lemma CardCloseCount()
    ensures Count(CardClose(), CardMarker) == 0
  {
    MarkupPiecesCount(CardClosePieces);
  }

  /** The string parts of the card template, around its six substitutions. */
  function CardLiterals(): seq<string> {
    [CardOpen(), TitleLinkRest(), CitationBadgeOpen(), AuthorsOpen(), YearOpen(), ScholarLinkOpen(), CardClose()]
  }

  /** The substitutions of the card template, each escaped. */
  function CardHoles(paper: Paper): seq<string> {
    [EscapeHtml(paper.scholarUrl), EscapeHtml(paper.title), EscapeHtml(IntToString(paper.citationCount)),
     EscapeHtml(paper.authors), EscapeHtml(YearText(paper.year)), EscapeHtml(paper.scholarUrl)]
  }

  /** `renderPaperCard(paper)`. */
  function RenderPaperCard(paper: Paper): string {
    Fill(CardLiterals(), CardHoles(paper))
  }

  // ---------------------------------------------------------------------------
  // The page (the template literal of `renderWidget`)
  // ---------------------------------------------------------------------------

  /** The pieces of `DocumentStart()`. */
  const DocumentStartPieces: seq<string> := [
    DocType, "\n<html lang=\"en\">", "\n<head>", "\n  <meta charset=\"UTF-8", "\">",
    "\n  <meta name=\"viewport", "\" content=\"width=device", "-width, initial-scale=1", ".0\">",
    "\n  <title>Publications<", "/title>", "\n  <style>"]

  /** The document type, the head's metadata and the opening style tag. */
  function DocumentStart(): string {
    Concat(DocumentStartPieces)
  }

  /** `DocumentStart()` holds no card marker and completes none begun before it. */
  lemma DocumentStartCount()
    ensures Transparent(DocumentStart(), CardMarker)
  {
    MarkupPiecesCount(DocumentStartPieces);
    CardMarkerTail();
    ConcatFirstLast(DocumentStartPieces);
  }

  /** The page starts with the document type. */
  lemma DocumentStartShape()
    ensures StartsWith(DocumentStart(), DocType)
  {
    ConcatFirstLast(DocumentStartPieces);
    ConcatEnds(DocumentStartPieces);
  }

  /** The pieces of `PageRules()`. */
  const PageRulesPieces: seq<string> := [
    "\n" + "    *, *::before, *::a", "fter {", "\n      box-sizing: bord", "er-box;", "\n      margin: 0;",
    "\n      padding: 0;", "\n    }", "\n    body {", "\n      font-family: -ap", "ple-system, BlinkMacSys",
    "temFont, \"Segoe UI\", He", "lvetica, Arial, sans-s", "erif;", "\n      background: #fff", "fff;",
    "\n      color: #24292f;", "\n      padding: 16px;", "\n      line-height: 1.5", ";", "\n    }"]

  /** Rules resetting the box model, and for the page body. */
  function PageRules(): string {
    Concat(PageRulesPieces)
  }

  /** `PageRules()` holds no card marker and completes none begun before it. */
  lemma PageRulesCount()
    ensures Transparent(PageRules(), CardMarker)
  {
    MarkupPiecesCount(PageRulesPieces);
    CardMarkerTail();
    ConcatFirstLast(PageRulesPieces);
  }

  /** The pieces of `ContainerRules()`. */
  const ContainerRulesPieces: seq<string> := [
    "\n" + "    .widget-container ", "{", "\n      max-width: 600px", ";", "\n      margin: 0 auto;", "\n    }",
    "\n    .widget-header {", "\n      font-size: 18px;", "\n      font-weight: 700", ";",
    "\n      margin-bottom: 1", "2px;", "\n      padding-bottom: ", "8px;", "\n      border-bottom: 1",
    "px solid #d0d7de;", "\n    }"]

  /** Rules for the container and the header. */
  function ContainerRules(): string {
    Concat(ContainerRulesPieces)
  }

  /** `ContainerRules()` holds no card marker and completes none begun before it. */
  lemma ContainerRulesCount()
    ensures Transparent(ContainerRules(), CardMarker)
  {
    MarkupPiecesCount(ContainerRulesPieces);
    CardMarkerTail();
    ConcatFirstLast(ContainerRulesPieces);
  }

  /** The pieces of `CardRules()`. */
  const CardRulesPieces: seq<string> := [
    "\n" + "    .paper-card {", "\n      padding: 12px 0;", "\n      border-bottom: 1", "px solid #d8dee4;",
    "\n    }", "\n    .paper-card:last-c", "hild {", "\n      border-bottom: n", "one;", "\n    }",
    "\n    .paper-header {", "\n      display: flex;", "\n      justify-content:", " space-between;",
    "\n      align-items: fle", "x-start;", "\n      gap: 8px;", "\n    }"]

  /** Rules for a card and its header. */
  function CardRules(): string {
    Concat(CardRulesPieces)
  }

  /** `CardRules()` holds no card marker and completes none begun before it. */
  lemma CardRulesCount()
    ensures Transparent(CardRules(), CardMarker)
  {
    MarkupPiecesCount(CardRulesPieces);
    CardMarkerTail();
    ConcatFirstLast(CardRulesPieces);
  }

  /** The pieces of `TitleRules()`. */
  const TitleRulesPieces: seq<string> := [
    "\n" + "    .paper-title {", "\n      font-size: 15px;", "\n      font-weight: 600", ";",
    "\n      color: #0969da;", "\n      text-decoration:", " none;", "\n      flex: 1;",
    "\n      overflow-wrap: b", "reak-word;", "\n      word-break: brea", "k-word;", "\n    }",
    "\n    .paper-title:hover", " {", "\n      text-decoration:", " underline;", "\n    }"]

  /** Rules for a card's title. */
  function TitleRules(): string {
    Concat(TitleRulesPieces)
  }

  /** `TitleRules()` holds no card marker and completes none begun before it. */
  lemma TitleRulesCount()
    ensures Transparent(TitleRules(), CardMarker)
  {
    MarkupPiecesCount(TitleRulesPieces);
    CardMarkerTail();
    ConcatFirstLast(TitleRulesPieces);
  }

  /** The pieces of `CitationRules()`. */
  const CitationRulesPieces: seq<string> := [
    "\n" + "    .citation-wrapper ", "{", "\n      display: flex;", "\n      flex-direction:", " column;",
    "\n      align-items: cen", "ter;", "\n      flex-shrink: 0;", "\n      gap: 2px;", "\n    }",
    "\n    .citation-label {", "\n      font-size: 10px;", "\n      color: #656d76;",
    "\n      font-weight: 500", ";", "\n    }"]

  /** Rules for the citation count and its label. */
  function CitationRules(): string {
    Concat(CitationRulesPieces)
  }

  /** `CitationRules()` holds no card marker and completes none begun before it. */
  lemma CitationRulesCount()
    ensures Transparent(CitationRules(), CardMarker)
  {
    MarkupPiecesCount(CitationRulesPieces);
    CardMarkerTail();
    ConcatFirstLast(CitationRulesPieces);
  }

  /** The pieces of `BadgeRules()`. */
  const BadgeRulesPieces: seq<string> := [
    "\n" + "    .citation-badge {", "\n      background: #096", "9da;", "\n      color: #ffffff;",
    "\n      font-size: 12px;", "\n      font-weight: 600", ";", "\n      padding: 2px 8px", ";",
    "\n      border-radius: 1", "2px;", "\n      white-space: now", "rap;", "\n    }"]

  /** Rules for the citation badge. */
  function BadgeRules(): string {
    Concat(BadgeRulesPieces)
  }

  /** `BadgeRules()` holds no card marker and completes none begun before it. */
  lemma BadgeRulesCount()
    ensures Transparent(BadgeRules(), CardMarker)
  {
    MarkupPiecesCount(BadgeRulesPieces);
    CardMarkerTail();
    ConcatFirstLast(BadgeRulesPieces);
  }

  /** The pieces of `AuthorsRules()`. */
  const AuthorsRulesPieces: seq<string> := [
    "\n" + "    .paper-authors {", "\n      font-size: 13px;", "\n      color: #656d76;",
    "\n      margin-top: 4px;", "\n      overflow-wrap: b", "reak-word;", "\n      word-break: brea",
    "k-word;", "\n    }"]

  /** Rules for the authors. */
  function AuthorsRules(): string {
    Concat(AuthorsRulesPieces)
  }

  /** `AuthorsRules()` holds no card marker and completes none begun before it. */
  lemma AuthorsRulesCount()
    ensures Transparent(AuthorsRules(), CardMarker)
  {
    MarkupPiecesCount(AuthorsRulesPieces);
    CardMarkerTail();
    ConcatFirstLast(AuthorsRulesPieces);
  }

  /** The pieces of `MetaRules()`. */
  const MetaRulesPieces: seq<string> := [
    "\n" + "    .paper-meta {", "\n      display: flex;", "\n      justify-content:", " space-between;",
    "\n      align-items: cen", "ter;", "\n      margin-top: 6px;", "\n      font-size: 12px;", "\n    }"]

  /** Rules for the line below the authors. */
  function MetaRules(): string {
    Concat(MetaRulesPieces)
  }

  /** `MetaRules()` holds no card marker and completes none begun before it. */
  lemma MetaRulesCount()
    ensures Transparent(MetaRules(), CardMarker)
  {
    MarkupPiecesCount(MetaRulesPieces);
    CardMarkerTail();
    ConcatFirstLast(MetaRulesPieces);
  }

  /** The pieces of `LinkRules()`. */
  const LinkRulesPieces: seq<string> := [
    "\n" + "    .paper-year {", "\n      color: #656d76;", "\n    }", "\n    .scholar-link {",
    "\n      color: #0969da;", "\n      text-decoration:", " none;", "\n      font-size: 12px;", "\n    }",
    "\n    .scholar-link:hov", "er {", "\n      text-decoration:", " underline;", "\n    }"]

  /** Rules for the year and the Scholar link. */
  function LinkRules(): string {
    Concat(LinkRulesPieces)
  }

  /** `LinkRules()` holds no card marker and completes none begun before it. */
  lemma LinkRulesCount()
    ensures Transparent(LinkRules(), CardMarker)
  {
    MarkupPiecesCount(LinkRulesPieces);
    CardMarkerTail();
    ConcatFirstLast(LinkRulesPieces);
  }

  /** The pieces of `NarrowScreenRules()`. */
  const NarrowScreenRulesPieces: seq<string> := [
    "\n" + "    @media (max-width:", " 480px) {", "\n      body {", "\n        padding: 12px;", "\n      }",
    "\n      .paper-header {", "\n        flex-direction", ": column;", "\n        gap: 4px;", "\n      }",
    "\n      .citation-badge ", "{", "\n        align-self: fl", "ex-start;", "\n      }", "\n    }"]

  /** Rules for screens at most 480 pixels wide. */
  function NarrowScreenRules(): string {
    Concat(NarrowScreenRulesPieces)
  }

  /** `NarrowScreenRules()` holds no card marker and completes none begun before it. */
  lemma NarrowScreenRulesCount()
    ensures Transparent(NarrowScreenRules(), CardMarker)
  {
    MarkupPiecesCount(NarrowScreenRulesPieces);
    CardMarkerTail();
    ConcatFirstLast(NarrowScreenRulesPieces);
  }

  /** The pieces of `HeaderOpen()`. */
  const HeaderOpenPieces: seq<string> := [
    "\n" + "  </style>", "\n</head>", "\n<body>", "\n  <div class=\"widget-c", "ontainer\">",
    "\n    <div class=\"widget", "-header\">\U{1F4DA} "]

  /** The end of the head, the container and the header up to its title. */
  function HeaderOpen(): string {
    Concat(HeaderOpenPieces)
  }

  /** `HeaderOpen()` holds no card marker and completes none begun before it. */
  lemma HeaderOpenCount()
    ensures Transparent(HeaderOpen(), CardMarker)
  {
    MarkupPiecesCount(HeaderOpenPieces);
    CardMarkerTail();
    ConcatFirstLast(HeaderOpenPieces);
  }

  /** The pieces of `DocumentEnd()`. */
  const DocumentEndPieces: seq<string> := [
    "\n" + "  </div>", "\n</body>", "\n" + HtmlClose]

  /** The closing tags after the cards. */
  function DocumentEnd(): string {
    Concat(DocumentEndPieces)
  }

  /** `DocumentEnd()` holds no card marker and completes none begun before it. */
  lemma DocumentEndCount()
    ensures Transparent(DocumentEnd(), CardMarker)
  {
    MarkupPiecesCount(DocumentEndPieces);
    CardMarkerTail();
    ConcatFirstLast(DocumentEndPieces);
  }

  /** The page ends with the closing `html` tag. */
  lemma DocumentEndShape()
    ensures EndsWith(DocumentEnd(), HtmlClose)
  {
    ConcatFirstLast(DocumentEndPieces);
    ConcatEnds(DocumentEndPieces);
    var s := DocumentEnd();
    assert s[|s| - |HtmlClose|..] == ("\n" + HtmlClose)[1..];
  }

  /** The rule groups of the inline stylesheet. */
  datatype RuleGroupName =
    PageGroup
    | ContainerGroup
    | CardGroup
    | TitleGroup
    | CitationGroup
    | BadgeGroup
    | AuthorsGroup
    | MetaGroup
    | LinkGroup
    | NarrowScreenGroup

  /** The text of a rule group. */
  function RuleGroup(g: RuleGroupName): string {
    match g
    case PageGroup => PageRules()
    case ContainerGroup => ContainerRules()
    case CardGroup => CardRules()
    case TitleGroup => TitleRules()
    case CitationGroup => CitationRules()
    case BadgeGroup => BadgeRules()
    case AuthorsGroup => AuthorsRules()
    case MetaGroup => MetaRules()
    case LinkGroup => LinkRules()
    case NarrowScreenGroup => NarrowScreenRules()
  }

  /** The order of the rule groups: the rules for every screen, then the narrow-screen overrides. */
  const RuleGroupOrder: seq<RuleGroupName> :=
    [PageGroup, ContainerGroup, CardGroup, TitleGroup, CitationGroup, BadgeGroup, AuthorsGroup, MetaGroup, LinkGroup]
    + [NarrowScreenGroup]

  /** The given rule groups, in order. */
  function RuleGroups(gs: seq<RuleGroupName>): string
    decreases |gs|
  {
    if |gs| == 0 then "" else RuleGroups(gs[..|gs| - 1]) + RuleGroup(gs[|gs| - 1])
  }

  /** The inline stylesheet: its rule groups, in order. */
  function Stylesheet(): string {
    RuleGroups(RuleGroupOrder)
  }

  /** The end of the header line. */
  function HeaderClose(): string {
    "</div>\n"
  }

  /**
   * Everything before the cards: the document start, the inline stylesheet,
   * the body start and the header.
   */
  function PageHead(): string {
    DocumentStart() + Stylesheet() + HeaderOpen() + WidgetTitle + HeaderClose()
  }

  /** The cards of the papers shown, in order. */
  function RenderCards(display: seq<Paper>): (cards: seq<string>)
    ensures |cards| == |display|
  {
    seq(|display|, i requires 0 <= i < |display| => RenderPaperCard(display[i]))
  }

  /** The page for the papers it displays: head, cards one per line, closing tags. */
  function WidgetDocument(display: seq<Paper>): string {
    PageHead() + Join(RenderCards(display), "\n") + DocumentEnd()
  }

  /** `renderWidget(papers, { maxPapers })`; `None` stands for an omitted option. */
  function RenderWidget(papers: seq<Paper>, maxPapers: Option<int>): string {
    WidgetDocument(DisplayPapers(papers, maxPapers))
  }

  // ---------------------------------------------------------------------------
  // Properties
  // ---------------------------------------------------------------------------

  /**
   * A card shows the paper's escaped title, authors and Scholar URL, its
   * citation count and its year (or "N/A"), numbers written as `String`
   * writes them.
   */
  lemma CardShowsPaper(paper: Paper)
    ensures Includes(RenderPaperCard(paper), EscapeHtml(paper.title))
    ensures Includes(RenderPaperCard(paper), EscapeHtml(paper.authors))
    ensures Includes(RenderPaperCard(paper), EscapeHtml(paper.scholarUrl))
    ensures Includes(RenderPaperCard(paper), IntToString(paper.citationCount))
    ensures Includes(RenderPaperCard(paper), YearText(paper.year))
  {
    EscapeNumeral(paper.citationCount);
    EscapeYearText(paper.year);
    FillIncludesHole(CardLiterals(), CardHoles(paper), 0);
    FillIncludesHole(CardLiterals(), CardHoles(paper), 1);
    FillIncludesHole(CardLiterals(), CardHoles(paper), 2);
    FillIncludesHole(CardLiterals(), CardHoles(paper), 3);
    FillIncludesHole(CardLiterals(), CardHoles(paper), 4);
  }

  /**
   * Seven template parts of which the first holds the card marker once and
   * the others none, and each part before a substitution ends in a tail that
   * no substitution can complete to a marker.
   */
  predicate CardTemplate(lits: seq<string>) {
    |lits| == 7 && Count(lits[0], CardMarker) == 1
    && (forall i | 1 <= i < 7 :: Count(lits[i], CardMarker) == 0)
    && (forall i | 0 <= i < 6 :: |lits[i]| >= |CardMarker| - 1 && LeadFreeTail(lits[i], CardMarker))
  }

  /** The card template facts, one part at a time. */
  lemma CardTemplateOf(a: string, b: string, c: string, d: string, e: string, f: string, g: string)
    requires Count(a, CardMarker) == 1 && Count(b, CardMarker) == 0 && Count(c, CardMarker) == 0
    requires Count(d, CardMarker) == 0 && Count(e, CardMarker) == 0 && Count(f, CardMarker) == 0
    requires Count(g, CardMarker) == 0
    requires |a| >= |CardMarker| - 1 && LeadFreeTail(a, CardMarker)
    requires |b| >= |CardMarker| - 1 && LeadFreeTail(b, CardMarker)
    requires |c| >= |CardMarker| - 1 && LeadFreeTail(c, CardMarker)
    requires |d| >= |CardMarker| - 1 && LeadFreeTail(d, CardMarker)
    requires |e| >= |CardMarker| - 1 && LeadFreeTail(e, CardMarker)
    requires |f| >= |CardMarker| - 1 && LeadFreeTail(f, CardMarker)
    ensures CardTemplate([a, b, c, d, e, f, g])
  {
  }

  /** The card's template parts: the marker once, in the first, and tails a substitution cannot complete. */
  lemma CardLiteralsFacts()
    ensures CardTemplate(CardLiterals())
  {
    CardOpenCount();
    TitleLinkRestCount();
    CitationBadgeOpenCount();
    AuthorsOpenCount();
    YearOpenCount();
    ScholarLinkOpenCount();
    CardCloseCount();
    CardOpenTail();
    TitleLinkRestTail();
    CitationBadgeOpenTail();
    AuthorsOpenTail();
    YearOpenTail();
    ScholarLinkOpenTail();
    CardTemplateOf(CardOpen(), TitleLinkRest(), CitationBadgeOpen(), AuthorsOpen(), YearOpen(), ScholarLinkOpen(),
      CardClose());
  }

  /** No escaped value starts a card marker: none holds a `<`. */
  lemma CardHolesFacts(paper: Paper)
    ensures |CardHoles(paper)| == 6
    ensures forall i | 0 <= i < 6 :: CardMarker[0] !in CardHoles(paper)[i]
  {
    CardMarkerFacts();
    forall i | 0 <= i < 6
      ensures CardMarker[0] !in CardHoles(paper)[i]
    {
      var values := [paper.scholarUrl, paper.title, IntToString(paper.citationCount), paper.authors,
        YearText(paper.year), paper.scholarUrl];
      assert CardHoles(paper)[i] == EscapeHtml(values[i]);
      EscapedOmitsMarkup(values[i]);
    }
  }

  /** A template with the card's facts, filled with six values free of `<`, holds the marker once. */
  lemma FilledCardCount(lits: seq<string>, holes: seq<string>)
    requires CardTemplate(lits) && |holes| == 6
    requires forall i | 0 <= i < 6 :: CardMarker[0] !in holes[i]
    ensures Count(Fill(lits, holes), CardMarker) == 1
  {
    CardMarkerFacts();
    FillCount(lits, holes, CardMarker);
  }

  /** A card holds its opening tag once: no escaped value can forge another. */
  lemma CardCount(paper: Paper)
    ensures Count(RenderPaperCard(paper), CardMarker) == 1
  {
    CardLiteralsFacts();
    CardHolesFacts(paper);
    FilledCardCount(CardLiterals(), CardHoles(paper));
  }

  /** The title holds no card marker, and nothing before it can run into one. */
  lemma WidgetTitleCount()
    ensures Transparent(WidgetTitle, CardMarker)
  {
    CardMarkerTail();
  }

  /**
   * The end of the header line holds no card marker; nothing before it can
   * run into one, and no marker runs from it into what follows.
   */
  lemma HeaderCloseCount()
    ensures Transparent(HeaderClose(), CardMarker)
    ensures forall a, b :: Count(a + HeaderClose() + b, CardMarker) == Count(a + HeaderClose(), CardMarker) + Count(b, CardMarker)
  {
    CardMarkerFacts();
    CardMarkerTail();
    forall a, b
      ensures Count(a + HeaderClose() + b, CardMarker) == Count(a + HeaderClose(), CardMarker) + Count(b, CardMarker)
    {
      var s := a + HeaderClose();
      assert s[|s| - 1] == '\n';
      CountBeforeAny(s, CardMarker);
    }
  }

  /** The page and container rules hold no card marker and complete none begun before them. */
  lemma PageGroupsMarkers(g: RuleGroupName)
    requires g.PageGroup? || g.ContainerGroup?
    ensures Transparent(RuleGroup(g), CardMarker)
  {
    PageRulesCount();
    ContainerRulesCount();
  }

  /** Nor do the rules for a card, its header and its title. */
  lemma CardGroupsMarkers(g: RuleGroupName)
    requires g.CardGroup? || g.TitleGroup?
    ensures Transparent(RuleGroup(g), CardMarker)
  {
    CardRulesCount();
    TitleRulesCount();
  }

  /** Nor do the rules for the citation count. */
  lemma CitationGroupsMarkers(g: RuleGroupName)
    requires g.CitationGroup? || g.BadgeGroup?
    ensures Transparent(RuleGroup(g), CardMarker)
  {
    CitationRulesCount();
    BadgeRulesCount();
  }

  /** Nor do the rules for the authors and the line below them. */
  lemma AuthorsGroupsMarkers(g: RuleGroupName)
    requires g.AuthorsGroup? || g.MetaGroup?
    ensures Transparent(RuleGroup(g), CardMarker)
  {
    AuthorsRulesCount();
    MetaRulesCount();
  }

  /** Nor do the rules for the year, the Scholar link and narrow screens. */
  lemma LinkGroupsMarkers(g: RuleGroupName)
    requires g.LinkGroup? || g.NarrowScreenGroup?
    ensures Transparent(RuleGroup(g), CardMarker)
  {
    LinkRulesCount();
    NarrowScreenRulesCount();
  }

  /** No rule group holds a card marker or completes one begun before it. */
  lemma RuleGroupMarkers(g: RuleGroupName)
    ensures Transparent(RuleGroup(g), CardMarker)
  {
    if g.PageGroup? || g.ContainerGroup? {
      PageGroupsMarkers(g);
    } else if g.CardGroup? || g.TitleGroup? {
      CardGroupsMarkers(g);
    } else if g.CitationGroup? || g.BadgeGroup? {
      CitationGroupsMarkers(g);
    } else if g.AuthorsGroup? || g.MetaGroup? {
      AuthorsGroupsMarkers(g);
    } else {
      LinkGroupsMarkers(g);
    }
  }

  /** Nor do several rule groups, together. */
  lemma {:induction false} RuleGroupsMarkers(gs: seq<RuleGroupName>)
    ensures Transparent(RuleGroups(gs), CardMarker)
    decreases |gs|
  {
    if |gs| > 0 {
      RuleGroupsMarkers(gs[..|gs| - 1]);
      RuleGroupMarkers(gs[|gs| - 1]);
      CardMarkerTail();
      TransparentAppend(RuleGroups(gs[..|gs| - 1]), RuleGroup(gs[|gs| - 1]), CardMarker);
    }
  }

  /**
   * Transparent pieces, the last of which no marker runs out of, make a head
   * that holds no marker and adds none to what follows it.
   */
  lemma {:induction false} HeadCount(p: string, q: string, r: string, s: string, t: string)
    requires Transparent(p, CardMarker) && Transparent(q, CardMarker) && Transparent(r, CardMarker)
    requires Transparent(s, CardMarker) && Transparent(t, CardMarker)
    requires forall a, b :: Count(a + t + b, CardMarker) == Count(a + t, CardMarker) + Count(b, CardMarker)
    ensures Count(p + q + r + s + t, CardMarker) == 0
    ensures forall b :: Count(p + q + r + s + t + b, CardMarker) == Count(b, CardMarker)
  {
    CardMarkerTail();
    TransparentAppend(p, q, CardMarker);
    TransparentAppend(p + q, r, CardMarker);
    TransparentAppend(p + q + r, s, CardMarker);
    TransparentAppend(p + q + r + s, t, CardMarker);
    var head := p + q + r + s + t;
    assert Count(head, CardMarker) == 0 by {
      if |head| == 0 {
        assert Count(head, CardMarker) == 0;
      }
    }
    forall b
      ensures Count(head + b, CardMarker) == Count(b, CardMarker)
    {
      assert Count(p + q + r + s + t + b, CardMarker) == Count(p + q + r + s + t, CardMarker) + Count(b, CardMarker);
    }
  }

  /** The page holds no card marker outside its cards. */
  lemma PageHeadCount()
    ensures Count(PageHead(), CardMarker) == 0
    ensures forall b :: Count(PageHead() + b, CardMarker) == Count(b, CardMarker)
  {
    DocumentStartCount();
    RuleGroupsMarkers(RuleGroupOrder);
    HeaderOpenCount();
    WidgetTitleCount();
    HeaderCloseCount();
    HeadCount(DocumentStart(), Stylesheet(), HeaderOpen(), WidgetTitle, HeaderClose());
  }

  /** The cards, one per line, hold one card marker each. */
  lemma CardsCount(display: seq<Paper>)
    ensures Count(Join(RenderCards(display), "\n"), CardMarker) == |display|
  {
    forall i | 0 <= i < |display|
      ensures Count(RenderCards(display)[i], CardMarker) == 1
    {
      CardCount(display[i]);
    }
    CardMarkerFacts();
    CountJoin(RenderCards(display), "\n", CardMarker);
  }

  /** The page holds exactly one card marker per displayed paper, none for an empty list. */
  lemma WidgetDocumentCount(display: seq<Paper>)
    ensures Count(WidgetDocument(display), CardMarker) == |display|
  {
    CardsCount(display);
    PageHeadCount();
    DocumentEndCount();
    CardMarkerTail();
    TransparentAfter(DocumentEnd(), CardMarker);
  }

  /**
   * The widget renders one card per paper shown: as many as min(maxPapers,
   * |papers|), five when the option is omitted, and none for an empty list.
   */
  lemma RenderWidgetCardCount(papers: seq<Paper>, maxPapers: Option<int>)
    requires maxPapers.Some? ==> maxPapers.value >= 0
    ensures Count(RenderWidget(papers, maxPapers), CardMarker) == Min(MaxPapersOption(maxPapers), |papers|)
  {
    DisplayPapersPrefix(papers, maxPapers);
    WidgetDocumentCount(DisplayPapers(papers, maxPapers));
  }

  /** Card `i` of a page is the card of its `i`-th paper. */
  lemma WidgetDocumentIncludesCard(display: seq<Paper>, i: int)
    requires 0 <= i < |display|
    ensures Includes(WidgetDocument(display), RenderPaperCard(display[i]))
  {
    assert RenderCards(display)[i] == RenderPaperCard(display[i]);
    JoinIncludes(RenderCards(display), "\n", i);
    IncludesInContext(PageHead(), Join(RenderCards(display), "\n"), DocumentEnd(), RenderPaperCard(display[i]));
  }

  /**
   * Every displayed paper's escaped title, authors and URL, its citation
   * count and its year (or "N/A") appear in the widget, in card `i`.
   */
  lemma RenderWidgetShowsPapers(papers: seq<Paper>, maxPapers: Option<int>, i: int)
    requires maxPapers.Some? ==> maxPapers.value >= 0
    requires 0 <= i < |papers| && i < MaxPapersOption(maxPapers)
    ensures Includes(RenderWidget(papers, maxPapers), EscapeHtml(papers[i].title))
    ensures Includes(RenderWidget(papers, maxPapers), EscapeHtml(papers[i].authors))
    ensures Includes(RenderWidget(papers, maxPapers), EscapeHtml(papers[i].scholarUrl))
    ensures Includes(RenderWidget(papers, maxPapers), IntToString(papers[i].citationCount))
    ensures Includes(RenderWidget(papers, maxPapers), YearText(papers[i].year))
  {
    var display := DisplayPapers(papers, maxPapers);
    DisplayPapersPrefix(papers, maxPapers);
    assert display[i] == papers[i];
    WidgetDocumentIncludesCard(display, i);
    CardShowsPaper(papers[i]);
    var page, card := WidgetDocument(display), RenderPaperCard(papers[i]);
    IncludesTrans(page, card, EscapeHtml(papers[i].title));
    IncludesTrans(page, card, EscapeHtml(papers[i].authors));
    IncludesTrans(page, card, EscapeHtml(papers[i].scholarUrl));
    IncludesTrans(page, card, IntToString(papers[i].citationCount));
    IncludesTrans(page, card, YearText(papers[i].year));
  }

  /** The head starts with the document type and shows the title in its header. */
  lemma PageHeadShape()
    ensures StartsWith(PageHead(), DocType)
    ensures Includes(PageHead(), WidgetTitle)
  {
    DocumentStartShape();
    StartsWithExtensions(DocType);
    IncludesSelf(WidgetTitle);
    IncludesInContext(DocumentStart() + Stylesheet() + HeaderOpen(), WidgetTitle, HeaderClose(), WidgetTitle);
  }

  /** A page starts like its head, ends like its closing tags and shows what its head shows. */
  lemma PageShape(head: string, cards: string, end: string, title: string)
    requires StartsWith(head, DocType) && Includes(head, title) && EndsWith(end, HtmlClose)
    ensures StartsWith(head + cards + end, DocType)
    ensures EndsWith(head + cards + end, HtmlClose)
    ensures Includes(head + cards + end, title)
  {
    StartsWithAppend(head, cards + end, DocType);
    assert head + (cards + end) == head + cards + end;
    EndsWithAppend(head + cards, end, HtmlClose);
    IncludesLeft(head, cards + end);
    IncludesTrans(head + (cards + end), head, title);
  }

  /**
   * The widget is a complete HTML document, `<!DOCTYPE html>` to `</html>`,
   * with the "Publications" header, also for an empty list.
   */
  lemma RenderWidgetIsDocument(papers: seq<Paper>, maxPapers: Option<int>)
    ensures StartsWith(RenderWidget(papers, maxPapers), "<!DOCTYPE html>")
    ensures EndsWith(RenderWidget(papers, maxPapers), "</html>")
    ensures Includes(RenderWidget(papers, maxPapers), "Publications")
  {
    PageHeadShape();
    DocumentEndShape();
    PageShape(PageHead(), Join(RenderCards(DisplayPapers(papers, maxPapers)), "\n"), DocumentEnd(), WidgetTitle);
  }
}
