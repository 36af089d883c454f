/**
 * What both renderers share: `{ ...DEFAULT_OPTIONS, ...options }` with its
 * default of five papers, `papers.slice(0, maxPapers)`, and the year text of
 * a paper.
 */
module Display {
  import opened Types
  import opened JsText
  import opened Escaping

  const DefaultMaxPapers: int := 5

  function Min(a: int, b: int): int {
    if a <= b then a else b
  }

  /** The `maxPapers` option, or the default when it is omitted. */
  function MaxPapersOption(maxPapers: Option<int>): int {
    if maxPapers.Some? then maxPapers.value else DefaultMaxPapers
  }

  /** The papers shown: `papers.slice(0, maxPapers)`. */
  function DisplayPapers(papers: seq<Paper>, maxPapers: Option<int>): (display: seq<Paper>)
    ensures display <= papers
  {
    Slice(papers, MaxPapersOption(maxPapers))
  }

  /**
   * The papers shown are the first min(maxPapers, |papers|) papers, in input
   * order, five when the option is omitted.
   */
  lemma DisplayPapersPrefix(papers: seq<Paper>, maxPapers: Option<int>)
    requires maxPapers.Some? ==> maxPapers.value >= 0
    ensures var n := if maxPapers.Some? then maxPapers.value else 5;
      var k := Min(n, |papers|);
      && |DisplayPapers(papers, maxPapers)| == k
      && DisplayPapers(papers, maxPapers) == papers[..k]
  {
  }

  /** `String(paper.year)`, or "N/A" for a paper without a year. */
  function YearText(year: Option<int>): string {
    if year.Some? then IntToString(year.value) else "N/A"
  }

  /** The year text needs no escaping, for either escape. */
  lemma EscapeYearText(year: Option<int>)
    ensures EscapeXml(YearText(year)) == YearText(year)
    ensures EscapeHtml(YearText(year)) == YearText(year)
  {
    if year.Some? {
      EscapeNumeral(year.value);
    } else {
      EscapePlain("N/A", XmlApos);
      EscapePlain("N/A", HtmlApos);
    }
  }
}
