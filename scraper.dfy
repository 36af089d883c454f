/**
 * The profile-page classifier/extractor (`parseScholarHTML`) and the mapping
 * of a fetch outcome to a response (`scrapeScholarProfile`) of lib/scraper.ts.
 *
 * The HTML document is not parsed here: a `Document` holds what the DOM
 * queries of the source read from it, and a `RawRow` what they read from one
 * publication row. The fetch is an input value, `FetchOutcome`.
 */
module Scraper {
  import opened Types
  import opened JsText

  const ScholarBaseUrl: string := "https://scholar.google.com"
  const RobotCheckPhrase: string := "Please show you&#39;re not a robot"

  const RateLimitMessage: string := "Google Scholar rate limit detected. Please retry later."
  const InvalidProfileMessage: string := "Invalid scholar profile. The profile page could not be found."
  const ParseFailureMessage: string := "Failed to parse Google Scholar profile page."
  const NetworkErrorPrefix: string := "Network error while fetching Google Scholar profile: "
  const UnknownNetworkError: string := "Unknown network error"
  const HttpRateLimitMessage: string := "Google Scholar rate limit detected (HTTP 429). Please retry later."
  const HttpFailurePrefix: string := "Failed to fetch Google Scholar profile (HTTP "

  /**
   * What the row queries read from one `.gsc_a_tr` row, untrimmed: the text of
   * the `.gsc_a_at` title link and its `href` attribute (None when absent),
   * the text of the first `.gs_gray` element ("" when there is none), the text
   * of the `.gsc_a_c a` citation link and of the `.gsc_a_y span` year.
   */
  datatype RawRow = RawRow(
    titleText: string,
    href: Option<string>,
    firstGrayText: string,
    citationText: string,
    yearText: string)

  /**
   * What the page queries read from a loaded document. `loadFails` stands for
   * the HTML loader throwing; `html` is the raw text; `hasCaptchaElement` is
   * "`#gs_captcha_ccl` matched"; `profileNameText` is the untrimmed text of
   * `#gsc_prf_in`; `hasTableBody` is "`#gsc_a_b` matched" and `rows` are the
   * `.gsc_a_tr` rows inside it.
   */
  datatype Document = Document(
    loadFails: bool,
    html: string,
    hasCaptchaElement: bool,
    profileNameText: string,
    hasTableBody: bool,
    rows: seq<RawRow>)

  // ---------------------------------------------------------------------------
  // Page classification
  // ---------------------------------------------------------------------------

  /** A CAPTCHA container or the robot-check phrase marks a rate-limit page. */
  predicate IsRateLimitPage(doc: Document) {
    doc.hasCaptchaElement || Includes(doc.html, RobotCheckPhrase)
  }

  /** No profile name and no publication table: the profile does not exist. */
  predicate IsMissingProfile(doc: Document) {
    Trim(doc.profileNameText) == [] && !doc.hasTableBody
  }

  /** The rows `tableBody.find('.gsc_a_tr')` visits: none without a table body. */
  function TableRows(doc: Document): seq<RawRow> {
    if doc.hasTableBody then doc.rows else []
  }

  // ---------------------------------------------------------------------------
  // Row fields
  // ---------------------------------------------------------------------------

  /** The `scholarUrl` of a row, from the title link's `href`. */
  function ScholarUrl(href: Option<string>): string {
    var h := if href.Some? then href.value else "";
    if StartsWith(h, "http") then h
    else if h != [] then ScholarBaseUrl + h
    else ""
  }

  /** The citation count: empty text or NaN give 0, otherwise the parsed value. */
  function CitationCount(citationText: string): int {
    var t := Trim(citationText);
    if t == [] then 0
    else match ParseInt(t)
      case None => 0
      case Some(v) => v
  }

  /** The year: empty text or NaN give null, otherwise the parsed value. */
  function Year(yearText: string): Option<int> {
    var t := Trim(yearText);
    if t == [] then None else ParseInt(t)
  }

  /** A row counts as a publication when its trimmed title is not empty. */
  predicate HasTitle(row: RawRow) {
    Trim(row.titleText) != []
  }

  /** The paper a row contributes, or None when it has no title. */
  function RowPaper(row: RawRow): (p: Option<Paper>)
    ensures p.Some? <==> HasTitle(row)
  {
    if !HasTitle(row) then None
    else Some(Paper(Trim(row.titleText), Trim(row.firstGrayText), CitationCount(row.citationText),
                    Year(row.yearText), ScholarUrl(row.href)))
  }

  /** The papers of the titled rows, in document order. */
  function KeptPapers(rows: seq<RawRow>): seq<Paper> {
    if rows == [] then []
    else
      var last := RowPaper(rows[|rows| - 1]);
      KeptPapers(rows[..|rows| - 1]) + (if last.Some? then [last.value] else [])
  }

  /** The rows that yield a paper. */
  function TitledRows(rows: seq<RawRow>): seq<RawRow> {
    if rows == [] then []
    else (if HasTitle(rows[0]) then [rows[0]] else []) + TitledRows(rows[1..])
  }

  // ---------------------------------------------------------------------------
  // Stable sort by citation count, descending
  // ---------------------------------------------------------------------------

  /** Non-increasing in `citationCount`. */
  predicate ByCitationsDescending(s: seq<Paper>) {
    forall i, j :: 0 <= i < j < |s| ==> s[i].citationCount >= s[j].citationCount
  }

  /** The papers of `s` with citation count `c`, in their order in `s`. */
  function WithCount(s: seq<Paper>, c: int): seq<Paper> {
    if s == [] then []
    else (if s[0].citationCount == c then [s[0]] else []) + WithCount(s[1..], c)
  }

  /** Puts `x` in front of the first paper of `t` with no more citations than `x`. */
  function Insert(x: Paper, t: seq<Paper>): seq<Paper> {
    if t == [] || t[0].citationCount <= x.citationCount then [x] + t
    else [t[0]] + Insert(x, t[1..])
  }

  /**
   * `papers.sort((a, b) => b.citationCount - a.citationCount)`: a stable sort
   * (as Array.prototype.sort is required to be), here by insertion.
   */
  function SortByCitations(s: seq<Paper>): (r: seq<Paper>)
    ensures multiset(r) == multiset(s)
  {
    if s == [] then []
    else
      var t := SortByCitations(s[1..]);
      InsertPermutes(s[0], t);
      assert s == [s[0]] + s[1..];
      Insert(s[0], t)
  }

  lemma {:induction false} InsertPermutes(x: Paper, t: seq<Paper>)
    ensures multiset(Insert(x, t)) == multiset(t) + multiset{x}
  {
    if t != [] && t[0].citationCount > x.citationCount {
      InsertPermutes(x, t[1..]);
      assert t == [t[0]] + t[1..];
    }
  }

  lemma {:induction false} InsertSorted(x: Paper, t: seq<Paper>)
    requires ByCitationsDescending(t)
    ensures ByCitationsDescending(Insert(x, t))
  {
    if t != [] && t[0].citationCount > x.citationCount {
      InsertSorted(x, t[1..]);
      InsertPermutes(x, t[1..]);
      var r := Insert(x, t[1..]);
      forall k | 0 <= k < |r| ensures r[k].citationCount <= t[0].citationCount {
        assert r[k] in multiset(r);
        if r[k] != x {
          assert r[k] in multiset(t[1..]);
          var j :| 0 <= j < |t[1..]| && t[1..][j] == r[k];
          assert t[j + 1] == r[k];
        }
      }
      assert Insert(x, t) == [t[0]] + r;
    }
  }

  lemma {:induction false} InsertWithCount(x: Paper, t: seq<Paper>, c: int)
    ensures WithCount(Insert(x, t), c) == (if x.citationCount == c then [x] else []) + WithCount(t, c)
  {
    if t == [] || t[0].citationCount <= x.citationCount {
      assert ([x] + t)[1..] == t;
    } else {
      var u := Insert(x, t[1..]);
      InsertWithCount(x, t[1..], c);
      assert Insert(x, t) == [t[0]] + u;
      assert ([t[0]] + u)[1..] == u;
      if t[0].citationCount == c {
        // x has fewer citations than t[0], so it is not counted here
        assert WithCount(Insert(x, t), c) == [t[0]] + WithCount(t[1..], c);
      } else if x.citationCount == c {
        assert WithCount(Insert(x, t), c) == [x] + WithCount(t[1..], c);
      } else {
        assert WithCount(Insert(x, t), c) == WithCount(t[1..], c);
      }
    }
  }

  /**
   * The sort orders by citations, descending, is a permutation, and keeps
   * papers with equal counts in their original order.
   */
  lemma {:induction false} SortByCitationsCorrect(s: seq<Paper>)
    ensures ByCitationsDescending(SortByCitations(s))
    ensures multiset(SortByCitations(s)) == multiset(s)
    ensures forall c :: WithCount(SortByCitations(s), c) == WithCount(s, c)
  {
    if s != [] {
      SortByCitationsCorrect(s[1..]);
      InsertSorted(s[0], SortByCitations(s[1..]));
      InsertPermutes(s[0], SortByCitations(s[1..]));
      assert s == [s[0]] + s[1..];
      forall c ensures WithCount(SortByCitations(s), c) == WithCount(s, c) {
        InsertWithCount(s[0], SortByCitations(s[1..]), c);
      }
    }
  }

  // ---------------------------------------------------------------------------
  // parseScholarHTML
  // ---------------------------------------------------------------------------

  /** The response `parseScholarHTML` gives for a document. */
  function Classify(doc: Document): (r: ScraperResponse)
    ensures r.ScraperError? ==> r.errorType != NetworkError
    ensures r.ScraperResult? ==>
      && ByCitationsDescending(r.papers)
      && multiset(r.papers) == multiset(KeptPapers(TableRows(doc)))
  {
    SortByCitationsCorrect(KeptPapers(TableRows(doc)));
    if doc.loadFails then ScraperError(ParseFailureMessage, ParseError)
    else if IsRateLimitPage(doc) then ScraperError(RateLimitMessage, RateLimited)
    else if IsMissingProfile(doc) then ScraperError(InvalidProfileMessage, InvalidProfile)
    else ScraperResult(SortByCitations(KeptPapers(TableRows(doc))))
  }

  /**
   * The body of the `.each` callback for one row: reads the fields and returns
   * the paper it pushes, or None when the trimmed title is empty.
   */
  method VisitRow(row: RawRow) returns (pushed: Option<Paper>)
    ensures pushed == RowPaper(row)
  {
    var title := Trim(row.titleText);
    var href := if row.href.Some? then row.href.value else "";
    var scholarUrl := if StartsWith(href, "http") then href
                      else if href != [] then ScholarBaseUrl + href
                      else "";
    var authors := Trim(row.firstGrayText);
    var citationText := Trim(row.citationText);
    var citationCount := if citationText != [] then ParseInt(citationText) else Some(0);
    var yearText := Trim(row.yearText);
    var year := if yearText != [] then ParseInt(yearText) else None;
    if title != [] {
      pushed := Some(Paper(title, authors,
                           if citationCount.None? then 0 else citationCount.value,
                           year, scholarUrl));
    } else {
      pushed := None;
    }
  }

  /**
   * `parseScholarHTML`: the rate-limit and profile checks, then the row loop
   * that pushes one paper per titled row, then the sort.
   */
  method ParseScholarHtml(doc: Document) returns (r: ScraperResponse)
    ensures r == Classify(doc)
  {
    if doc.loadFails {
      return ScraperError(ParseFailureMessage, ParseError);
    }
    if doc.hasCaptchaElement || Includes(doc.html, RobotCheckPhrase) {
      return ScraperError(RateLimitMessage, RateLimited);
    }
    var profileName := Trim(doc.profileNameText);
    if profileName == [] && !doc.hasTableBody {
      return ScraperError(InvalidProfileMessage, InvalidProfile);
    }
    var rows := if doc.hasTableBody then doc.rows else [];
    var papers: seq<Paper> := [];
    var i := 0;
    while i < |rows|
      invariant 0 <= i <= |rows|
      invariant papers == KeptPapers(rows[..i])
    {
      var pushed := VisitRow(rows[i]);
      if pushed.Some? {
        papers := papers + [pushed.value];
      }
      assert rows[..i + 1][..i] == rows[..i];
      i := i + 1;
    }
    assert rows[..i] == rows;
    papers := SortByCitations(papers);
    return ScraperResult(papers);
  }

  // ---------------------------------------------------------------------------
  // Properties of parseScholarHTML
  // ---------------------------------------------------------------------------

  /**
   * A loaded page is rate limited exactly when it has the CAPTCHA element or
   * the robot phrase, whatever its profile name and table.
   */
  lemma RateLimitFirst(doc: Document)
    requires !doc.loadFails
    ensures Classify(doc).ScraperError? && Classify(doc).errorType == RateLimited
            <==> IsRateLimitPage(doc)
  {
  }

  /**
   * INVALID_PROFILE exactly for a loaded, non-rate-limited page with an empty
   * trimmed profile name and no table body; a name without a table is a
   * success with no papers.
   */
  lemma InvalidProfileExactly(doc: Document)
    ensures Classify(doc).ScraperError? && Classify(doc).errorType == InvalidProfile
            <==> !doc.loadFails && !IsRateLimitPage(doc) && IsMissingProfile(doc)
    ensures (!doc.loadFails && !IsRateLimitPage(doc) && !doc.hasTableBody
             && Trim(doc.profileNameText) != []) ==> Classify(doc) == ScraperResult([])
  {
  }

  /** Every paper of a row list has a non-empty title without surrounding white space. */
  lemma {:induction false} KeptPapersTitles(rows: seq<RawRow>)
    ensures forall p :: p in KeptPapers(rows) ==>
      p.title != [] && !IsWhiteSpace(p.title[0]) && !IsWhiteSpace(p.title[|p.title| - 1])
  {
    if rows != [] {
      KeptPapersTitles(rows[..|rows| - 1]);
      TrimSlice(rows[|rows| - 1].titleText);
    }
  }

  /**
   * The kept papers are exactly those of the titled rows: one per titled row,
   * and each comes from some row.
   */
  lemma {:induction false} KeptPapersFromRows(rows: seq<RawRow>)
    ensures |KeptPapers(rows)| == |TitledRows(rows)|
    ensures forall k :: 0 <= k < |rows| && RowPaper(rows[k]).Some? ==>
      RowPaper(rows[k]).value in KeptPapers(rows)
    ensures forall p :: p in KeptPapers(rows) ==>
      exists k :: 0 <= k < |rows| && RowPaper(rows[k]) == Some(p)
  {
    if rows != [] {
      var init := rows[..|rows| - 1];
      KeptPapersFromRows(init);
      TitledRowsSnoc(init, rows[|rows| - 1]);
      assert init + [rows[|rows| - 1]] == rows;
      forall p | p in KeptPapers(rows)
        ensures exists k :: 0 <= k < |rows| && RowPaper(rows[k]) == Some(p)
      {
        if p in KeptPapers(init) {
          var k :| 0 <= k < |init| && RowPaper(init[k]) == Some(p);
          assert rows[k] == init[k];
        } else {
          assert RowPaper(rows[|rows| - 1]) == Some(p);
        }
      }
      forall k | 0 <= k < |rows| && RowPaper(rows[k]).Some?
        ensures RowPaper(rows[k]).value in KeptPapers(rows)
      {
        if k < |init| {
          assert rows[k] == init[k];
        }
      }
    }
  }

  lemma {:induction false} TitledRowsSnoc(rows: seq<RawRow>, row: RawRow)
    ensures TitledRows(rows + [row]) == TitledRows(rows) + (if HasTitle(row) then [row] else [])
  {
    if rows == [] {
      assert [] + [row] == [row];
    } else {
      var head := if HasTitle(rows[0]) then [rows[0]] else [];
      var last := if HasTitle(row) then [row] else [];
      TitledRowsSnoc(rows[1..], row);
      assert (rows + [row])[0] == rows[0];
      assert (rows + [row])[1..] == rows[1..] + [row];
      assert TitledRows(rows + [row]) == head + (TitledRows(rows[1..]) + last);
      assert head + (TitledRows(rows[1..]) + last) == head + TitledRows(rows[1..]) + last;
    }
  }

  /**
   * A successful parse lists the papers of the titled table rows, each once,
   * non-increasing in citations, equal counts in document order, and every
   * title non-empty.
   */
  lemma SuccessfulParse(doc: Document)
    requires Classify(doc).ScraperResult?
    ensures var papers := Classify(doc).papers;
      var kept := KeptPapers(TableRows(doc));
      && ByCitationsDescending(papers)
      && multiset(papers) == multiset(kept)
      && |papers| == |TitledRows(TableRows(doc))|
      && (forall c :: WithCount(papers, c) == WithCount(kept, c))
      && (forall p :: p in papers ==> p.title != [])
  {
    var kept := KeptPapers(TableRows(doc));
    SortByCitationsCorrect(kept);
    KeptPapersFromRows(TableRows(doc));
    KeptPapersTitles(TableRows(doc));
    var papers := Classify(doc).papers;
    assert |papers| == |kept| by {
      assert |multiset(papers)| == |multiset(kept)|;
    }
    forall p | p in papers ensures p.title != [] {
      assert p in multiset(kept);
    }
  }

  // ---------------------------------------------------------------------------
  // Properties of the row fields
  // ---------------------------------------------------------------------------

  /**
   * A link that already starts with `http` is kept, any other non-empty link is
   * prefixed with the Scholar origin, and a missing or empty one gives "".
   * So a URL is either empty or starts with `http`.
   */
  lemma ScholarUrlShape(href: Option<string>)
    ensures ScholarUrl(href) == "" <==> href == None || href == Some("")
    ensures ScholarUrl(href) != "" ==> StartsWith(ScholarUrl(href), "http")
    ensures href.Some? && StartsWith(href.value, "http") ==> ScholarUrl(href) == href.value
    ensures href.Some? && href.value != "" && !StartsWith(href.value, "http")
            ==> ScholarUrl(href) == ScholarBaseUrl + href.value
  {
  }

  /** A count printed with `String(n)` reads back as `n`. */
  lemma CitationCountOfNumeral(n: int)
    ensures CitationCount(IntToString(n)) == n
  {
    ParseIntOfIntToString(n);
    TrimNumeral(n);
  }

  /**
   * The citation count is 0 for blank or non-numeric text, and is never
   * negative unless the trimmed text starts with `-`.
   */
  lemma CitationCountDefaults(citationText: string)
    ensures AllWhiteSpace(citationText) ==> CitationCount(citationText) == 0
    ensures ParseInt(Trim(citationText)).None? ==> CitationCount(citationText) == 0
    ensures var t := Trim(citationText);
      !(|t| > 0 && t[0] == '-') ==> CitationCount(citationText) >= 0
  {
    TrimEmptyIff(citationText);
    var t := Trim(citationText);
    TrimSlice(citationText);
    ParseIntShape(t);
  }

  /**
   * The year is null for blank or non-numeric text (never 0 by default), and a
   * year printed with `String(y)` reads back as `y`.
   */
  lemma YearDefaults(yearText: string, y: int)
    ensures AllWhiteSpace(yearText) ==> Year(yearText) == None
    ensures ParseInt(Trim(yearText)).None? ==> Year(yearText) == None
    ensures Year(yearText).Some? ==> Year(yearText) == ParseInt(Trim(yearText))
    ensures Year(IntToString(y)) == Some(y)
  {
    TrimEmptyIff(yearText);
    ParseIntOfIntToString(y);
    TrimNumeral(y);
  }

  /** A numeral has no white space to trim. */
  lemma TrimNumeral(n: int)
    ensures Trim(IntToString(n)) == IntToString(n)
  {
    var s := IntToString(n);
    assert s[0] == '-' || IsDigit(s[0]);
    assert s[|s| - 1] == '-' || IsDigit(s[|s| - 1]);
  }

  // ---------------------------------------------------------------------------
  // scrapeScholarProfile
  // ---------------------------------------------------------------------------

  /** What the `fetch` call threw: an `Error` with its message, or something else. */
  datatype ThrownValue = ErrorObject(message: string) | OtherValue

  /** The fetch either throws or resolves to a response with a status and a body. */
  datatype FetchOutcome = Thrown(thrown: ThrownValue) | Response(status: int, body: Document)

  /** `response.ok`: a status in the 200-299 range. */
  predicate IsOk(status: int) {
    200 <= status <= 299
  }

  /** The text of a thrown value: an error's message or a fixed phrase. */
  function ThrownMessage(thrown: ThrownValue): string {
    if thrown.ErrorObject? then thrown.message else UnknownNetworkError
  }

  /** `scrapeScholarProfile` once the request has been made. */
  function ScrapeScholarProfile(outcome: FetchOutcome): (r: ScraperResponse)
    ensures r.ScraperResult? ==> outcome.Response? && IsOk(outcome.status)
    ensures r.ScraperError? && r.errorType == NetworkError ==> outcome.Thrown? || !IsOk(outcome.status)
    ensures r.ScraperError? && r.errorType == ParseError ==> outcome.Response? && outcome.body.loadFails
  {
    match outcome
    case Thrown(thrown) =>
      ScraperError(NetworkErrorPrefix + ThrownMessage(thrown), NetworkError)
    case Response(status, body) =>
      if status == 429 then ScraperError(HttpRateLimitMessage, RateLimited)
      else if !IsOk(status) then
        ScraperError(HttpFailurePrefix + IntToString(status) + ").", NetworkError)
      else Classify(body)
  }

  /**
   * A throw is a NETWORK_ERROR whose message contains the error's text;
   * status 429 is RATE_LIMITED whatever the body; any other non-2xx status is
   * a NETWORK_ERROR whose message contains the status; a 2xx response is the
   * classification of its body.
   */
  lemma FetchOutcomeMapping(outcome: FetchOutcome)
    ensures outcome.Thrown? ==>
      && ScrapeScholarProfile(outcome).ScraperError?
      && ScrapeScholarProfile(outcome).errorType == NetworkError
      && Includes(ScrapeScholarProfile(outcome).error, ThrownMessage(outcome.thrown))
    ensures outcome.Response? && outcome.status == 429 ==>
      ScrapeScholarProfile(outcome).ScraperError?
      && ScrapeScholarProfile(outcome).errorType == RateLimited
    ensures outcome.Response? && outcome.status != 429 && !IsOk(outcome.status) ==>
      && ScrapeScholarProfile(outcome).ScraperError?
      && ScrapeScholarProfile(outcome).errorType == NetworkError
      && Includes(ScrapeScholarProfile(outcome).error, IntToString(outcome.status))
    ensures outcome.Response? && IsOk(outcome.status) ==>
      ScrapeScholarProfile(outcome) == Classify(outcome.body)
  {
    match outcome
    case Thrown(thrown) =>
      var m := ThrownMessage(thrown);
      IncludesSelf(m);
      IncludesInContext(NetworkErrorPrefix, m, "", m);
      assert NetworkErrorPrefix + m + "" == NetworkErrorPrefix + m;
    case Response(status, body) =>
      var s := IntToString(status);
      IncludesSelf(s);
      IncludesInContext(HttpFailurePrefix, s, ").", s);
  }
}
