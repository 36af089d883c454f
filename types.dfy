/**
 * The record model shared by the scraper, the cache and the two renderers
 * (lib/types.ts).
 */
module Types {

  /** `T | null` of the source. */
  datatype Option<+T> = None | Some(value: T)

  /**
   * One publication row. `year == None` is the source's `null`; the numbers are
   * unbounded integers (JavaScript numbers in the source).
   */
  datatype Paper = Paper(
    title: string,
    authors: string,
    citationCount: int,
    year: Option<int>,
    scholarUrl: string)

  /** The four error kinds of `ScraperError.errorType`. */
  datatype ErrorKind = InvalidProfile | RateLimited | NetworkError | ParseError

  /** `ScraperResponse = ScraperResult | ScraperError`, discriminated by `success`. */
  datatype ScraperResponse =
    | ScraperResult(papers: seq<Paper>)
    | ScraperError(error: string, errorType: ErrorKind)

  /** What the cache keeps per scholar id: the list and the instant it was stored. */
  datatype CacheEntry = CacheEntry(papers: seq<Paper>, timestamp: int)
}
