/**
 * What the scraper reads out of a fetched page. BeautifulSoup is not modelled:
 * a parsed page is given by the results of the selector queries the scraper
 * makes on it, and an element by the text nodes beneath it.
 */
module Html {
  import opened Basics
  import opened Text
  import Fetch

  /** An element a selector found, as the strings of the text nodes beneath it, in document order. */
  datatype Element = Element(strings: seq<string>)

  /** el.text (also el.get_text()): the text nodes glued together. */
  function TextOf(e: Element): string {
    Concat(e.strings)
  }

  function StripEach(strings: seq<string>): (r: seq<string>)
    ensures |r| == |strings| && forall i :: 0 <= i < |r| ==> Trimmed(r[i])
  {
    seq(|strings|, i requires 0 <= i < |strings| => Strip(strings[i]))
  }

  /** el.get_text(strip=True): every text node stripped, then glued together with no separator. */
  function StrippedTextOf(e: Element): (r: string)
    ensures Trimmed(r)
  {
    ConcatTrimmed(StripEach(e.strings));
    Concat(StripEach(e.strings))
  }

  /** An `a` element: its href attribute, None when it has none. */
  datatype Anchor = Anchor(href: Option<string>)

  /**
   * A fetched page. `Unparseable` is a page whose processing raises an
   * exception that is not a RequestException (from the parser or a selector).
   * A `Parsed` page holds what each of the scraper's queries returns:
   * - anchors: soup.select("h3.listitem-title a"), in document order
   * - heading: select_one("h1.documentFirstHeading")
   * - length, elevationGain, highestPoint, calculatedDifficulty: the `dd` of the
   *   hike-stats__stat block whose `dt` contains that label
   * - rating: select_one("div.AverageRating div.current-rating")
   * - body: the `p` elements under id="hike-body-text", None when there is no such element
   */
  datatype Document =
    | Unparseable
    | Parsed(
        anchors: seq<Anchor>,
        heading: Option<Element>,
        length: Option<Element>,
        elevationGain: Option<Element>,
        highestPoint: Option<Element>,
        calculatedDifficulty: Option<Element>,
        rating: Option<Element>,
        body: Option<seq<Element>>)

  /** The web: web(url)(k) is what the k-th request to url within one safe_get call gives. */
  type Web = string -> nat -> Fetch.Attempt<Document>
}
