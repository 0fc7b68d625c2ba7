/** The detail side of the scraper: scrape_data builds one hike record from one hike page. */
module Detail {
  import opened Basics
  import opened Text
  import opened Html
  import Fetch

  /** The sentinel for a field the page does not have. */
  const NOT_AVAILABLE := "N/A"
  /** The summary of a page that could not be fetched. */
  const REQUEST_FAILED := "request failed"
  /** The summary of a page without a body container. */
  const NO_SUMMARY := "No summary provided"
  /** What joins the paragraphs of the body into the summary. */
  const PARAGRAPH_SEPARATOR := "\n\n"

  /**
   * The dict scrape_data returns. `title` is None (JSON null) when a fetched
   * page has no heading; every other field is a string.
   */
  datatype HikeRecord = HikeRecord(
    title: Option<string>,
    url: string,
    distance: string,
    elevationGain: string,
    highPoint: string,
    calculatedDifficulty: string,
    rating: string,
    summary: string)

  /** The keys of the dict, as json.dump writes them. */
  const RECORD_KEYS: set<string> :=
    {"title", "url", "distance", "elevation_gain", "high_point", "calculated_difficulty", "rating", "summary"}

  /** The record as the dict json.dump writes (None stands for null). */
  function AsDict(r: HikeRecord): map<string, Option<string>> {
    map[
      "title" := r.title,
      "url" := Some(r.url),
      "distance" := Some(r.distance),
      "elevation_gain" := Some(r.elevationGain),
      "high_point" := Some(r.highPoint),
      "calculated_difficulty" := Some(r.calculatedDifficulty),
      "rating" := Some(r.rating),
      "summary" := Some(r.summary)]
  }

  /** The eight keys are distinct. */
  lemma RecordKeysCount()
    ensures |RECORD_KEYS| == 8
  {
    var keys := ["title", "url", "distance", "elevation_gain", "high_point", "calculated_difficulty", "rating", "summary"];
    assert forall i, j :: 0 <= i < j < |keys| ==> |keys[i]| != |keys[j]|;
    assert RECORD_KEYS == Elements(keys);
    DistinctElementsCount(keys);
  }

  /** Every record has exactly the eight keys, so `if hike:` never skips one. */
  lemma DictHasEightKeys(r: HikeRecord)
    ensures AsDict(r).Keys == RECORD_KEYS
    ensures AsDict(r) != map[]
  {
    assert "url" in AsDict(r);
  }

  /** The record of a page that could not be fetched. */
  function FailedRecord(url: string): (r: HikeRecord)
    ensures r.url == url && r.summary == REQUEST_FAILED && r.title == Some(NOT_AVAILABLE)
    ensures r.distance == r.elevationGain == r.highPoint == r.calculatedDifficulty == r.rating == NOT_AVAILABLE
  {
    HikeRecord(Some(NOT_AVAILABLE), url, NOT_AVAILABLE, NOT_AVAILABLE, NOT_AVAILABLE, NOT_AVAILABLE, NOT_AVAILABLE, REQUEST_FAILED)
  }

  /** The get_text helper of scrape_data: the element's stripped text, None when there is no element. */
  function SelectedText(e: Option<Element>): (r: Option<string>)
    ensures r.None? <==> e.None?
    ensures e.Some? ==> r == Some(StrippedTextOf(e.value))
    ensures r.Some? ==> Trimmed(r.value)
  {
    match e
    case None => None
    case Some(el) => Some(StrippedTextOf(el))
  }

  /** A stat field holds the stripped .text of its block, or "N/A" when the block is missing. */
  predicate StatField(tag: Option<Element>, value: string) {
    && (tag.None? ==> value == NOT_AVAILABLE)
    && (tag.Some? ==> value == Strip(TextOf(tag.value)))
  }

  /** `tag.text.strip() if tag else "N/A"`. */
  function StatText(tag: Option<Element>): (r: string)
    ensures StatField(tag, r)
    ensures tag.Some? ==> Trimmed(r)
  {
    match tag
    case None => NOT_AVAILABLE
    case Some(el) => Strip(TextOf(el))
  }

  /** The stripped text of each paragraph, in order. */
  function ParagraphTexts(paragraphs: seq<Element>): (texts: seq<string>)
    ensures |texts| == |paragraphs|
    ensures forall i :: 0 <= i < |texts| ==> texts[i] == StrippedTextOf(paragraphs[i]) && Trimmed(texts[i])
  {
    seq(|paragraphs|, i requires 0 <= i < |paragraphs| => StrippedTextOf(paragraphs[i]))
  }

  /** The summary: the paragraphs of the body container joined by a blank line, or NO_SUMMARY without a container. */
  function SummaryText(body: Option<seq<Element>>): (r: string)
    ensures body.None? ==> r == NO_SUMMARY
    ensures body == Some([]) ==> r == ""
  {
    match body
    case None => NO_SUMMARY
    case Some(paragraphs) => Join(PARAGRAPH_SEPARATOR, ParagraphTexts(paragraphs))
  }

  /**
   * The fields scrape_data reads off a fetched page, each from its own lookup:
   * the title is the heading's get_text(strip=True), or None without a heading;
   * each stat is its block's stripped text or "N/A"; the summary is the
   * paragraphs' texts joined by a blank line, or NO_SUMMARY without a body.
   */
  predicate FieldsOfPage(page: Document, r: HikeRecord)
    requires page.Parsed?
  {
    && (page.heading.None? ==> r.title.None?)
    && (page.heading.Some? ==> r.title == Some(StrippedTextOf(page.heading.value)))
    && StatField(page.length, r.distance)
    && StatField(page.elevationGain, r.elevationGain)
    && StatField(page.highestPoint, r.highPoint)
    && StatField(page.calculatedDifficulty, r.calculatedDifficulty)
    && StatField(page.rating, r.rating)
    && (page.body.None? ==> r.summary == NO_SUMMARY)
    && (page.body.Some? ==> r.summary == Join(PARAGRAPH_SEPARATOR, ParagraphTexts(page.body.value)))
  }

  /** Everything scrape_data does after a successful fetch. */
  function ParseDetail(url: string, page: Document): (r: Outcome<HikeRecord>)
    ensures r.Raised? <==> page.Unparseable?
    ensures r.Returned? ==> r.value.url == url && FieldsOfPage(page, r.value)
  {
    match page
    case Unparseable => Raised
    case Parsed(_, heading, length, elevationGain, highestPoint, calculatedDifficulty, rating, body) =>
      Returned(HikeRecord(
        SelectedText(heading),
        url,
        StatText(length),
        StatText(elevationGain),
        StatText(highestPoint),
        StatText(calculatedDifficulty),
        StatText(rating),
        SummaryText(body)))
  }

  /** scrape_data(url): fetch the hike page with safe_get's defaults and build its record. */
  function ScrapeData(url: string, web: Web): (r: Outcome<HikeRecord>)
    ensures r.Returned? ==> r.value.url == url
  {
    match Fetch.Retry(web(url), Fetch.DEFAULT_RETRIES, Fetch.DEFAULT_BACKOFF).result
    case None => Returned(FailedRecord(url))
    case Some(page) => ParseDetail(url, page)
  }

  /**
   * A page that fails all three attempts gives the record with the url, the
   * summary "request failed" and "N/A" in the six other fields; it does not raise.
   */
  lemma FailedFetchRecord(url: string, web: Web)
    requires forall j :: 0 <= j < Fetch.DEFAULT_RETRIES ==> web(url)(j).RequestFailed?
    ensures ScrapeData(url, web) == Returned(FailedRecord(url))
    ensures var r := ScrapeData(url, web).value;
      r.url == url && r.summary == REQUEST_FAILED && r.title == Some(NOT_AVAILABLE)
      && r.distance == r.elevationGain == r.highPoint == r.calculatedDifficulty == r.rating == NOT_AVAILABLE
  {
    Fetch.RetryReturnsFirstResponse(web(url), Fetch.DEFAULT_RETRIES, Fetch.DEFAULT_BACKOFF);
  }

  /** scrape_data raises only when the fetched page cannot be processed; otherwise it always builds a record. */
  lemma ScrapeRaisesOnlyOnUnparseable(url: string, web: Web)
    ensures ScrapeData(url, web).Raised? <==>
      Fetch.Retry(web(url), Fetch.DEFAULT_RETRIES, Fetch.DEFAULT_BACKOFF).result == Some(Unparseable)
  {
  }

  /**
   * On a fetched page each field depends only on its own lookup: two pages
   * that agree on a lookup give the same value for its field.
   */
  lemma FieldsAreIndependent(url: string, page: Document, other: Document)
    requires page.Parsed? && other.Parsed?
    ensures ParseDetail(url, page).Returned?
    ensures var r, s := ParseDetail(url, page).value, ParseDetail(url, other).value;
      && (page.heading == other.heading ==> r.title == s.title)
      && (page.length == other.length ==> r.distance == s.distance)
      && (page.elevationGain == other.elevationGain ==> r.elevationGain == s.elevationGain)
      && (page.highestPoint == other.highestPoint ==> r.highPoint == s.highPoint)
      && (page.calculatedDifficulty == other.calculatedDifficulty ==> r.calculatedDifficulty == s.calculatedDifficulty)
      && (page.rating == other.rating ==> r.rating == s.rating)
      && (page.body == other.body ==> r.summary == s.summary)
  {
  }

  /**
   * The record of a fetched page: the URL, and every field from its own
   * lookup. In particular the title is None (not "N/A") exactly when the
   * heading is missing, and a body container without paragraphs gives the
   * empty summary, not NO_SUMMARY.
   */
  lemma FetchedPageRecord(url: string, web: Web, page: Document)
    requires Fetch.Retry(web(url), Fetch.DEFAULT_RETRIES, Fetch.DEFAULT_BACKOFF).result == Some(page)
    requires page.Parsed?
    ensures ScrapeData(url, web).Returned?
    ensures var r := ScrapeData(url, web).value;
      && r.url == url
      && FieldsOfPage(page, r)
      && (r.title.None? <==> page.heading.None?)
      && (page.body == Some([]) ==> r.summary == "")
  {
  }

  /**
   * The summary can be split back into the paragraph texts when no paragraph
   * text holds a blank line of its own.
   */
  lemma SummarySplitsIntoParagraphs(paragraphs: seq<Element>)
    requires paragraphs != []
    requires forall i :: 0 <= i < |paragraphs| ==> NoBlankLine(StrippedTextOf(paragraphs[i]))
    ensures Split(SummaryText(Some(paragraphs)), PARAGRAPH_SEPARATOR) == ParagraphTexts(paragraphs)
  {
    var texts := ParagraphTexts(paragraphs);
    forall i | 0 <= i < |texts|
      ensures SeparatorFree(texts[i], PARAGRAPH_SEPARATOR)
    {
      BlankLineFree(texts[i]);
    }
    SplitJoin(PARAGRAPH_SEPARATOR, texts);
  }
}
