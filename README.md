# WTA hike scraper, modelled in Dafny

This project models the scraper of PeakPlanner (`scrape_wta.py`). The scraper harvests hike records from the
Washington Trails Association website in five steps:

- `safe_get` makes a GET request with a bounded number of attempts and a linear backoff.
- `get_page_links` keeps the hike links of one listing page.
- `gather_hike_urls` walks the 200 listing offsets and merges their links into a set.
- `scrape_data` turns one hike page into an eight-field record, with sentinels for missing fields.
- `main` collects one record per hike URL and skips the URLs whose scrape raises.

The network and the HTML parser are not modelled. They are inputs:

- A `Web` value gives, for each URL, the outcome of every attempt of one `safe_get` call on that URL. An outcome is
  either a response or a `RequestException`.
- A fetched page is a `Document`. It holds what each CSS query of the scraper returns. An element is given by the
  strings of its text nodes, so `.text`, `get_text(strip=True)` and `str.strip` are modelled exactly, using the
  character set of Python's `str.isspace`.
- `Document.Unparseable` stands for a page whose processing raises an exception that is not a `RequestException`.
- A Python call that may raise returns an `Outcome`: `Returned(value)` or `Raised`.

Files:

- `basics.dfy`: `Option`, `Outcome`, and `list(set)`.
- `text.dfy`: `str.strip`, `''.join`, `sep.join` and `str(int)`, plus `str.split` and `int(s)`, which the scraper does not call: they are the inverses used to prove that the summary join and the offset formatting lose nothing.
- `fetch.dfy`: `safe_get`.
- `html.dfy`: the parsed-page view.
- `listing.dfy`: `get_page_links` and `gather_hike_urls`.
- `detail.dfy`: `scrape_data`.
- `harvest.dfy`: the collection loop of `main`.

Each imperative routine is a method proved against a specification function. `safe_get`'s loop is
`Fetch.SafeGet` (spec `Fetch.Retry`). The loop of `gather_hike_urls` is `Listing.GatherPages` (spec `Listing.PagesUnion`), which `Listing.GatherHikeUrls` runs with `get_page_links` over the 200 offsets.
The loop of `main` is `Harvest.CollectRecords` (spec `Harvest.Collected`). The pure parts (`get_page_links`,
`scrape_data`) are functions built on `Fetch.Retry`.

Behaviour worth knowing:

- On a fetched page without a heading, `title` is `None` (JSON `null`). It is `"N/A"` only when the fetch failed.
- A body container with no paragraphs gives the summary `""`; `"No summary provided"` is only for a page without a body container.
- `get_page_links` returns a list, which may repeat a link. Duplicates go away only in `gather_hike_urls`.
- The `except RequestException` of `get_page_links` can never fire, because `safe_get` lets no `RequestException`
  out. A listing page whose processing raises therefore ends `gather_hike_urls`, and with it the whole run, with no
  output file. Only a hike page that raises is skipped.
- The docstring of `gather_hike_urls` (scrape_wta.py:134-136) speaks of 138 listing pages; `range(0, 6000, 30)` visits 200, and the model follows the code.
- The waits grow strictly only when the backoff is positive.

## Model

| member | source | states |
|---|---|---|
| Fetch.SafeGet | scrape_wta.py:20-39 | the request loop returns exactly what `Retry` specifies: the response, the number of requests made and the list of sleeps |
| Fetch.RetryReturnsFirstResponse | scrape_wta.py:30-39 | for `Fetch.Retry`, the `safe_get` that `get_page_links` and `scrape_data` call: at most `Fetch.MaxAttempts(retries)` requests, the length of `range(retries)` (none when `retries <= 0`); the first response is returned at once, with no request or sleep after it; None exactly when every allowed attempt failed, after exactly `retries` requests; the k-th failure is followed by a sleep of `backoff*(k+1)`, the last one included |
| Fetch.RetryFromCases | scrape_wta.py:30-37 | for `Fetch.RetryFrom`, the loop from any attempt index on: returns None exactly when all later allowed attempts fail, otherwise the response of the first attempt that does not fail; only failed attempts precede it; each is followed by its backoff sleep |
| Fetch.Schedule | scrape_wta.py:37 | the n sleeps after n failures are `backoff*1, ..., backoff*n` |
| Fetch.DefaultsWhenAllFail | scrape_wta.py:20-39 | with the defaults (3, 2) and a server that always fails: three requests, sleeps 2, 4, 6, then None |
| Fetch.ScheduleIncreasing | scrape_wta.py:37 | with a positive backoff each wait is longer than the one before |
| Fetch.ScheduleTotal | scrape_wta.py:37 | after n failures the total sleep is `backoff*n*(n+1)/2` |
| Text.TrimStart | scrape_wta.py:73 | strip's front half, over `Text.IsSpace` (the characters of `str.isspace()`): a suffix of the input; what it cut is all whitespace; it does not start with whitespace |
| Text.TrimEnd | scrape_wta.py:73 | strip's back half: a prefix of the input; what it cut is all whitespace; it does not end with whitespace |
| Text.Strip | scrape_wta.py:73 | `str.strip()`, which removes the `Text.IsSpace` characters, is no longer than its input and neither starts nor ends with whitespace |
| Text.StripSlice | scrape_wta.py:73 | the input of `str.strip()` is its result with only whitespace before and after it |
| Text.TrimStartPadded | scrape_wta.py:73 | lstrip removes exactly the whitespace in front of a text that does not start with whitespace |
| Text.TrimEndPadded | scrape_wta.py:73 | rstrip removes exactly the whitespace after a text that does not end with whitespace |
| Text.StripPadded | scrape_wta.py:73 | strip has one answer: a trimmed text padded with whitespace on both sides strips back to itself |
| Text.StripIdempotent | scrape_wta.py:73 | stripping twice is stripping once |
| Text.ConcatTrimmed | scrape_wta.py:66 | gluing stripped text nodes together with `Text.Concat` (`''.join`) gives a text with no whitespace at either end |
| Html.StrippedTextOf | scrape_wta.py:66 | `get_text(strip=True)` neither starts nor ends with whitespace |
| Text.JoinLength | scrape_wta.py:94 | `Text.Join` (`'\n\n'.join`) makes the summary as long as its paragraphs plus one separator between each two |
| Text.FindInSeparatorFree | scrape_wta.py:94 | a part without a separator of its own has none to find |
| Text.FindAfterSeparatorFree | scrape_wta.py:94 | in part + separator + rest, the first separator found is the one right after the part |
| Text.SplitJoin | scrape_wta.py:94 | splitting a join on its separator gives back the parts, when no part holds a separator of its own |
| Text.BlankLineFree | scrape_wta.py:94 | a stripped paragraph with no blank line inside cannot be confused with the blank line that follows it |
| Text.ParseDecimalOfDecimal | scrape_wta.py:121 | the decimal text that `format` puts into the listing URL reads back as the offset |
| Text.DecimalInjective | scrape_wta.py:121 | different offsets have different decimal texts |
| Text.Decimal | scrape_wta.py:121 | the offset written into the listing URL is a non-empty string of decimal digits with no leading zero |
| Listing.HikeLinkIsNoListingUrl | scrape_wta.py:18 | no hike link is a listing URL, so a hike page is never fetched from a URL the listing side also fetches |
| Listing.ListingUrlsDistinct | scrape_wta.py:18 | `Listing.ListingUrl` (`HIKE_LISTING_URL.format(offset)`) gives different offsets different listing URLs |
| Listing.FilterLinks | scrape_wta.py:125-126 | the comprehension keeps no more links than anchors, and every kept link is a non-empty href under the hike prefix |
| Listing.FilterLinksMembership | scrape_wta.py:126 | a text is kept exactly when some anchor has it as a href satisfying `Listing.IsHikeLink` (present, non-empty, under `https://www.wta.org/go-hiking/hikes/`); every other href is dropped |
| Listing.FilterLinksAppend | scrape_wta.py:126 | filtering keeps document order: the links of two runs of anchors are those of the first followed by those of the second |
| Listing.GetPageLinksCases | scrape_wta.py:120-129 | in terms of `Listing.ListingPage`, the `safe_get` of the listing URL: `[]` when the listing page cannot be fetched; raises exactly when the fetched page cannot be processed; otherwise exactly the filtered hike links of the page, so a text is returned exactly when some anchor of the page has it as a hike link |
| Listing.GetPageLinks | scrape_wta.py:120-129 | every link it returns is a hike link |
| Listing.FailedListingFetchIsEmpty | scrape_wta.py:121-123 | a listing page whose three attempts all fail gives `[]` and does not raise |
| Listing.Range | scrape_wta.py:143 | `range(start, stop, step)`, of length `Listing.RangeLength`, holds `start + step*i` for each i, all below stop, and stops at the first value that reaches stop |
| Listing.OffsetsAreEveryPage | scrape_wta.py:143 | `Listing.Offsets` is 0, 30, ..., 5970: 200 pages, ascending |
| Listing.PagesUnionRaises | scrape_wta.py:142-147 | `Listing.PagesUnion`, the merge of the listing pages, raises exactly when some listing page raises |
| Listing.PagesUnionMembership | scrape_wta.py:142-147 | the set `Listing.PagesUnion` gathers holds every link returned for any offset, and nothing else |
| Listing.GatherPages | scrape_wta.py:142-146 | the loop gathers exactly `PagesUnion` of the offsets, requests the offsets in order, and stops right after the first page that raises |
| Listing.GatherHikeUrls | scrape_wta.py:131-147 | the returned list has no duplicates and holds exactly the set `PagesUnion` gives for the 200 offsets; it raises exactly when `PagesUnion` does; the offsets are requested in ascending order, all 200 of them unless a page raises, and then the run stops at the first page that raises |
| Basics.ListOf | scrape_wta.py:147 | `list(set)` holds each element of the set exactly once |
| Detail.RecordKeysCount | scrape_wta.py:98-107 | the record's eight keys are eight different keys |
| Detail.DictHasEightKeys | scrape_wta.py:98-107 | `Detail.AsDict`, the dict of a record, has exactly the eight keys, so it is never empty |
| Detail.SelectedText | scrape_wta.py:64-66 | `get_text` gives None exactly when the element is missing, and otherwise the element's `get_text(strip=True)`, a stripped text |
| Detail.StatText | scrape_wta.py:71-89 | `Detail.StatField`: a stat field is `"N/A"` when its block is missing, and otherwise the strip of its block's `Html.TextOf` (`.text`), a trimmed text |
| Detail.ParagraphTexts | scrape_wta.py:93-94 | one stripped text per paragraph, in document order |
| Detail.FailedRecord | scrape_wta.py:52-61 | the record of a failed fetch keeps the URL, has summary `"request failed"` and `"N/A"` in the six other fields |
| Detail.SummaryText | scrape_wta.py:91-96 | `"No summary provided"` without a body container, `""` for a container without paragraphs |
| Detail.ParseDetail | scrape_wta.py:62-107 | processing a fetched page raises exactly when it cannot be processed; otherwise the record keeps the URL and each field comes from its own lookup (`Detail.FieldsOfPage`, with `Detail.StatField` for each stat): the heading's stripped text or None, each stat block's stripped text or `"N/A"`, the paragraphs joined by a blank line or `"No summary provided"` |
| Detail.FetchedPageRecord | scrape_wta.py:50-107 | `scrape_data` on a fetched page returns the record with the URL and every field from its own lookup as `Detail.FieldsOfPage` states, present value or sentinel; the title is None exactly when the heading is missing, and an empty body container gives `""` |
| Detail.ScrapeData | scrape_wta.py:50-107 | a returned record always carries the URL it was given |
| Detail.FailedFetchRecord | scrape_wta.py:50-61 | a failed fetch gives the record with the URL, summary `"request failed"` and `"N/A"` in the six other fields, without raising |
| Detail.ScrapeRaisesOnlyOnUnparseable | scrape_wta.py:50-62 | `scrape_data` raises exactly when the fetched page cannot be processed |
| Detail.FieldsAreIndependent | scrape_wta.py:68-96 | on a fetched page each field depends only on its own lookup, so each falls back to its sentinel independently |
| Detail.SummarySplitsIntoParagraphs | scrape_wta.py:91-96 | the summary splits back on blank lines into the stripped paragraph texts, when no paragraph holds a blank line |
| Harvest.Survivors | scrape_wta.py:157-164 | no more URLs are kept than were given |
| Harvest.SurvivorsAppend | scrape_wta.py:157-164 | skipping keeps the order of the URLs: the survivors of two runs of URLs are those of the first followed by those of the second |
| Harvest.SurvivorsMembership | scrape_wta.py:157-164 | a URL is kept exactly when it is in the list and its scrape does not raise |
| Harvest.SurvivorsDistinct | scrape_wta.py:155-164 | keeping URLs from a list without duplicates gives a list without duplicates |
| Harvest.NothingRaisedKeepsAll | scrape_wta.py:157-164 | when no scrape raises, every URL gets a record |
| Harvest.CollectedFollowsSurvivors | scrape_wta.py:153-164 | `Harvest.Collected`, the records of the loop, holds exactly one record per URL whose scrape does not raise, in the order of the URL list, and each record is that URL's scrape |
| Harvest.CollectRecords | scrape_wta.py:153-164 | the loop, with its `if hike:` guard, appends exactly the records that `Collected` lists |
| Harvest.RunHarvest | scrape_wta.py:149-164 | raises exactly when the gathering raises; otherwise the records are those of the gathered URLs whose scrape does not raise, one per URL, no URL twice |

## Left out

- Network I/O (`requests.get`, `raise_for_status`) is an input. Each URL has one sequence of attempt outcomes. Each URL is fetched once per run: different offsets give different listing URLs (`ListingUrlsDistinct`), no hike link is a listing URL (`HikeLinkIsNoListingUrl`), and the hike URLs are deduplicated.
- Exceptions other than `RequestException` raised by `requests.get` itself are not modelled. Only those raised while processing a page are (`Unparseable`).
- BeautifulSoup's selector semantics are not modelled. The result of each query is given in the `Document`.
- Fetch.SafeGet: `backoff` is a natural number. With a negative backoff `time.sleep` would raise `ValueError`, and that path is not modelled. Sleeps are recorded, not taken.
- The random politeness delay of `gather_hike_urls` and the fixed 0.2 s delay of `main` are left out: they are floats with no effect on the data.
- `tqdm` progress bars, `logging` calls and the `print` in `main`'s `except` are left out: they are output only.
- Exceptions that are not `Exception` (`KeyboardInterrupt`) are not modelled.
- The timestamped file name and the JSON dump at the end of `main` are left out (clock and file I/O). The JSON object is modelled by `Detail.AsDict`.
- Harvest.RunHarvest: the order of `list(set)` is Python's hash order. The model lets `ListOf` pick any order and states every property for all orders.
- bot.py is not part of this model: it is an interactive chat loop with no data transformation.
