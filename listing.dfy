/** The listing side of the scraper: get_page_links and gather_hike_urls. */
module Listing {
  import opened Basics
  import opened Text
  import opened Html
  import Fetch

  /** HIKE_LISTING_URL without its `{}`. */
  const LISTING_URL_PREFIX := "https://www.wta.org/go-outside/hikes/?b_start:int="
  /** The prefix every kept hike link starts with. */
  const HIKE_URL_PREFIX := "https://www.wta.org/go-hiking/hikes/"
  /** range(0, OFFSET_STOP, PAGE_SIZE) gives the listing offsets. */
  const PAGE_SIZE: nat := 30
  const OFFSET_STOP: nat := 6000

  /** HIKE_LISTING_URL.format(offset). */
  function ListingUrl(offset: nat): string {
    LISTING_URL_PREFIX + Decimal(offset)
  }

  /** Different offsets are fetched from different URLs. */
  lemma ListingUrlsDistinct(a: nat, b: nat)
    requires a != b
    ensures ListingUrl(a) != ListingUrl(b)
  {
    DecimalInjective(a, b);
    assert ListingUrl(a)[|LISTING_URL_PREFIX|..] == Decimal(a);
    assert ListingUrl(b)[|LISTING_URL_PREFIX|..] == Decimal(b);
  }

  /** A hike link is never a listing URL: the two prefixes part at "go-hiking" against "go-outside". */
  lemma HikeLinkIsNoListingUrl(offset: nat, link: string)
    requires IsHikeLink(Some(link))
    ensures link != ListingUrl(offset)
  {
    assert link[23] == HIKE_URL_PREFIX[23] == 'h';
    assert ListingUrl(offset)[23] == LISTING_URL_PREFIX[23] == 'o';
  }

  /** A href the scraper keeps: present, non-empty and under the hike-page prefix. */
  predicate IsHikeLink(href: Option<string>) {
    href.Some? && href.value != [] && HIKE_URL_PREFIX <= href.value
  }

  /** The comprehension of get_page_links: the hrefs of the anchors that are hike links, in document order. */
  function FilterLinks(anchors: seq<Anchor>): (links: seq<string>)
    ensures |links| <= |anchors|
    ensures forall i :: 0 <= i < |links| ==> IsHikeLink(Some(links[i]))
  {
    if anchors == [] then []
    else
      var href := anchors[0].href;
      (if IsHikeLink(href) then [href.value] else [])
      + FilterLinks(anchors[1..])
  }

  /** The links kept are exactly the hike-link hrefs of the anchors, in both directions. */
  lemma {:induction false} FilterLinksMembership(anchors: seq<Anchor>, link: string)
    ensures link in FilterLinks(anchors) <==>
      exists i :: 0 <= i < |anchors| && anchors[i].href == Some(link) && IsHikeLink(anchors[i].href)
  {
    if anchors != [] {
      FilterLinksMembership(anchors[1..], link);
      if link in FilterLinks(anchors[1..]) {
        var i :| 0 <= i < |anchors[1..]| && anchors[1..][i].href == Some(link) && IsHikeLink(anchors[1..][i].href);
        assert anchors[i + 1] == anchors[1..][i];
      }
      if exists i :: 0 <= i < |anchors| && anchors[i].href == Some(link) && IsHikeLink(anchors[i].href) {
        var i :| 0 <= i < |anchors| && anchors[i].href == Some(link) && IsHikeLink(anchors[i].href);
        if i > 0 {
          assert anchors[1..][i - 1] == anchors[i];
        }
      }
    }
  }

  /** Filtering keeps the order: the links of two runs of anchors are the links of the first, then of the second. */
  lemma {:induction false} FilterLinksAppend(a: seq<Anchor>, b: seq<Anchor>)
    ensures FilterLinks(a + b) == FilterLinks(a) + FilterLinks(b)
  {
    if a != [] {
      assert (a + b)[1..] == a[1..] + b;
      FilterLinksAppend(a[1..], b);
    } else {
      assert a + b == b;
    }
  }

  /** safe_get(HIKE_LISTING_URL.format(offset)) with the default arguments. */
  function ListingPage(offset: nat, web: Web): Option<Document> {
    Fetch.Retry(web(ListingUrl(offset)), Fetch.DEFAULT_RETRIES, Fetch.DEFAULT_BACKOFF).result
  }

  /**
   * get_page_links(offset). A listing page that cannot be fetched gives no
   * links. The `except RequestException` never fires (safe_get lets no
   * RequestException out), so a page whose processing raises makes the call raise.
   */
  function GetPageLinks(offset: nat, web: Web): (r: Outcome<seq<string>>)
    ensures r.Returned? ==> forall i :: 0 <= i < |r.value| ==> IsHikeLink(Some(r.value[i]))
  {
    match ListingPage(offset, web)
    case None => Returned([])
    case Some(page) => if page.Unparseable? then Raised else Returned(FilterLinks(page.anchors))
  }

  /**
   * What get_page_links gives: [] when the listing page cannot be fetched; an
   * exception exactly when the fetched page cannot be processed; otherwise
   * exactly the hike links of the page's anchors, in document order.
   */
  lemma GetPageLinksCases(offset: nat, web: Web, link: string)
    ensures ListingPage(offset, web).None? ==> GetPageLinks(offset, web) == Returned([])
    ensures GetPageLinks(offset, web).Raised? <==> ListingPage(offset, web) == Some(Unparseable)
    ensures ListingPage(offset, web).Some? && ListingPage(offset, web).value.Parsed? ==>
      GetPageLinks(offset, web) == Returned(FilterLinks(ListingPage(offset, web).value.anchors))
    ensures GetPageLinks(offset, web).Returned? ==>
      (link in GetPageLinks(offset, web).value <==>
        && ListingPage(offset, web).Some?
        && exists i :: 0 <= i < |ListingPage(offset, web).value.anchors| &&
             ListingPage(offset, web).value.anchors[i].href == Some(link) && IsHikeLink(ListingPage(offset, web).value.anchors[i].href))
  {
    if ListingPage(offset, web).Some? && ListingPage(offset, web).value.Parsed? {
      FilterLinksMembership(ListingPage(offset, web).value.anchors, link);
    }
  }

  /** A listing page whose every fetch attempt fails contributes no links and does not raise. */
  lemma FailedListingFetchIsEmpty(offset: nat, web: Web)
    requires forall j :: 0 <= j < Fetch.DEFAULT_RETRIES ==> web(ListingUrl(offset))(j).RequestFailed?
    ensures GetPageLinks(offset, web) == Returned([])
  {
    Fetch.RetryReturnsFirstResponse(web(ListingUrl(offset)), Fetch.DEFAULT_RETRIES, Fetch.DEFAULT_BACKOFF);
  }

  /** len(range(start, stop, step)) for a positive step. */
  function RangeLength(start: nat, stop: nat, step: nat): nat
    requires step > 0
  {
    if start >= stop then 0 else (stop - start + step - 1) / step
  }

  /** range(start, stop, step) has RangeLength(start, stop, step) values: all below stop, and the next one would not be. */
  lemma RangeLengthBounds(start: nat, stop: nat, step: nat)
    requires step > 0
    ensures start + step * RangeLength(start, stop, step) >= stop
    ensures forall i :: 0 <= i < RangeLength(start, stop, step) ==> start + step * i < stop
  {
    var n := RangeLength(start, stop, step);
    if start < stop {
      var d := stop - start + step - 1;
      assert d == step * n + d % step;
      forall i | 0 <= i < n
        ensures start + step * i < stop
      {
        assert step * (n - 1) == step * i + step * (n - 1 - i);
      }
    }
  }

  /** range(start, stop, step) for a positive step: every value start + step * i below stop, ascending, none skipped. */
  function Range(start: nat, stop: nat, step: nat): (r: seq<nat>)
    requires step > 0
    ensures forall i :: 0 <= i < |r| ==> r[i] == start + step * i && r[i] < stop
    ensures start + step * |r| >= stop
  {
    var n := RangeLength(start, stop, step);
    RangeLengthBounds(start, stop, step);
    seq(n, i requires 0 <= i < n => start + step * i)
  }

  /** The offsets gather_hike_urls visits, in order. */
  function Offsets(): seq<nat> {
    Range(0, OFFSET_STOP, PAGE_SIZE)
  }

  /** 200 listing pages: 0, 30, ..., 5970, ascending. */
  lemma OffsetsAreEveryPage()
    ensures |Offsets()| == 200
    ensures forall i :: 0 <= i < 200 ==> Offsets()[i] == 30 * i
    ensures Offsets()[0] == 0 && Offsets()[199] == 5970
    ensures forall i, j :: 0 <= i < j < 200 ==> Offsets()[i] < Offsets()[j]
  {
  }

  /** What get_page_links gives for each offset: its links, or the exception it raises. */
  type PageLinks = nat -> Outcome<seq<string>>

  /** get_page_links against one state of the web. */
  function LinksOf(web: Web): PageLinks {
    (offset: nat) => GetPageLinks(offset, web)
  }

  /** The links of the given listing pages, merged into one set; raises as soon as one page raises. */
  function PagesUnion(pages: PageLinks, offsets: seq<nat>): Outcome<set<string>>
    decreases |offsets|
  {
    if offsets == [] then Returned({})
    else match PagesUnion(pages, offsets[..|offsets| - 1])
      case Raised => Raised
      case Returned(earlier) =>
        match pages(offsets[|offsets| - 1])
        case Raised => Raised
        case Returned(links) => Returned(earlier + Elements(links))
  }

  /** The gathering raises exactly when some page raises. */
  lemma {:induction false} PagesUnionRaises(pages: PageLinks, offsets: seq<nat>)
    ensures PagesUnion(pages, offsets).Raised? <==> exists i :: 0 <= i < |offsets| && pages(offsets[i]).Raised?
    decreases |offsets|
  {
    if offsets != [] {
      var n := |offsets| - 1;
      PagesUnionRaises(pages, offsets[..n]);
      assert forall i :: 0 <= i < n ==> offsets[..n][i] == offsets[i];
    }
  }

  /** The gathered set holds every link any page returned, and nothing else. */
  lemma {:induction false} PagesUnionMembership(pages: PageLinks, offsets: seq<nat>, link: string)
    requires PagesUnion(pages, offsets).Returned?
    ensures link in PagesUnion(pages, offsets).value <==>
      exists i :: 0 <= i < |offsets| && pages(offsets[i]).Returned? && link in pages(offsets[i]).value
    decreases |offsets|
  {
    if offsets != [] {
      var n := |offsets| - 1;
      var init := offsets[..n];
      PagesUnionMembership(pages, init, link);
      assert forall i :: 0 <= i < n ==> init[i] == offsets[i];
      if link in pages(offsets[n]).value {
        assert pages(offsets[n]).Returned?;
      }
    }
  }

  /**
   * The loop of gather_hike_urls over the given offsets: fetch each listing
   * page in order and merge its links into a set. `visited` records the
   * offsets requested, in order; when a page raises, the exception ends the
   * loop there.
   */
  method GatherPages(pages: PageLinks, offsets: seq<nat>) returns (links: Outcome<set<string>>, visited: seq<nat>)
    ensures links == PagesUnion(pages, offsets)
    ensures visited <= offsets
    ensures links.Returned? ==> visited == offsets
    ensures links.Raised? ==> visited != [] && pages(visited[|visited| - 1]).Raised?
    ensures forall i :: 0 <= i < |visited| - 1 ==> pages(visited[i]).Returned?
  {
    var hikePageLinks: set<string> := {};
    visited := [];
    var i := 0;
    while i < |offsets|
      invariant 0 <= i <= |offsets|
      invariant visited == offsets[..i]
      invariant PagesUnion(pages, offsets[..i]) == Returned(hikePageLinks)
      invariant forall j :: 0 <= j < i ==> pages(offsets[j]).Returned?
    {
      var start := offsets[i];
      visited := visited + [start];
      assert offsets[..i + 1][..i] == offsets[..i];
      var pageLinks := pages(start);
      if pageLinks.Raised? {
        links := Raised;
        PagesUnionRaises(pages, offsets);
        return;
      }
      hikePageLinks := hikePageLinks + Elements(pageLinks.value);
      i := i + 1;
    }
    assert offsets[..i] == offsets;
    links := Returned(hikePageLinks);
  }

  /**
   * gather_hike_urls(): the loop over offsets 0, 30, ..., 5970 calling
   * get_page_links, then the merged set as a list.
   */
  method GatherHikeUrls(web: Web) returns (urls: Outcome<seq<string>>, visited: seq<nat>)
    ensures urls.Raised? <==> PagesUnion(LinksOf(web), Offsets()).Raised?
    ensures urls.Returned? ==> PagesUnion(LinksOf(web), Offsets()) == Returned(Elements(urls.value)) && NoDuplicates(urls.value)
    ensures visited <= Offsets()
    ensures urls.Returned? ==> visited == Offsets()
    ensures urls.Raised? ==> visited != [] && GetPageLinks(visited[|visited| - 1], web).Raised?
    ensures forall i :: 0 <= i < |visited| - 1 ==> GetPageLinks(visited[i], web).Returned?
  {
    var links;
    links, visited := GatherPages(LinksOf(web), Offsets());
    match links {
      case Raised =>
        urls := Raised;
      case Returned(hikePageLinks) =>
        var list := ListOf(hikePageLinks);
        urls := Returned(list);
    }
  }
}
