/** The collection loop of main: one record per gathered hike URL, skipping the URLs whose scrape raises. */
module Harvest {
  import opened Basics
  import opened Html
  import opened Detail
  import Listing

  /** The URLs whose scrape returns a record, in their original order. */
  function Survivors(urls: seq<string>, web: Web): (kept: seq<string>)
    ensures |kept| <= |urls|
    decreases |urls|
  {
    if urls == [] then []
    else
      var earlier := Survivors(urls[..|urls| - 1], web);
      var url := urls[|urls| - 1];
      if ScrapeData(url, web).Returned? then earlier + [url] else earlier
  }

  /** The records the loop collects: one per URL whose scrape does not raise, in the order of the URLs. */
  function Collected(urls: seq<string>, web: Web): seq<HikeRecord>
    decreases |urls|
  {
    if urls == [] then []
    else
      var earlier := Collected(urls[..|urls| - 1], web);
      match ScrapeData(urls[|urls| - 1], web)
      case Raised => earlier
      case Returned(hike) => earlier + [hike]
  }

  /** The URL field of each record, in order. */
  function UrlsOf(records: seq<HikeRecord>): (urls: seq<string>)
    ensures |urls| == |records|
    ensures forall i :: 0 <= i < |records| ==> urls[i] == records[i].url
  {
    seq(|records|, i requires 0 <= i < |records| => records[i].url)
  }

  /** A URL survives exactly when it is in the list and its scrape does not raise. */
  lemma {:induction false} SurvivorsMembership(urls: seq<string>, web: Web, url: string)
    ensures url in Survivors(urls, web) <==> url in urls && ScrapeData(url, web).Returned?
    decreases |urls|
  {
    if urls != [] {
      var n := |urls| - 1;
      SurvivorsMembership(urls[..n], web, url);
      assert urls == urls[..n] + [urls[n]];
    }
  }

  /** Keeping some URLs of a list without duplicates gives a list without duplicates. */
  lemma {:induction false} SurvivorsDistinct(urls: seq<string>, web: Web)
    requires NoDuplicates(urls)
    ensures NoDuplicates(Survivors(urls, web))
    decreases |urls|
  {
    if urls != [] {
      var n := |urls| - 1;
      assert NoDuplicates(urls[..n]);
      SurvivorsDistinct(urls[..n], web);
      SurvivorsMembership(urls[..n], web, urls[n]);
    }
  }

  /** Skipping keeps the order: the survivors of two runs of URLs are those of the first, then those of the second. */
  lemma {:induction false} SurvivorsAppend(a: seq<string>, b: seq<string>, web: Web)
    ensures Survivors(a + b, web) == Survivors(a, web) + Survivors(b, web)
    decreases |b|
  {
    if b == [] {
      assert a + b == a;
    } else {
      var n := |b| - 1;
      assert (a + b)[..|a + b| - 1] == a + b[..n];
      assert (a + b)[|a + b| - 1] == b[n];
      SurvivorsAppend(a, b[..n], web);
    }
  }

  /** When no scrape raises, every URL survives. */
  lemma {:induction false} NothingRaisedKeepsAll(urls: seq<string>, web: Web)
    requires forall i :: 0 <= i < |urls| ==> ScrapeData(urls[i], web).Returned?
    ensures Survivors(urls, web) == urls
    decreases |urls|
  {
    if urls != [] {
      var n := |urls| - 1;
      var init := urls[..n];
      assert forall i :: 0 <= i < n ==> init[i] == urls[i];
      NothingRaisedKeepsAll(init, web);
      assert ScrapeData(urls[n], web).Returned?;
      assert urls == init + [urls[n]];
    }
  }

  /** The collected records follow the surviving URLs one for one: the i-th record is the scrape of the i-th survivor. */
  lemma {:induction false} CollectedFollowsSurvivors(urls: seq<string>, web: Web)
    ensures |Collected(urls, web)| == |Survivors(urls, web)|
    ensures forall i :: 0 <= i < |Survivors(urls, web)| ==>
      ScrapeData(Survivors(urls, web)[i], web) == Returned(Collected(urls, web)[i])
    ensures UrlsOf(Collected(urls, web)) == Survivors(urls, web)
    decreases |urls|
  {
    if urls != [] {
      CollectedFollowsSurvivors(urls[..|urls| - 1], web);
    }
  }

  /** The accumulation loop of main, over the URLs in the order gather_hike_urls listed them. */
  method CollectRecords(urls: seq<string>, web: Web) returns (hikeData: seq<HikeRecord>)
    ensures hikeData == Collected(urls, web)
  {
    hikeData := [];
    var i := 0;
    while i < |urls|
      invariant 0 <= i <= |urls|
      invariant hikeData == Collected(urls[..i], web)
    {
      var url := urls[i];
      assert urls[..i + 1][..i] == urls[..i];
      match ScrapeData(url, web) {
        case Raised =>
        case Returned(hike) =>
          DictHasEightKeys(hike);
          if AsDict(hike) != map[] {
            hikeData := hikeData + [hike];
          }
      }
      i := i + 1;
    }
    assert urls[..i] == urls;
  }

  /**
   * main without the output file: gather the hike URLs, then collect their
   * records. Returns the records and the URL list they were collected from;
   * raises when the gathering raises.
   */
  method RunHarvest(web: Web) returns (hikeData: Outcome<seq<HikeRecord>>, hikeUrls: seq<string>)
    ensures hikeData.Raised? <==> Listing.PagesUnion(Listing.LinksOf(web), Listing.Offsets()).Raised?
    ensures hikeData.Returned? ==>
      && Listing.PagesUnion(Listing.LinksOf(web), Listing.Offsets()) == Returned(Elements(hikeUrls))
      && hikeData.value == Collected(hikeUrls, web)
      && UrlsOf(hikeData.value) == Survivors(hikeUrls, web)
      && NoDuplicates(UrlsOf(hikeData.value))
      && (forall url :: url in UrlsOf(hikeData.value) <==> url in hikeUrls && ScrapeData(url, web).Returned?)
  {
    var gathered, _ := Listing.GatherHikeUrls(web);
    match gathered {
      case Raised =>
        hikeData, hikeUrls := Raised, [];
      case Returned(urls) =>
        hikeUrls := urls;
        var records := CollectRecords(urls, web);
        CollectedFollowsSurvivors(urls, web);
        SurvivorsDistinct(urls, web);
        forall url
          ensures url in UrlsOf(records) <==> url in urls && ScrapeData(url, web).Returned?
        {
          SurvivorsMembership(urls, web, url);
        }
        hikeData := Returned(records);
    }
  }
}
