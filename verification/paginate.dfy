/** Pagination (`scrape_all_pages` in scrape_ce.py).

    The fetcher is an oracle: `pages(n)` is what `get_good_practices` returns for
    page `n`, whose URL is `PageUrl(baseUrl, n)`. */
module Paginate {
  import opened Wrappers
  import opened Text
  import opened Practice

  /** Why the loop ended: a fetched page had no records, or the page cap was reached. */
  datatype StopReason = EmptyPage | MaxPagesReached

  /** The records gathered, the page indices fetched (in order) and why the crawl stopped. */
  datatype Crawled = Crawled(records: seq<GoodPractice>, fetched: seq<nat>, reason: StopReason)

  /** `f"{base_url}?page={page}"`. */
  function PageUrl(baseUrl: string, page: nat): string {
    baseUrl + "?page=" + NatToString(page)
  }

  /** The page index a URL built on `baseUrl` asks for, if it is such a URL. */
  function PageOf(baseUrl: string, url: string): Option<nat> {
    var prefix := baseUrl + "?page=";
    if StartsWith(url, prefix) && IsDecimal(url[|prefix|..]) then Some(ParseNat(url[|prefix|..]))
    else None
  }

  /** A page URL names its page: reading the index back gives the index it was built from. */
  lemma PageUrlRoundTrip(baseUrl: string, page: nat)
    ensures PageOf(baseUrl, PageUrl(baseUrl, page)) == Some(page)
  {
    var prefix := baseUrl + "?page=";
    var url := PageUrl(baseUrl, page);
    assert url[..|prefix|] == prefix;
    assert url[|prefix|..] == NatToString(page);
    ParseNatToString(page);
  }

  /** Distinct pages are requested under distinct URLs. */
  lemma PageUrlInjective(baseUrl: string, m: nat, n: nat)
    ensures PageUrl(baseUrl, m) == PageUrl(baseUrl, n) ==> m == n
  {
    PageUrlRoundTrip(baseUrl, m);
    PageUrlRoundTrip(baseUrl, n);
  }

  /** The indices in [from, to) outside `skip`, ascending: what the loop fetches when no page is empty. */
  function Schedule(from: nat, to: int, skip: set<int>): seq<nat>
    decreases to - from
  {
    if from >= to then []
    else (if from in skip then [] else [from]) + Schedule(from + 1, to, skip)
  }

  /** The schedule holds exactly the unskipped indices below the cap, each once, ascending. */
  lemma {:induction false} ScheduleSpec(from: nat, to: int, skip: set<int>)
    decreases to - from
    ensures var s := Schedule(from, to, skip);
      && (forall i :: 0 <= i < |s| ==> from <= s[i] < to && s[i] !in skip)
      && (forall i, j :: 0 <= i < j < |s| ==> s[i] < s[j])
      && (forall n: nat :: from <= n < to && n !in skip ==> n in s)
  {
    if from < to {
      ScheduleSpec(from + 1, to, skip);
    }
  }

  /** The records of the listed pages, page after page. */
  function Concat(pages: nat -> seq<GoodPractice>, indices: seq<nat>): seq<GoodPractice> {
    if |indices| == 0 then [] else pages(indices[0]) + Concat(pages, indices[1..])
  }

  predicate Last(s: seq<nat>, pages: nat -> seq<GoodPractice>)
  {
    |s| > 0 && pages(s[|s| - 1]) == []
  }

  /** The crawl from `page` on: skipped indices use up the cap without a fetch,
      the first empty page ends it, and so does reaching `maxPages`. */
  function Crawl(pages: nat -> seq<GoodPractice>, maxPages: int, skip: set<int>, page: nat): Crawled
    decreases maxPages - page
  {
    if page >= maxPages then Crawled([], [], MaxPagesReached)
    else if page in skip then Crawl(pages, maxPages, skip, page + 1)
    else if pages(page) == [] then Crawled([], [page], EmptyPage)
    else
      var rest := Crawl(pages, maxPages, skip, page + 1);
      Crawled(pages(page) + rest.records, [page] + rest.fetched, rest.reason)
  }

  /** A crawl fetches the scheduled pages in order, from the first one on. */
  lemma {:induction false} CrawlFollowsSchedule(pages: nat -> seq<GoodPractice>, maxPages: int, skip: set<int>, page: nat)
    decreases maxPages - page
    ensures Crawl(pages, maxPages, skip, page).fetched <= Schedule(page, maxPages, skip)
  {
    if page < maxPages {
      CrawlFollowsSchedule(pages, maxPages, skip, page + 1);
    }
  }

  /** A crawl's records are the fetched pages' records, in page then within-page order. */
  lemma {:induction false} CrawlKeepsOrder(pages: nat -> seq<GoodPractice>, maxPages: int, skip: set<int>, page: nat)
    decreases maxPages - page
    ensures var r := Crawl(pages, maxPages, skip, page);
      r.records == Concat(pages, r.fetched)
  {
    if page < maxPages {
      CrawlKeepsOrder(pages, maxPages, skip, page + 1);
      var r := Crawl(pages, maxPages, skip, page);
      if page !in skip && pages(page) != [] {
        assert r.fetched[1..] == Crawl(pages, maxPages, skip, page + 1).fetched;
      }
    }
  }

  /** A crawl stops at the first empty page: every fetched page before the last
      had records, it reports an empty page exactly when the last one had none,
      and it reports the cap only once every scheduled page was fetched. */
  lemma {:induction false} CrawlStops(pages: nat -> seq<GoodPractice>, maxPages: int, skip: set<int>, page: nat)
    decreases maxPages - page
    ensures var r := Crawl(pages, maxPages, skip, page);
      && (forall i :: 0 <= i < |r.fetched| - 1 ==> pages(r.fetched[i]) != [])
      && (r.reason == EmptyPage <==> Last(r.fetched, pages))
      && (r.reason == MaxPagesReached ==> r.fetched == Schedule(page, maxPages, skip))
  {
    if page < maxPages {
      CrawlStops(pages, maxPages, skip, page + 1);
      var rest := Crawl(pages, maxPages, skip, page + 1);
      var r := Crawl(pages, maxPages, skip, page);
      if page !in skip && pages(page) != [] {
        assert r.fetched == [page] + rest.fetched;
        forall i | 0 <= i < |r.fetched| - 1 ensures pages(r.fetched[i]) != [] {
          if i > 0 { assert r.fetched[i] == rest.fetched[i - 1]; }
        }
      }
    }
  }

  /** The whole crawl, given what was gathered before `rest` began. */
  function Resume(records: seq<GoodPractice>, fetched: seq<nat>, rest: Crawled): Crawled {
    Crawled(records + rest.records, fetched + rest.fetched, rest.reason)
  }

  /** `scrape_all_pages`: the records of every fetched page in page order, and
      the URL requested for each fetched page. */
  method ScrapeAllPages(pages: nat -> seq<GoodPractice>, baseUrl: string, maxPages: int, skip: set<int>)
    returns (records: seq<GoodPractice>, fetched: seq<nat>, urls: seq<string>, reason: StopReason)
    ensures Crawled(records, fetched, reason) == Crawl(pages, maxPages, skip, 0)
    ensures |urls| == |fetched| && forall i :: 0 <= i < |urls| ==> urls[i] == PageUrl(baseUrl, fetched[i])
  {
    records, fetched, urls, reason := [], [], [], MaxPagesReached;
    var page: nat := 0;
    while page < maxPages
      invariant Crawl(pages, maxPages, skip, 0) == Resume(records, fetched, Crawl(pages, maxPages, skip, page))
      invariant |urls| == |fetched| && forall i :: 0 <= i < |urls| ==> urls[i] == PageUrl(baseUrl, fetched[i])
      decreases maxPages - page
    {
      if page in skip {
        page := page + 1;
        continue;
      }
      var url := PageUrl(baseUrl, page);
      var pageData := pages(page);
      if pageData == [] {
        fetched, urls := fetched + [page], urls + [url];
        reason := EmptyPage;
        break;
      }
      var rest := Crawl(pages, maxPages, skip, page + 1);
      assert Crawl(pages, maxPages, skip, page) ==
        Crawled(pageData + rest.records, [page] + rest.fetched, rest.reason);
      assert (records + pageData) + rest.records == records + (pageData + rest.records);
      assert (fetched + [page]) + rest.fetched == fetched + ([page] + rest.fetched);
      records, fetched, urls := records + pageData, fetched + [page], urls + [url];
      page := page + 1;
    }
  }

  /** Fetched indices are strictly increasing, below the cap and never skipped. */
  lemma FetchedIndices(pages: nat -> seq<GoodPractice>, maxPages: int, skip: set<int>)
    ensures var f := Crawl(pages, maxPages, skip, 0).fetched;
      && (forall i :: 0 <= i < |f| ==> f[i] < maxPages && f[i] !in skip)
      && (forall i, j :: 0 <= i < j < |f| ==> f[i] < f[j])
  {
    var f := Crawl(pages, maxPages, skip, 0).fetched;
    var s := Schedule(0, maxPages, skip);
    CrawlFollowsSchedule(pages, maxPages, skip, 0);
    ScheduleSpec(0, maxPages, skip);
    assert forall i :: 0 <= i < |f| ==> f[i] == s[i];
  }

  /** A cap of zero or less fetches nothing. */
  lemma NoPagesUnderZeroCap(pages: nat -> seq<GoodPractice>, maxPages: int, skip: set<int>)
    requires maxPages <= 0
    ensures Crawl(pages, maxPages, skip, 0) == Crawled([], [], MaxPagesReached)
  {
  }

  /** When page `k` is the first unskipped empty page below the cap, the crawl
      fetches the unskipped pages up to and including `k`, keeps the records of
      those before `k`, and reports the empty page. */
  lemma {:induction false} StopsAtFirstEmptyPage(pages: nat -> seq<GoodPractice>, maxPages: int, skip: set<int>, k: nat, page: nat)
    requires page <= k < maxPages && k !in skip && pages(k) == []
    requires forall n: nat :: page <= n < k && n !in skip ==> pages(n) != []
    decreases k - page
    ensures Crawl(pages, maxPages, skip, page) ==
      Crawled(Concat(pages, Schedule(page, k, skip)), Schedule(page, k + 1, skip), EmptyPage)
  {
    if page < k {
      StopsAtFirstEmptyPage(pages, maxPages, skip, k, page + 1);
      if page !in skip {
        var tail := Schedule(page + 1, k, skip);
        var rest := Crawl(pages, maxPages, skip, page + 1);
        assert Schedule(page, k, skip) == [page] + tail;
        assert Schedule(page, k + 1, skip) == [page] + Schedule(page + 1, k + 1, skip);
        assert ([page] + tail)[1..] == tail;
        assert Concat(pages, [page] + tail) == pages(page) + Concat(pages, tail);
        assert Crawl(pages, maxPages, skip, page) ==
          Crawled(pages(page) + rest.records, [page] + rest.fetched, rest.reason);
      } else {
        assert Schedule(page, k, skip) == Schedule(page + 1, k, skip);
        assert Schedule(page, k + 1, skip) == Schedule(page + 1, k + 1, skip);
      }
    } else {
      assert Schedule(k, k + 1, skip) == [k] + Schedule(k + 1, k + 1, skip);
    }
  }

  /** When no unskipped page below the cap is empty, the crawl fetches every
      unskipped page below the cap and stops for the cap. */
  lemma {:induction false} StopsAtCap(pages: nat -> seq<GoodPractice>, maxPages: int, skip: set<int>, page: nat)
    requires forall n: nat :: page <= n < maxPages && n !in skip ==> pages(n) != []
    decreases maxPages - page
    ensures Crawl(pages, maxPages, skip, page) ==
      Crawled(Concat(pages, Schedule(page, maxPages, skip)), Schedule(page, maxPages, skip), MaxPagesReached)
  {
    if page < maxPages {
      StopsAtCap(pages, maxPages, skip, page + 1);
      if page !in skip {
        var tail := Schedule(page + 1, maxPages, skip);
        var rest := Crawl(pages, maxPages, skip, page + 1);
        assert Schedule(page, maxPages, skip) == [page] + tail;
        assert ([page] + tail)[1..] == tail;
        assert Concat(pages, [page] + tail) == pages(page) + Concat(pages, tail);
        assert Crawl(pages, maxPages, skip, page) ==
          Crawled(pages(page) + rest.records, [page] + rest.fetched, rest.reason);
      } else {
        assert Schedule(page, maxPages, skip) == Schedule(page + 1, maxPages, skip);
      }
    }
  }

  /** Five full pages under a cap of five are all fetched; skipping page 2 fetches 0, 1, 3, 4. */
  lemma CapAndSkipExamples(pages: nat -> seq<GoodPractice>)
    requires forall n: nat :: pages(n) != []
    ensures Crawl(pages, 5, {}, 0).fetched == [0, 1, 2, 3, 4]
    ensures Crawl(pages, 5, {}, 0).reason == MaxPagesReached
    ensures Crawl(pages, 5, {2}, 0).fetched == [0, 1, 3, 4]
  {
    StopsAtCap(pages, 5, {}, 0);
    StopsAtCap(pages, 5, {2}, 0);
    assert Schedule(0, 5, {}) == [0, 1, 2, 3, 4];
    assert Schedule(0, 5, {2}) == [0, 1, 3, 4];
  }
}
