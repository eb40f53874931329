/**
 The pagination loop of `scrapeCompany` in `popup.js` and the result it
 hands to the exporter.

 The browser tab is abstracted away: the site is given as the outcome of
 loading each page number in turn (`pages[n - 1]` for page `n`; a page past
 the end of the list holds no questions). Navigation, the load wait and the
 injected routine either fail with a message, which aborts the scrape, or
 produce the page the routine reads.
 */
module Scraper {
  import opened Options
  import opened Rows
  import opened Extractor

  /** The last page number the loop will visit. */
  const MaxPages: int := 200

  /** The number of consecutive empty pages that ends the loop. */
  const EmptyPageLimit: int := 1

  /** The message thrown when there is no usable tab. */
  const NoActiveTab: string := "No active tab available."

  /** The outcome of asking for one results page. */
  datatype PageLoad =
    | LoadFailed(message: string)  // navigation, load wait or injection threw
    | NoResult                     // the injection reported no result value
    | Loaded(page: Page)           // the routine ran on this page

  /** The tab `getActiveTab` resolved to; only its id matters here. */
  datatype Tab = Tab(id: Option<int>)

  /** Where the loop ended, and what it produced: the accumulated rows, or
      the message of the error that ended it. */
  datatype Crawl = Crawl(lastPage: int, outcome: Result<seq<Row>>)

  /** What one iteration learns from a page: the error that aborts the
      loop, or the page's rows. */
  datatype PageOutcome = Failed(message: string) | Fetched(rows: seq<Row>)

  /** One iteration's view of a page load: `result.rows || []`, so a
      missing result counts as no rows. */
  function Visit(load: PageLoad): (outcome: PageOutcome)
    ensures outcome.Failed? <==> load.LoadFailed?
    ensures load.LoadFailed? ==> outcome.message == load.message
    ensures outcome.Fetched? ==> outcome.rows == Dedup(RawPageRows(load))
    ensures outcome.Fetched? ==> KeysUnique(outcome.rows)
  {
    match load
    case LoadFailed(message) => Failed(message)
    case NoResult => Fetched([])
    case Loaded(page) => Fetched(ExtractPage(page).rows)
  }

  /** The rows of a loaded page before the per-page dedup. */
  function RawPageRows(load: PageLoad): seq<Row> {
    match load
    case Loaded(page) => CardRows(QuestionLinks(page.anchors))
    case _ => []
  }

  /** The outcome of page `n`; past the end of the list a page has no
      rows. */
  function OutcomeAt(site: seq<PageOutcome>, n: int): PageOutcome {
    if 1 <= n <= |site| then site[n - 1] else Fetched([])
  }

  /** The rows page `n` contributes (none when it failed). */
  function RowsAt(site: seq<PageOutcome>, n: int): seq<Row> {
    match OutcomeAt(site, n)
    case Fetched(rows) => rows
    case Failed(_) => []
  }

  /** Page `n` was fetched and yielded at least one row. */
  predicate Productive(site: seq<PageOutcome>, n: int) {
    |RowsAt(site, n)| > 0
  }

  /** The rows of pages `lo` up to but excluding `hi`, in page order. */
  function Gathered(site: seq<PageOutcome>, lo: int, hi: int): seq<Row>
    decreases hi - lo
  {
    if hi <= lo then [] else RowsAt(site, lo) + Gathered(site, lo + 1, hi)
  }

  /** The raw rows of page `n`; none past the end of the list. */
  function RawAt(pages: seq<PageLoad>, n: int): seq<Row> {
    if 1 <= n <= |pages| then RawPageRows(pages[n - 1]) else []
  }

  /** The raw rows of the loads of pages `lo` up to but excluding `hi`. */
  function RawGathered(pages: seq<PageLoad>, lo: int, hi: int): seq<Row>
    decreases hi - lo
  {
    if hi <= lo then [] else RawAt(pages, lo) + RawGathered(pages, lo + 1, hi)
  }

  /** The site as the loop sees it. */
  function Site(pages: seq<PageLoad>): seq<PageOutcome> {
    seq(|pages|, i requires 0 <= i < |pages| => Visit(pages[i]))
  }

  /** The loop from page `pageNo` on, with `emptyPages` consecutive empty
      pages behind it and `allRows` gathered so far. An error on a page ends
      the loop with that error; otherwise an empty page raises the empty
      count, and reaching the limit ends the loop; a non-empty page resets
      the count and adds its rows; page `MaxPages` is the last one. What it
      computes is stated by `PaginateSpec`. */
  function Paginate(site: seq<PageOutcome>, pageNo: int, emptyPages: int, allRows: seq<Row>): (crawl: Crawl)
    requires 1 <= pageNo <= MaxPages
    requires 0 <= emptyPages < EmptyPageLimit
    ensures pageNo <= crawl.lastPage <= MaxPages
    decreases MaxPages - pageNo
  {
    match OutcomeAt(site, pageNo)
    case Failed(message) => Crawl(pageNo, Err(message))
    case Fetched(pageRows) =>
      var empty := if |pageRows| == 0 then emptyPages + 1 else 0;
      var rows := if |pageRows| == 0 then allRows else allRows + pageRows;
      if |pageRows| == 0 && empty >= EmptyPageLimit then
        Crawl(pageNo, Ok(rows))
      else if pageNo >= MaxPages then
        Crawl(pageNo, Ok(rows))
      else
        Paginate(site, pageNo + 1, empty, rows)
  }

  /** The loop ends at the first page from `pageNo` on that failed or was
      empty, or at page `MaxPages`; every page before that was productive;
      it fails exactly when the last page failed, with that page's message;
      and otherwise the rows are those of the pages visited, in page
      order. */
  lemma {:induction false} PaginateSpec(site: seq<PageOutcome>, pageNo: int, emptyPages: int, allRows: seq<Row>)
    requires 1 <= pageNo <= MaxPages
    requires 0 <= emptyPages < EmptyPageLimit
    ensures var crawl := Paginate(site, pageNo, emptyPages, allRows);
      && (forall n :: pageNo <= n < crawl.lastPage ==> Productive(site, n))
      && (crawl.lastPage == MaxPages || !Productive(site, crawl.lastPage))
      && (crawl.outcome.Err? <==> OutcomeAt(site, crawl.lastPage).Failed?)
      && (crawl.outcome.Err? ==> crawl.outcome.message == OutcomeAt(site, crawl.lastPage).message)
      && (crawl.outcome.Ok? ==> crawl.outcome.value == allRows + Gathered(site, pageNo, crawl.lastPage + 1))
    decreases MaxPages - pageNo
  {
    var crawl := Paginate(site, pageNo, emptyPages, allRows);
    if OutcomeAt(site, pageNo).Fetched? {
      var pageRows := OutcomeAt(site, pageNo).rows;
      assert RowsAt(site, pageNo) == pageRows;
      GatheredCons(site, pageNo, pageNo + 1);
      if |pageRows| == 0 {
        assert crawl == Crawl(pageNo, Ok(allRows));
        assert allRows + Gathered(site, pageNo, pageNo + 1) == allRows;
      } else if pageNo >= MaxPages {
        assert crawl == Crawl(pageNo, Ok(allRows + pageRows));
      } else {
        assert crawl == Paginate(site, pageNo + 1, 0, allRows + pageRows);
        PaginateSpec(site, pageNo + 1, 0, allRows + pageRows);
        GatheredCons(site, pageNo, crawl.lastPage + 1);
        assert (allRows + pageRows) + Gathered(site, pageNo + 1, crawl.lastPage + 1)
            == allRows + (pageRows + Gathered(site, pageNo + 1, crawl.lastPage + 1));
      }
    }
  }

  lemma GatheredCons(site: seq<PageOutcome>, lo: int, hi: int)
    requires lo < hi
    ensures Gathered(site, lo, hi) == RowsAt(site, lo) + Gathered(site, lo + 1, hi)
  {
  }

  /** The `while (true)` loop as written, with its three variables. */
  method PaginateLoop(site: seq<PageOutcome>) returns (lastPage: int, outcome: Result<seq<Row>>)
    ensures Crawl(lastPage, outcome) == Paginate(site, 1, 0, [])
  {
    var allRows: seq<Row> := [];
    var pageNo := 1;
    var emptyPages := 0;
    while true
      invariant 1 <= pageNo <= MaxPages
      invariant 0 <= emptyPages < EmptyPageLimit
      invariant Paginate(site, pageNo, emptyPages, allRows) == Paginate(site, 1, 0, [])
      decreases MaxPages - pageNo
    {
      var result := OutcomeAt(site, pageNo);
      if result.Failed? {
        return pageNo, Err(result.message);
      }
      var pageRows := result.rows;
      if |pageRows| == 0 {
        emptyPages := emptyPages + 1;
        if emptyPages >= EmptyPageLimit {
          break;
        }
      } else {
        emptyPages := 0;
        allRows := allRows + pageRows;
      }
      if pageNo >= MaxPages {
        break;
      }
      pageNo := pageNo + 1;
    }
    return pageNo, Ok(allRows);
  }

  /** `!activeTab?.id`: there is no tab, or it has no id, or the id is 0. */
  function NoUsableTab(activeTab: Option<Tab>): (refused: bool)
    ensures !refused <==> exists id :: id != 0 && activeTab == Some(Tab(Some(id)))
  {
    if activeTab.None? || activeTab.value.id.None? || activeTab.value.id.value == 0 then
      true
    else
      assert activeTab == Some(Tab(Some(activeTab.value.id.value)));
      false
  }

  /** `scrapeCompany`: refuse without a usable tab; otherwise run the loop
      from page 1, propagate its error, or deduplicate the gathered rows
      across pages and number them from 1. */
  function ScrapeCompany(activeTab: Option<Tab>, pages: seq<PageLoad>): (result: Result<seq<NumberedRow>>)
    ensures NoUsableTab(activeTab) ==> result == Err(NoActiveTab)
    ensures result.Ok? ==> KeysUnique(Unnumber(result.value))
    ensures result.Ok? ==> forall i :: 0 <= i < |result.value| ==> result.value[i].slNo == i + 1
  {
    if NoUsableTab(activeTab) then Err(NoActiveTab)
    else
      var crawl := Paginate(Site(pages), 1, 0, []);
      match crawl.outcome
      case Err(message) => Err(message)
      case Ok(allRows) =>
        var numbered := Number(Dedup(allRows));
        NumberingRoundTrip(Dedup(allRows), 1);
        Ok(numbered)
  }

  // ---------------------------------------------------------------------
  // Lemmas.

  /** A page's rows as the loop sees them are its raw rows deduplicated. */
  lemma RowsAtSite(pages: seq<PageLoad>, n: int)
    ensures RowsAt(Site(pages), n) == Dedup(RawAt(pages, n))
  {
    SiteAt(pages);
  }

  /** The site has one outcome per load: the visit of that load. */
  lemma SiteAt(pages: seq<PageLoad>)
    ensures |Site(pages)| == |pages|
    ensures forall i :: 0 <= i < |pages| ==> Site(pages)[i] == Visit(pages[i])
  {
  }

  /** The per-page dedup never changes what the cross-page dedup keeps:
      deduplicating the gathered pages gives what deduplicating the raw rows
      of the same pages gives. */
  lemma {:induction false} GatheredDedup(site: seq<PageOutcome>, pages: seq<PageLoad>, lo: int, hi: int, seen: set<string>)
    requires forall n :: lo <= n < hi ==> RowsAt(site, n) == Dedup(RawAt(pages, n))
    ensures DedupFrom(Gathered(site, lo, hi), seen) == DedupFrom(RawGathered(pages, lo, hi), seen)
    decreases hi - lo
  {
    if lo < hi {
      var raw := RawAt(pages, lo);
      var g := Gathered(site, lo + 1, hi);
      var r := RawGathered(pages, lo + 1, hi);
      assert Gathered(site, lo, hi) == Dedup(raw) + g;
      assert RawGathered(pages, lo, hi) == raw + r;
      PageDedupRedundant(raw, g, seen);
      DedupAppend(raw, g, seen);
      GatheredDedup(site, pages, lo + 1, hi, seen + KeySet(raw));
      DedupAppend(raw, r, seen);
    }
  }

  /** With a usable tab the scrape fails exactly when the loop stopped at a
      page whose load failed, and with that load's message. */
  lemma ScrapeCompanyFails(activeTab: Option<Tab>, pages: seq<PageLoad>)
    requires !NoUsableTab(activeTab)
    ensures var last := Paginate(Site(pages), 1, 0, []).lastPage;
      && (ScrapeCompany(activeTab, pages).Err? <==> 1 <= last <= |pages| && pages[last - 1].LoadFailed?)
      && (ScrapeCompany(activeTab, pages).Err? ==> ScrapeCompany(activeTab, pages).message == pages[last - 1].message)
  {
    PaginateSpec(Site(pages), 1, 0, []);
  }

  /** A successful scrape returns the rows of the visited pages before any
      per-page dedup, keeping the first row of each key across all pages,
      numbered from 1. */
  lemma ScrapeCompanyRows(activeTab: Option<Tab>, pages: seq<PageLoad>)
    requires ScrapeCompany(activeTab, pages).Ok?
    ensures var last := Paginate(Site(pages), 1, 0, []).lastPage;
      Unnumber(ScrapeCompany(activeTab, pages).value) == FirstOccurrences(RawGathered(pages, 1, last + 1))
  {
    var crawl := Paginate(Site(pages), 1, 0, []);
    PaginateSpec(Site(pages), 1, 0, []);
    var gathered := Gathered(Site(pages), 1, crawl.lastPage + 1);
    assert !NoUsableTab(activeTab);
    assert crawl.outcome.Ok?;
    assert crawl.outcome.value == [] + gathered;
    assert [] + gathered == gathered;
    assert ScrapeCompany(activeTab, pages) == Ok(Number(Dedup(gathered)));
    NumberingRoundTrip(Dedup(gathered), 1);
    DedupOfGathered(pages, crawl.lastPage + 1);
  }

  /** Deduplicating the rows the loop gathered keeps the first occurrence
      of each key among the raw rows of the same pages. */
  lemma DedupOfGathered(pages: seq<PageLoad>, hi: int)
    ensures Dedup(Gathered(Site(pages), 1, hi)) == FirstOccurrences(RawGathered(pages, 1, hi))
  {
    forall n | 1 <= n < hi
      ensures RowsAt(Site(pages), n) == Dedup(RawAt(pages, n))
    {
      RowsAtSite(pages, n);
    }
    GatheredDedup(Site(pages), pages, 1, hi, {});
    DedupKeepsFirstOccurrences(RawGathered(pages, 1, hi));
  }

  /** Pages 1 to 3 yield rows and page 4 yields none: the loop stops at
      page 4 with the rows of pages 1 to 3. */
  lemma StopsAfterFirstEmptyPage(site: seq<PageOutcome>)
    requires Productive(site, 1) && Productive(site, 2) && Productive(site, 3)
    requires OutcomeAt(site, 4) == Fetched([])
    ensures Paginate(site, 1, 0, []) == Crawl(4, Ok(RowsAt(site, 1) + RowsAt(site, 2) + RowsAt(site, 3)))
  {
    var crawl := Paginate(site, 1, 0, []);
    PaginateSpec(site, 1, 0, []);
    assert crawl.lastPage == 4;
    assert crawl.outcome.Ok?;
    assert Gathered(site, 5, 5) == [];
    assert Gathered(site, 4, 5) == [] by {
      assert RowsAt(site, 4) == [];
    }
    assert Gathered(site, 3, 5) == RowsAt(site, 3) + [];
    assert Gathered(site, 2, 5) == RowsAt(site, 2) + (RowsAt(site, 3) + []);
    assert Gathered(site, 1, 5) == RowsAt(site, 1) + (RowsAt(site, 2) + (RowsAt(site, 3) + []));
    assert [] + Gathered(site, 1, 5) == RowsAt(site, 1) + RowsAt(site, 2) + RowsAt(site, 3);
  }

  /** When every page yields rows, the loop still stops, at page
      `MaxPages`, having gathered every page up to it. */
  lemma StopsAtMaxPages(site: seq<PageOutcome>)
    requires forall n :: 1 <= n <= MaxPages ==> Productive(site, n)
    ensures Paginate(site, 1, 0, []) == Crawl(MaxPages, Ok(Gathered(site, 1, MaxPages + 1)))
  {
    var crawl := Paginate(site, 1, 0, []);
    PaginateSpec(site, 1, 0, []);
    assert crawl.lastPage == MaxPages;
    assert !OutcomeAt(site, crawl.lastPage).Failed? by {
      assert Productive(site, MaxPages);
    }
    assert [] + Gathered(site, 1, MaxPages + 1) == Gathered(site, 1, MaxPages + 1);
  }

  /** With no usable tab nothing is loaded and the scrape fails with the
      fixed message. */
  lemma NoTabNoScrape(pages: seq<PageLoad>)
    ensures ScrapeCompany(None, pages) == Err(NoActiveTab)
    ensures ScrapeCompany(Some(Tab(None)), pages) == Err(NoActiveTab)
    ensures ScrapeCompany(Some(Tab(Some(0))), pages) == Err(NoActiveTab)
  {
  }
}
