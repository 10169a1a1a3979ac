/** The per-subcategory job `scrape_subcategory_data` (nbv2.py:227-424): after
    the search is submitted, extract the current page, persist it as one
    batch, move to the next page, until a page comes back empty or there is no
    next page (success) or navigation fails (failure); the browser is quit on
    every exit once it exists. */
module Pagination {
  import opened Wrappers
  import opened Sequences
  import opened Browser
  import opened Extractor

  /** The exception a Selenium step raised. */
  datatype Fault = NoSuchElement | TimeoutFault | DriverFault | OtherError

  /** How one step of Selenium work ended. */
  datatype Step = Ok | Raised(fault: Fault)

  /** The steps of moving to the next page (nbv2.py:364-387), in order:
      waiting for an enabled next button, finding the first row of the old
      page, clicking the button, waiting for that row to go stale, and waiting
      for the new rows. */
  datatype Navigation = Navigation(nextButton: Step, oldItem: Step, click: Step, staleness: Step, presence: Step)

  datatype Advance = Advanced | NoMorePages | NavigationFailed

  /** The handlers of the navigation block (nbv2.py:389-400): a missing
      element or a timeout is the end of the listing, a `WebDriverException`
      or any other exception fails the job. */
  function Classify(f: Fault): (a: Advance)
    ensures a != Advanced
    ensures a == NoMorePages <==> f == NoSuchElement || f == TimeoutFault
  {
    if f == NoSuchElement || f == TimeoutFault then NoMorePages else NavigationFailed
  }

  /** The exception that ends the navigation block, if any: the first step
      that raises, where a missing old row is tolerated and then skips the
      staleness wait. */
  function FirstFault(nav: Navigation): Option<Fault> {
    if nav.nextButton.Raised? then Some(nav.nextButton.fault)
    else if nav.oldItem.Raised? && nav.oldItem.fault != NoSuchElement then Some(nav.oldItem.fault)
    else if nav.click.Raised? then Some(nav.click.fault)
    else if nav.oldItem.Ok? && nav.staleness.Raised? then Some(nav.staleness.fault)
    else if nav.presence.Raised? then Some(nav.presence.fault)
    else None
  }

  /** The exception that ends the navigation block was raised by one of its
      steps, and a missing old row is never that exception. */
  lemma FirstFaultRaised(nav: Navigation)
    ensures var r := FirstFault(nav);
      r.Some? ==> Raised(r.value) in [nav.nextButton, nav.oldItem, nav.click, nav.staleness, nav.presence]
    ensures var r := FirstFault(nav);
      r.Some? && r.value == NoSuchElement && nav.oldItem == Raised(NoSuchElement) ==>
        nav.nextButton.Raised? || nav.click.Raised? || nav.presence.Raised?
  {
  }

  /** The navigation block (nbv2.py:364-400). */
  function Navigate(nav: Navigation): Advance {
    match FirstFault(nav)
    case None => Advanced
    case Some(f) => Classify(f)
  }

  /** The navigation block advances exactly when every step it runs succeeds,
      a missing old row being the one tolerated fault. */
  lemma NavigateMeaning(nav: Navigation)
    ensures Navigate(nav) == Advanced <==>
      && nav.nextButton.Ok?
      && (nav.oldItem.Ok? || nav.oldItem == Raised(NoSuchElement))
      && nav.click.Ok?
      && (nav.oldItem.Ok? ==> nav.staleness.Ok?)
      && nav.presence.Ok?
  {
  }

  /** How the work before the pagination loop ended (nbv2.py:232-332):
      the browser could not be created (`driver` stays `None`), or the search
      raised after the browser was created, or the first results appeared. */
  datatype Setup = NoBrowser | SearchFailed | Ready

  /** The world one job meets:
      - `page(k)`: the listing as rendered while `current_page == k`;
      - `persisted(k)`: whether `to_sql` of page `k` succeeds;
      - `nav(k)`: the navigation steps from page `k`;
      - `lastPage`: no navigation advances from page `lastPage` or later. */
  datatype Site = Site(
    setup: Setup,
    page: nat -> Page,
    persisted: nat -> bool,
    nav: nat -> Navigation,
    lastPage: nat)

  /** Every page is bounded and the listing ends. */
  ghost predicate Finite(s: Site) {
    && (forall k :: Bounded(s.page(k)))
    && (forall k :: k >= s.lastPage ==> Navigate(s.nav(k)) != Advanced)
  }

  /** What the pagination loop leaves: its verdict, the records that reached
      the `items` table, and the value of `current_page` when it stopped. */
  datatype Run = Run(ok: bool, stored: seq<ListingRecord>, pages: nat)

  /** The pagination loop (nbv2.py:334-403) from page `k` on. */
  function Paginate(s: Site, l: Labels, k: nat): Run
    requires Finite(s)
    decreases if k <= s.lastPage then s.lastPage - k else 0
  {
    var records := PageRecords(s.page(k), l);
    if |records| == 0 then Run(true, [], k)
    else
      var saved := if s.persisted(k) then records else [];
      match Navigate(s.nav(k))
      case NoMorePages => Run(true, saved, k)
      case NavigationFailed => Run(false, saved, k)
      case Advanced =>
        var rest := Paginate(s, l, k + 1);
        Run(rest.ok, saved + rest.stored, rest.pages)
  }

  /** The job's result: the returned flag, the records stored, the last
      `current_page` (0 when the loop never started) and whether
      `driver.quit()` was called. */
  datatype JobResult = JobResult(ok: bool, stored: seq<ListingRecord>, pages: nat, released: bool)

  function Job(s: Site, l: Labels): JobResult
    requires Finite(s)
  {
    match s.setup
    case NoBrowser => JobResult(false, [], 0, false)
    case SearchFailed => JobResult(false, [], 0, true)
    case Ready =>
      var r := Paginate(s, l, 1);
      JobResult(r.ok, r.stored, r.pages, true)
  }

  /** `pre` followed by what `r` stores. */
  function After(pre: seq<ListingRecord>, r: Run): Run {
    Run(r.ok, pre + r.stored, r.pages)
  }

  /** Nothing stored before a run leaves it as it is. */
  lemma AfterNothing(r: Run)
    ensures After([], r) == r
  {
    assert [] + r.stored == r.stored;
  }

  /** One pass of the loop body. */
  lemma PaginateStep(s: Site, l: Labels, k: nat, saved: seq<ListingRecord>)
    requires Finite(s)
    requires saved == if s.persisted(k) then PageRecords(s.page(k), l) else []
    ensures |PageRecords(s.page(k), l)| == 0 ==> Paginate(s, l, k) == Run(true, [], k)
    ensures |PageRecords(s.page(k), l)| > 0 &&  Navigate(s.nav(k)) == Advanced ==> Paginate(s, l, k) == After(saved, Paginate(s, l, k + 1))
    ensures |PageRecords(s.page(k), l)| > 0 && Navigate(s.nav(k)) == NoMorePages ==> Paginate(s, l, k) == Run(true, saved, k)
    ensures |PageRecords(s.page(k), l)| > 0 && Navigate(s.nav(k)) == NavigationFailed ==> Paginate(s, l, k) == Run(false, saved, k)
  {
  }

  /** The pagination loop of `scrape_subcategory_data` (nbv2.py:334-403),
      entered with `current_page = 1`. */
  method PaginateListing(s: Site, l: Labels) returns (run: Run)
    requires Finite(s)
    ensures run == Paginate(s, l, 1)
  {
    var stored: seq<ListingRecord> := [];
    var currentPage: nat := 1;
    ghost var total := Paginate(s, l, 1);
    AfterNothing(total);
    while true
      invariant currentPage >= 1
      invariant total == After(stored, Paginate(s, l, currentPage))
      decreases if currentPage <= s.lastPage then s.lastPage - currentPage else 0
    {
      var data := ScrapeItemsFromPage(s.page(currentPage), l);
      var saved: seq<ListingRecord> := [];
      if s.persisted(currentPage) {
        saved := data;
      }
      PaginateStep(s, l, currentPage, saved);
      if |data| == 0 {
        // the page holds no items: the end of the listing
        EmptyUnit(stored);
        return Run(true, stored, currentPage);
      }
      // a failed to_sql is logged and the loop goes on
      var advance := Navigate(s.nav(currentPage));
      if advance != Advanced {
        return Run(advance == NoMorePages, stored + saved, currentPage);
      }
      ghost var rest := Paginate(s, l, currentPage + 1);
      AppendAssociates(stored, saved, rest.stored);
      stored := stored + saved;
      currentPage := currentPage + 1;
    }
  }

  /** `scrape_subcategory_data` (nbv2.py:227-424), from the creation of the
      browser on; the `finally` quits the browser on every exit once it
      exists. */
  method ScrapeSubcategoryData(s: Site, l: Labels) returns (result: JobResult)
    requires Finite(s)
    ensures result == Job(s, l)
    ensures result.released <==> s.setup != NoBrowser
  {
    var driverCreated := false;
    var run := Run(false, [], 0);
    if s.setup != NoBrowser {
      driverCreated := true;
      if s.setup == Ready {
        run := PaginateListing(s, l);
      }
    }
    // finally: driver.quit() once a driver exists; its own failure is only logged
    result := JobResult(run.ok, run.stored, run.pages, driverCreated);
  }

  /** The records page `k` contributes to the `items` table. */
  function SavedPage(s: Site, l: Labels, k: nat): seq<ListingRecord>
    requires Finite(s)
  {
    if s.persisted(k) then PageRecords(s.page(k), l) else []
  }

  /** Reference: the records of pages `k` to `last` whose batch was
      persisted, in page order. */
  function Saved(s: Site, l: Labels, k: nat, last: nat): seq<ListingRecord>
    requires Finite(s)
    decreases if k <= last then last - k + 1 else 0
  {
    if last < k then [] else SavedPage(s, l, k) + Saved(s, l, k + 1, last)
  }

  /** The loop walks the pages one at a time from `k`: every page before the
      last it reaches was non-empty and advanced from. */
  lemma {:induction false} PaginateReaches(s: Site, l: Labels, k: nat)
    requires Finite(s)
    ensures k <= Paginate(s, l, k).pages
    ensures forall q :: k <= q < Paginate(s, l, k).pages ==> |PageRecords(s.page(q), l)| > 0 && Navigate(s.nav(q)) == Advanced
    decreases if k <= s.lastPage then s.lastPage - k else 0
  {
    PaginateStep(s, l, k, SavedPage(s, l, k));
    if |PageRecords(s.page(k), l)| > 0 && Navigate(s.nav(k)) == Advanced {
      PaginateReaches(s, l, k + 1);
      var r := Paginate(s, l, k);
      forall q | k <= q < r.pages
        ensures |PageRecords(s.page(q), l)| > 0 && Navigate(s.nav(q)) == Advanced
      {
        if q > k {
          assert k + 1 <= q < Paginate(s, l, k + 1).pages;
        }
      }
    }
  }

  /** The loop stops on an empty page or when navigation does not advance,
      and it succeeds exactly when it stopped on an empty page or on the end
      of the listing, so a navigation failure on a non-empty page is the one
      way to fail. */
  lemma {:induction false} PaginateStops(s: Site, l: Labels, k: nat)
    requires Finite(s)
    ensures var r := Paginate(s, l, k);
      && (|PageRecords(s.page(r.pages), l)| == 0 || Navigate(s.nav(r.pages)) != Advanced)
      && (r.ok <==> |PageRecords(s.page(r.pages), l)| == 0 || Navigate(s.nav(r.pages)) == NoMorePages)
    decreases if k <= s.lastPage then s.lastPage - k else 0
  {
    PaginateStep(s, l, k, SavedPage(s, l, k));
    if |PageRecords(s.page(k), l)| > 0 && Navigate(s.nav(k)) == Advanced {
      PaginateStops(s, l, k + 1);
    }
  }

  /** The loop stores every persisted batch of the pages it read, in page
      order, and nothing else. */
  lemma {:induction false} PaginateStores(s: Site, l: Labels, k: nat)
    requires Finite(s)
    ensures Paginate(s, l, k).stored == Saved(s, l, k, Paginate(s, l, k).pages)
    decreases if k <= s.lastPage then s.lastPage - k else 0
  {
    PaginateStep(s, l, k, SavedPage(s, l, k));
    if |PageRecords(s.page(k), l)| > 0 && Navigate(s.nav(k)) == Advanced {
      PaginateStores(s, l, k + 1);
      PaginateReaches(s, l, k + 1);
      SavedFrom(s, l, k, Paginate(s, l, k + 1).pages);
    } else {
      SavedOne(s, l, k);
    }
  }

  lemma SavedFrom(s: Site, l: Labels, k: nat, last: nat)
    requires Finite(s)
    requires k <= last
    ensures Saved(s, l, k, last) == SavedPage(s, l, k) + Saved(s, l, k + 1, last)
  {
  }

  lemma SavedOne(s: Site, l: Labels, k: nat)
    requires Finite(s)
    ensures Saved(s, l, k, k) == SavedPage(s, l, k)
  {
    EmptyUnit(SavedPage(s, l, k));
  }

  /** The job succeeds exactly when the search succeeded and the loop
      stopped on an empty page or on the end of the listing; a failed job
      stored nothing unless its browser was up. */
  lemma JobOutcome(s: Site, l: Labels)
    requires Finite(s)
    ensures var j := Job(s, l);
      && (j.ok <==> s.setup == Ready
                    && (|PageRecords(s.page(j.pages), l)| == 0 || Navigate(s.nav(j.pages)) == NoMorePages))
      && (s.setup != Ready ==> j.stored == [] && j.pages == 0)
      && (s.setup == Ready ==> 1 <= j.pages && j.stored == Saved(s, l, 1, j.pages))
  {
    if s.setup == Ready {
      PaginateReaches(s, l, 1);
      PaginateStops(s, l, 1);
      PaginateStores(s, l, 1);
    }
  }

  /** Whether `to_sql` succeeds changes what is stored but neither the
      verdict nor how far the loop goes. */
  lemma {:induction false} PersistenceIndependent(s: Site, l: Labels, k: nat, persisted: nat -> bool)
    requires Finite(s)
    ensures Finite(s.(persisted := persisted))
    ensures Paginate(s.(persisted := persisted), l, k).ok == Paginate(s, l, k).ok
    ensures Paginate(s.(persisted := persisted), l, k).pages == Paginate(s, l, k).pages
    decreases if k <= s.lastPage then s.lastPage - k else 0
  {
    var t := s.(persisted := persisted);
    assert Finite(t);
    PaginateStep(s, l, k, SavedPage(s, l, k));
    PaginateStep(t, l, k, SavedPage(t, l, k));
    if |PageRecords(s.page(k), l)| > 0 && Navigate(s.nav(k)) == Advanced {
      PersistenceIndependent(s, l, k + 1, persisted);
    }
  }

  /** Two pages of three rows that stay put and are each read on the first
      attempt, then a page with no rows: the job succeeds after storing six
      records in two batches and stops on page 3. */
  lemma TwoFullPagesThenEmpty(s: Site, l: Labels)
    requires Finite(s) && s.setup == Ready && IdsKnown(l)
    requires Stable(s.page(1), 3) && forall j :: 0 <= j < 3 ==> ReadFirst(s.page(1), j)
    requires Stable(s.page(2), 3) && forall j :: 0 <= j < 3 ==> ReadFirst(s.page(2), j)
    requires s.page(3).first == Rows(0)
    requires Navigate(s.nav(1)) == Advanced && Navigate(s.nav(2)) == Advanced
    requires s.persisted(1) && s.persisted(2)
    ensures Job(s, l) == JobResult(true, PageRecords(s.page(1), l) + PageRecords(s.page(2), l), 3, true)
    ensures |Job(s, l).stored| == 6
  {
    FullPage(s.page(1), l, 3);
    FullPage(s.page(2), l, 3);
    EmptyPages(s.page(3), l);
    PaginateStep(s, l, 3, SavedPage(s, l, 3));
    PaginateStep(s, l, 2, SavedPage(s, l, 2));
    PaginateStep(s, l, 1, SavedPage(s, l, 1));
    assert PageRecords(s.page(2), l) + [] == PageRecords(s.page(2), l);
  }

  /** A driver fault while re-fetching the rows of page 2 empties that page,
      which the loop takes for the end of the listing: the job reports
      success with only page 1 stored. */
  lemma FaultOnSecondPageEndsAsSuccess(s: Site, l: Labels, n: nat, i: nat, a: nat)
    requires Finite(s) && s.setup == Ready
    requires |PageRecords(s.page(1), l)| > 0 && Navigate(s.nav(1)) == Advanced
    requires s.page(2).ready == Present && s.page(2).first == Rows(n) && i < n
    requires forall j, b :: 0 <= j < i ==> s.page(2).fetch(j, b) == Rows(n)
    requires Attempted(s.page(2), i, a) && s.page(2).fetch(i, a) == FetchFault
    ensures Job(s, l) == JobResult(true, SavedPage(s, l, 1), 2, true)
  {
    StableFaultDiscardsPage(s.page(2), l, n, i, a);
    PaginateStep(s, l, 2, SavedPage(s, l, 2));
    PaginateStep(s, l, 1, SavedPage(s, l, 1));
    assert SavedPage(s, l, 1) + [] == SavedPage(s, l, 1);
  }
}
