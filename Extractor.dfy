/** `scrape_items_from_page` (nbv2.py:135-224): walks the rows of the current
    listing page, re-fetching the row list before every read, retrying a row
    only when its elements went stale, at most three times, and returns one
    record per row it could read, in row order. Any page-level fault gives an
    empty page. */
module Extractor {
  import opened Wrappers
  import opened Sequences
  import opened Cleaners
  import opened Browser

  /** The arguments that label every record of one scrape. */
  datatype Labels = Labels(
    categoryIds: map<string, int>,
    categoryName: string,
    subcategoryIds: map<(string, string), int>,
    subcategoryName: string,
    eventName: string)

  /** One row of the `items` table. */
  datatype ListingRecord = ListingRecord(
    categoryId: int,
    categoryName: string,
    subcategoryId: int,
    subcategoryName: string,
    name: string,
    quantity: Option<int>,
    price: Option<int>,
    timeRemaining: string,
    scrapedAt: Timestamp,
    event: string)

  /** Both id lookups succeed; otherwise building the record raises
      `KeyError`, which the row's generic handler catches. */
  predicate IdsKnown(l: Labels) {
    l.categoryName in l.categoryIds && (l.categoryName, l.subcategoryName) in l.subcategoryIds
  }

  /** What a successful read of a row keeps for its record: the two ids,
      looked up first when the record is built (where a missing key raises
      `KeyError`), the texts read and the time of the read. */
  datatype Reading = Reading(categoryId: int, subcategoryId: int, texts: RowTexts, at: Timestamp)

  function ReadingOf(l: Labels, t: RowTexts, at: Timestamp): Reading
    requires IdsKnown(l)
  {
    Reading(l.categoryIds[l.categoryName], l.subcategoryIds[(l.categoryName, l.subcategoryName)], t, at)
  }

  /** The record appended for a reading, its quantity and price cleaned; the
      cleaners never raise. */
  function MakeRecord(l: Labels, r: Reading): ListingRecord {
    ListingRecord(
      r.categoryId, l.categoryName, r.subcategoryId, l.subcategoryName,
      r.texts.name, CleanQuantity(Str(r.texts.quantity)), CleanPrice(Str(r.texts.price)),
      r.texts.timeRemaining, r.at, l.eventName)
  }

  /** How the attempts on one row index end: with the reading kept, if any,
      and the length of the row list fetched last; or with a driver fault
      that aborts the whole page. */
  datatype RowEnd = Finished(reading: Option<Reading>, count: nat) | Aborted

  /** The inner loop (nbv2.py:154-204) from attempt `a` on row `i`, `count`
      being the length of the row list fetched last. */
  function RowStep(p: Page, l: Labels, i: nat, a: nat, count: nat): RowEnd
    requires a <= 3
    decreases 3 - a
  {
    if a == 3 then Finished(None, count)
    else match p.fetch(i, a)
      case FetchFault => Aborted
      case Rows(n) =>
        if i >= n then Finished(None, n)
        else match p.read(i, a)
          case Read(t) => Finished(if IdsKnown(l) then Some(ReadingOf(l, t, p.clock(i))) else None, n)
          case Stale => RowStep(p, l, i, a + 1, n)
          case NotFound => Finished(None, n)
          case Timeout => Finished(None, n)
          case OtherFault => Finished(None, n)
  }

  lemma {:induction false} RowStepBounded(p: Page, l: Labels, i: nat, a: nat, count: nat)
    requires a <= 3 && Bounded(p) && count <= p.maxRows
    ensures RowStep(p, l, i, a, count).Finished? ==> RowStep(p, l, i, a, count).count <= p.maxRows
    decreases 3 - a
  {
    if a < 3 && p.fetch(i, a).Rows? && i < p.fetch(i, a).count && p.read(i, a).Stale? {
      RowStepBounded(p, l, i, a + 1, p.fetch(i, a).count);
    }
  }

  /** A reading kept for the row with its index, for stating properties. */
  datatype Entry = Entry(index: nat, reading: Reading)

  /** The records built from the readings kept, in order. */
  function Records(l: Labels, es: seq<Entry>): (rs: seq<ListingRecord>)
    ensures |rs| == |es| && forall k :: 0 <= k < |es| ==> rs[k] == MakeRecord(l, es[k].reading)
  {
    seq(|es|, k requires 0 <= k < |es| => MakeRecord(l, es[k].reading))
  }

  function Prepend(done: seq<Entry>, rest: Option<seq<Entry>>): Option<seq<Entry>> {
    match rest
    case None => None
    case Some(r) => Some(done + r)
  }

  lemma PrependNothing(rest: Option<seq<Entry>>)
    ensures Prepend([], rest) == rest
  {
    if rest.Some? {
      assert [] + rest.value == rest.value;
    }
  }

  lemma PrependTwice(a: seq<Entry>, b: seq<Entry>, rest: Option<seq<Entry>>)
    ensures Prepend(a, Prepend(b, rest)) == Prepend(a + b, rest)
  {
    if rest.Some? {
      assert a + (b + rest.value) == (a + b) + rest.value;
    }
  }

  /** The outer loop (nbv2.py:150-209) from row index `i`, `count` being the
      length of the row list fetched last; `None` when a re-fetch raised,
      which the page-level handler turns into an empty page. */
  function Harvest(p: Page, l: Labels, i: nat, count: nat): Option<seq<Entry>>
    requires Bounded(p) && count <= p.maxRows
    decreases p.maxRows - i
  {
    if i >= count then Some([])
    else
      RowStepBounded(p, l, i, 0, count);
      match RowStep(p, l, i, 0, count)
      case Aborted => None
      case Finished(r, n) =>
        Prepend(if r.Some? then [Entry(i, r.value)] else [], Harvest(p, l, i + 1, n))
  }

  /** One pass of the outer loop. */
  lemma HarvestStep(p: Page, l: Labels, i: nat, count: nat, end: RowEnd)
    requires Bounded(p) && count <= p.maxRows && i < count
    requires end == RowStep(p, l, i, 0, count)
    ensures end.Aborted? ==> Harvest(p, l, i, count) == None
    ensures end.Finished? ==> end.count <= p.maxRows
    ensures end.Finished? ==>
      Harvest(p, l, i, count) == Prepend(if end.reading.Some? then [Entry(i, end.reading.value)] else [], Harvest(p, l, i + 1, end.count))
  {
    RowStepBounded(p, l, i, 0, count);
  }

  /** The records of a page, each with its row index. */
  function PageEntries(p: Page, l: Labels): seq<Entry>
    requires Bounded(p)
  {
    if p.ready != Present then []
    else match p.first
      case FetchFault => []
      case Rows(n) =>
        if n == 0 then []
        else match Harvest(p, l, 0, n)
          case None => []
          case Some(es) => es
  }

  /** The list `scrape_items_from_page` returns. */
  function PageRecords(p: Page, l: Labels): seq<ListingRecord>
    requires Bounded(p)
  {
    Records(l, PageEntries(p, l))
  }

  /** `scrape_items_from_page`. */
  method ScrapeItemsFromPage(p: Page, l: Labels) returns (records: seq<ListingRecord>)
    requires Bounded(p)
    ensures records == PageRecords(p, l)
  {
    // WebDriverWait(driver, 30).until(presence_of_all_elements_located(...))
    if p.ready != Present {
      return [];
    }
    var items := p.first;
    if items.FetchFault? {
      return [];
    }
    if items.count == 0 {
      return [];
    }
    var first: nat := items.count;
    var count: nat := first;
    ghost var done: seq<Entry> := [];
    records := [];
    var index: nat := 0;
    PrependNothing(Harvest(p, l, 0, first));
    while index < count
      invariant count <= p.maxRows
      invariant records == Records(l, done)
      invariant Harvest(p, l, 0, first) == Prepend(done, Harvest(p, l, index, count))
      decreases p.maxRows - index
    {
      var end := ReadRow(p, l, index, count);
      HarvestStep(p, l, index, count, end);
      if end.Aborted? {
        return [];
      }
      var kept := if end.reading.Some? then [Entry(index, end.reading.value)] else [];
      if end.reading.Some? {
        // the dictionary built from the row's reading is appended
        records := records + [MakeRecord(l, end.reading.value)];
        RecordsAppend(l, done, kept);
        RecordsOne(l, kept[0]);
      } else {
        assert done + kept == done;
      }
      PrependTwice(done, kept, Harvest(p, l, index + 1, end.count));
      done := done + kept;
      count := end.count;
      index := index + 1;
    }
  }

  /** The attempts on row `index` (nbv2.py:152-204), `count` being the length
      of the row list fetched last: at most three, each one re-fetching the
      row list first. */
  method ReadRow(p: Page, l: Labels, index: nat, count: nat) returns (end: RowEnd)
    ensures end == RowStep(p, l, index, 0, count)
  {
    var retry := 0;
    var success := false;
    var rows := count;
    var got: Option<Reading> := None;
    while !success && retry < 3
      invariant retry <= 3 && !success && got == None
      invariant RowStep(p, l, index, 0, count) == RowStep(p, l, index, retry, rows)
    {
      var items := p.fetch(index, retry);
      if items.FetchFault? {
        // raised outside the row's try block: the page-level handler returns []
        return Aborted;
      }
      rows := items.count;
      if index >= rows {
        break;
      }
      match p.read(index, retry) {
        case Read(t) =>
          if IdsKnown(l) {
            got := Some(ReadingOf(l, t, p.clock(index)));
            success := true;
          }
          // otherwise the id lookup raises KeyError, caught by the generic handler
          break;
        case Stale =>
          retry := retry + 1;
        case NotFound =>
          break;
        case Timeout =>
          break;
        case OtherFault =>
          break;
      }
    }
    return Finished(got, rows);
  }

  // ---------------------------------------------------------------------------
  // The retry policy of one row

  /** Before attempt `a` on row `i`, the re-fetched list still reached row `i`. */
  predicate InRange(p: Page, i: nat, a: nat) {
    p.fetch(i, a).Rows? && i < p.fetch(i, a).count
  }

  /** Attempt `a` on row `i` is made: `a < 3`, and every earlier attempt found
      the row in range and stale. */
  ghost predicate Attempted(p: Page, i: nat, a: nat) {
    a < 3 && forall b :: 0 <= b < a ==> InRange(p, i, b) && p.read(i, b).Stale?
  }

  /** Attempt `a` on row `i` is made and produces the reading `r`. */
  ghost predicate KeptAt(p: Page, l: Labels, i: nat, a: nat, r: Reading) {
    && Attempted(p, i, a)
    && InRange(p, i, a) && p.read(i, a).Read? && IdsKnown(l)
    && r == ReadingOf(l, p.read(i, a).texts, p.clock(i))
  }

  ghost predicate Kept(p: Page, l: Labels, i: nat, r: Reading) {
    KeptAt(p, l, i, 0, r) || KeptAt(p, l, i, 1, r) || KeptAt(p, l, i, 2, r)
  }

  /** At most three attempts are made on a row, and only a stale read leads to
      another one: the row yields a record exactly when one of its first three
      attempts reads it after stale ones only. Not-found, timeout and any
      other fault end the row at once with no record. */
  lemma RowStepKept(p: Page, l: Labels, i: nat, count: nat, r: Reading)
    ensures (RowStep(p, l, i, 0, count).Finished? && RowStep(p, l, i, 0, count).reading == Some(r))
            <==> Kept(p, l, i, r)
  {
    assert Attempted(p, i, 0);
    if InRange(p, i, 0) && p.read(i, 0).Stale? {
      var n0 := p.fetch(i, 0).count;
      assert Attempted(p, i, 1);
      if InRange(p, i, 1) && p.read(i, 1).Stale? {
        var n1 := p.fetch(i, 1).count;
        assert Attempted(p, i, 2);
        assert RowStep(p, l, i, 1, n0) == RowStep(p, l, i, 2, n1);
        if InRange(p, i, 2) && p.read(i, 2).Stale? {
          var n2 := p.fetch(i, 2).count;
          assert RowStep(p, l, i, 2, n1) == RowStep(p, l, i, 3, n2) == Finished(None, n2);
        }
      } else {
        assert !Attempted(p, i, 2);
      }
    } else {
      assert !Attempted(p, i, 1) && !Attempted(p, i, 2);
    }
  }

  /** The page is aborted exactly when the re-fetch before one of the
      attempts made on the row raises. */
  lemma RowStepAborts(p: Page, l: Labels, i: nat, count: nat)
    ensures RowStep(p, l, i, 0, count).Aborted?
            <==> exists a :: 0 <= a < 3 && Attempted(p, i, a) && p.fetch(i, a).FetchFault?
  {
    assert Attempted(p, i, 0);
    if InRange(p, i, 0) && p.read(i, 0).Stale? {
      var n0 := p.fetch(i, 0).count;
      assert Attempted(p, i, 1);
      if InRange(p, i, 1) && p.read(i, 1).Stale? {
        var n1 := p.fetch(i, 1).count;
        assert Attempted(p, i, 2);
        assert RowStep(p, l, i, 1, n0) == RowStep(p, l, i, 2, n1);
        if InRange(p, i, 2) && p.read(i, 2).Stale? {
          var n2 := p.fetch(i, 2).count;
          assert RowStep(p, l, i, 2, n1) == RowStep(p, l, i, 3, n2) == Finished(None, n2);
        }
      } else {
        assert !Attempted(p, i, 2);
      }
    } else {
      assert !Attempted(p, i, 1) && !Attempted(p, i, 2);
    }
  }

  // ---------------------------------------------------------------------------
  // Shape of a page

  /** Entries from row `lo` on: increasing row indices below `bound`, at most
      one per row, each one a reading that row's attempts kept. */
  ghost predicate InRowOrder(p: Page, l: Labels, es: seq<Entry>, lo: nat, bound: nat) {
    && (forall k :: 0 <= k < |es| ==> lo + k <= es[k].index < bound)
    && (forall k, m :: 0 <= k < m < |es| ==> es[k].index < es[m].index)
    && (forall k :: 0 <= k < |es| ==> Kept(p, l, es[k].index, es[k].reading))
  }

  lemma {:induction false} HarvestInRowOrder(p: Page, l: Labels, i: nat, count: nat)
    requires Bounded(p) && count <= p.maxRows
    ensures Harvest(p, l, i, count).Some? ==> InRowOrder(p, l, Harvest(p, l, i, count).value, i, p.maxRows)
    decreases p.maxRows - i
  {
    if i < count {
      var end := RowStep(p, l, i, 0, count);
      HarvestStep(p, l, i, count, end);
      if end.Finished? {
        HarvestInRowOrder(p, l, i + 1, end.count);
        RowInRowOrder(p, l, i, count, end);
      }
    }
  }

  /** One row of `HarvestInRowOrder`: a row's kept reading, if any, goes in
      front of the rest of the page, which is in order from the next index. */
  lemma RowInRowOrder(p: Page, l: Labels, i: nat, count: nat, end: RowEnd)
    requires Bounded(p) && count <= p.maxRows && i < count
    requires end == RowStep(p, l, i, 0, count) && end.Finished?
    requires Harvest(p, l, i + 1, end.count).Some? ==>
      InRowOrder(p, l, Harvest(p, l, i + 1, end.count).value, i + 1, p.maxRows)
    ensures Harvest(p, l, i, count).Some? ==> InRowOrder(p, l, Harvest(p, l, i, count).value, i, p.maxRows)
  {
    HarvestStep(p, l, i, count, end);
    var rest := Harvest(p, l, i + 1, end.count);
    if rest.Some? {
      if end.reading.Some? {
        RowStepKept(p, l, i, count, end.reading.value);
        InRowOrderCons(p, l, Entry(i, end.reading.value), rest.value, i, p.maxRows);
        assert Harvest(p, l, i, count) == Some([Entry(i, end.reading.value)] + rest.value);
      } else {
        PrependNothing(rest);
        InRowOrderLower(p, l, rest.value, i, p.maxRows);
        assert Harvest(p, l, i, count) == rest;
      }
    }
  }

  lemma InRowOrderCons(p: Page, l: Labels, e: Entry, es: seq<Entry>, lo: nat, bound: nat)
    requires InRowOrder(p, l, es, lo + 1, bound)
    requires e.index == lo < bound && Kept(p, l, lo, e.reading)
    ensures InRowOrder(p, l, [e] + es, lo, bound)
  {
    var all := [e] + es;
    assert forall k :: 0 < k < |all| ==> all[k] == es[k - 1];
  }

  lemma InRowOrderLower(p: Page, l: Labels, es: seq<Entry>, lo: nat, bound: nat)
    requires InRowOrder(p, l, es, lo + 1, bound)
    ensures InRowOrder(p, l, es, lo, bound)
  {
  }

  /** The page's records come in increasing row order, at most one per row
      index, so at most `maxRows` of them, each kept by the retry policy. */
  lemma PageInRowOrder(p: Page, l: Labels)
    requires Bounded(p)
    ensures InRowOrder(p, l, PageEntries(p, l), 0, p.maxRows)
    ensures |PageRecords(p, l)| <= p.maxRows
  {
    var es := PageEntries(p, l);
    if p.ready == Present && p.first.Rows? && p.first.count > 0 {
      HarvestInRowOrder(p, l, 0, p.first.count);
    }
    if |es| > 0 {
      assert |es| - 1 <= es[|es| - 1].index < p.maxRows;
    }
  }

  /** Each record of the page was read by one of the first three attempts on
      its row, after stale attempts only, and carries that read's name and
      time remaining, its cleaned quantity and price, the ids
      `categoryIds[categoryName]` and `subcategoryIds[(categoryName,
      subcategoryName)]`, and the event. */
  lemma PageRecordsRead(p: Page, l: Labels)
    requires Bounded(p)
    ensures forall k :: 0 <= k < |PageRecords(p, l)| ==> ReadBy(p, l, PageEntries(p, l)[k].index, PageRecords(p, l)[k])
  {
    var es := PageEntries(p, l);
    PageInRowOrder(p, l);
    var rs := PageRecords(p, l);
    forall k | 0 <= k < |rs|
      ensures ReadBy(p, l, es[k].index, rs[k])
    {
      assert Kept(p, l, es[k].index, es[k].reading);
      var a := if KeptAt(p, l, es[k].index, 0, es[k].reading) then 0
               else if KeptAt(p, l, es[k].index, 1, es[k].reading) then 1 else 2;
      KeptFields(p, l, es[k].index, a, es[k].reading);
      assert rs[k] == MakeRecord(l, es[k].reading);
    }
  }

  /** `r` is the record built from what one of the first three attempts on
      row `i` read. */
  ghost predicate ReadBy(p: Page, l: Labels, i: nat, r: ListingRecord) {
    exists a :: 0 <= a < 3 && RecordOfAttempt(p, l, i, a, r)
  }

  /** `r` is the record built from what attempt `a` on row `i` read. */
  ghost predicate RecordOfAttempt(p: Page, l: Labels, i: nat, a: nat, r: ListingRecord) {
    && Attempted(p, i, a) && InRange(p, i, a) && p.read(i, a).Read?
    && l.categoryName in l.categoryIds && r.categoryId == l.categoryIds[l.categoryName]
    && (l.categoryName, l.subcategoryName) in l.subcategoryIds
    && r.subcategoryId == l.subcategoryIds[(l.categoryName, l.subcategoryName)]
    && r.categoryName == l.categoryName && r.subcategoryName == l.subcategoryName
    && r.name == p.read(i, a).texts.name
    && r.quantity == CleanQuantity(Str(p.read(i, a).texts.quantity))
    && r.price == CleanPrice(Str(p.read(i, a).texts.price))
    && r.timeRemaining == p.read(i, a).texts.timeRemaining
    && r.scrapedAt == p.clock(i) && r.event == l.eventName
  }

  lemma KeptFields(p: Page, l: Labels, i: nat, a: nat, r: Reading)
    requires KeptAt(p, l, i, a, r)
    ensures RecordOfAttempt(p, l, i, a, MakeRecord(l, r))
  {
  }

  /** A page that never showed a row, or whose first row list could not be
      read, is empty. */
  lemma EmptyPages(p: Page, l: Labels)
    requires Bounded(p)
    requires p.ready != Present || p.first == FetchFault || p.first == Rows(0)
    ensures PageRecords(p, l) == []
  {
  }

  // ---------------------------------------------------------------------------
  // A page whose row list does not change

  /** Every row list the page reports has `n` rows. */
  ghost predicate Stable(p: Page, n: nat) {
    p.ready == Present && p.first == Rows(n) && forall i, a :: p.fetch(i, a) == Rows(n)
  }

  /** The retry policy stated on its own: of the first three attempts, the
      first one that does not find the row stale decides, and only a read with
      both ids known gives a record. */
  function Settled(p: Page, l: Labels, i: nat): Option<Reading> {
    var a := if !p.read(i, 0).Stale? then 0 else if !p.read(i, 1).Stale? then 1 else if !p.read(i, 2).Stale? then 2 else 3;
    if a < 3 && p.read(i, a).Read? && IdsKnown(l) then Some(ReadingOf(l, p.read(i, a).texts, p.clock(i))) else None
  }

  function SettledRecords(p: Page, l: Labels, i: nat, n: nat): seq<ListingRecord>
    decreases n - i
  {
    if i >= n then []
    else (if Settled(p, l, i).Some? then [MakeRecord(l, Settled(p, l, i).value)] else []) + SettledRecords(p, l, i + 1, n)
  }

  lemma StableRow(p: Page, l: Labels, i: nat, n: nat)
    requires i < n
    requires forall a :: p.fetch(i, a) == Rows(n)
    ensures RowStep(p, l, i, 0, n) == Finished(Settled(p, l, i), n)
  {
    if p.read(i, 0).Stale? {
      if p.read(i, 1).Stale? {
        assert RowStep(p, l, i, 1, n) == RowStep(p, l, i, 2, n);
      }
    }
  }

  lemma StableHarvestStep(p: Page, l: Labels, i: nat, n: nat)
    requires Bounded(p) && Stable(p, n) && i < n
    ensures Harvest(p, l, i, n)
         == Prepend(if Settled(p, l, i).Some? then [Entry(i, Settled(p, l, i).value)] else [], Harvest(p, l, i + 1, n))
  {
    StableRow(p, l, i, n);
  }

  lemma RecordsAppend(l: Labels, a: seq<Entry>, b: seq<Entry>)
    ensures Records(l, a + b) == Records(l, a) + Records(l, b)
  {
  }

  lemma RecordsOne(l: Labels, e: Entry)
    ensures Records(l, [e]) == [MakeRecord(l, e.reading)]
  {
  }

  lemma StableHarvestCons(p: Page, l: Labels, i: nat, n: nat)
    requires Bounded(p) && Stable(p, n) && i < n
    requires Harvest(p, l, i + 1, n).Some?
    requires Records(l, Harvest(p, l, i + 1, n).value) == SettledRecords(p, l, i + 1, n)
    ensures Harvest(p, l, i, n).Some? && Records(l, Harvest(p, l, i, n).value) == SettledRecords(p, l, i, n)
  {
    var settled := Settled(p, l, i);
    var kept := if settled.Some? then [Entry(i, settled.value)] else [];
    var head := if settled.Some? then [MakeRecord(l, settled.value)] else [];
    var rest := Harvest(p, l, i + 1, n).value;
    StableHarvestStep(p, l, i, n);
    assert Harvest(p, l, i, n) == Some(kept + rest);
    RecordsAppend(l, kept, rest);
    assert Records(l, kept) == head;
    assert SettledRecords(p, l, i, n) == head + SettledRecords(p, l, i + 1, n);
  }

  lemma {:induction false} StableHarvest(p: Page, l: Labels, i: nat, n: nat)
    requires Bounded(p) && Stable(p, n)
    ensures Harvest(p, l, i, n).Some? && Records(l, Harvest(p, l, i, n).value) == SettledRecords(p, l, i, n)
    decreases n - i
  {
    if i < n {
      StableHarvest(p, l, i + 1, n);
      StableHarvestCons(p, l, i, n);
    } else {
      assert Harvest(p, l, i, n) == Some([]);
      assert Records(l, []) == [];
    }
  }

  /** On a page whose row list keeps `n` rows, the records are exactly those of
      rows `0 .. n - 1` that the retry policy settles on a read, in row order. */
  lemma StablePage(p: Page, l: Labels, n: nat)
    requires Bounded(p) && Stable(p, n)
    ensures PageRecords(p, l) == SettledRecords(p, l, 0, n)
  {
    StableHarvest(p, l, 0, n);
  }

  /** Row `j`'s first attempt reads it. */
  predicate ReadFirst(p: Page, j: nat) {
    p.read(j, 0).Read?
  }

  /** On a page where every row from `i` up to `n` is read on its first
      attempt, each of those rows gives a record. */
  lemma {:induction false} SettledReadRows(p: Page, l: Labels, i: nat, n: nat)
    requires IdsKnown(l) && i <= n
    requires forall j :: i <= j < n ==> ReadFirst(p, j)
    ensures |SettledRecords(p, l, i, n)| + i == n
    decreases n - i
  {
    if i < n {
      SettledReadRows(p, l, i + 1, n);
      SettledReadRow(p, l, i, n);
    } else {
      SettledPastEnd(p, l, i, n);
    }
  }

  lemma SettledPastEnd(p: Page, l: Labels, i: nat, n: nat)
    requires n <= i
    ensures SettledRecords(p, l, i, n) == []
  {
  }

  /** One row of `SettledReadRows`. */
  lemma SettledReadRow(p: Page, l: Labels, i: nat, n: nat)
    requires IdsKnown(l) && i < n && ReadFirst(p, i)
    requires |SettledRecords(p, l, i + 1, n)| + i + 1 == n
    ensures |SettledRecords(p, l, i, n)| + i == n
  {
    var r := Settled(p, l, i);
    assert r.Some?;
    var rest := SettledRecords(p, l, i + 1, n);
    assert SettledRecords(p, l, i, n) == [MakeRecord(l, r.value)] + rest;
  }

  /** A page whose `n` rows stay put and are each read on the first attempt
      yields `n` records. */
  lemma FullPage(p: Page, l: Labels, n: nat)
    requires Bounded(p) && Stable(p, n) && IdsKnown(l)
    requires forall j :: 0 <= j < n ==> ReadFirst(p, j)
    ensures |PageRecords(p, l)| == n
  {
    StablePage(p, l, n);
    SettledReadRows(p, l, 0, n);
  }

  /** A driver fault while re-fetching the row list aborts the whole page: the
      records of the rows already read are discarded with it. This holds on
      every row the loop reaches, with whatever row count it last fetched
      (`Harvest(.., 0, ..) == Prepend(done, Harvest(.., i, c))` is the loop
      invariant of `ScrapeItemsFromPage`), and before any attempt the loop
      makes on that row, stale reads before it included. */
  lemma FaultDiscardsPage(p: Page, l: Labels, done: seq<Entry>, i: nat, c: nat, a: nat)
    requires Bounded(p) && p.ready == Present && p.first.Rows? && p.first.count > 0
    requires c <= p.maxRows && i < c
    requires Harvest(p, l, 0, p.first.count) == Prepend(done, Harvest(p, l, i, c))
    requires Attempted(p, i, a) && p.fetch(i, a).FetchFault?
    ensures PageRecords(p, l) == []
  {
    RowStepAborts(p, l, i, c);
    HarvestStep(p, l, i, c, RowStep(p, l, i, 0, c));
  }

  /** The same on a page whose earlier rows all kept `n` rows: a fault on
      any re-fetch the loop makes for row `i` discards the page. */
  lemma StableFaultDiscardsPage(p: Page, l: Labels, n: nat, i: nat, a: nat)
    requires Bounded(p) && p.ready == Present && p.first == Rows(n) && i < n
    requires forall j, b :: 0 <= j < i ==> p.fetch(j, b) == Rows(n)
    requires Attempted(p, i, a) && p.fetch(i, a) == FetchFault
    ensures PageRecords(p, l) == []
  {
    FaultAborts(p, l, n, i, a, 0);
  }

  /** A row stale on its first attempt whose second re-fetch raises, after the
      row before it was read and the list shrank from three rows to two:
      the page yields nothing, the first row's record included. */
  lemma LateFaultDiscardsPage(l: Labels, t0: RowTexts, clock: nat -> Timestamp)
    requires IdsKnown(l)
    ensures
      var p := Page(Present, Rows(3),
                    (i: nat, a: nat) => if i == 0 then Rows(2) else if a == 0 then Rows(2) else FetchFault,
                    (i: nat, a: nat) => if i == 0 then Read(t0) else Stale,
                    clock, 3);
      PageRecords(p, l) == []
  {
    var p := Page(Present, Rows(3),
                  (i: nat, a: nat) => if i == 0 then Rows(2) else if a == 0 then Rows(2) else FetchFault,
                  (i: nat, a: nat) => if i == 0 then Read(t0) else Stale,
                  clock, 3);
    var r0 := ReadingOf(l, t0, clock(0));
    assert RowStep(p, l, 0, 0, 3) == Finished(Some(r0), 2);
    HarvestStep(p, l, 0, 3, RowStep(p, l, 0, 0, 3));
    assert Attempted(p, 1, 1);
    FaultDiscardsPage(p, l, [Entry(0, r0)], 1, 2, 1);
  }

  lemma {:induction false} FaultAborts(p: Page, l: Labels, n: nat, i: nat, a: nat, j: nat)
    requires Bounded(p) && p.first == Rows(n) && j <= i < n
    requires forall j, b :: 0 <= j < i ==> p.fetch(j, b) == Rows(n)
    requires Attempted(p, i, a) && p.fetch(i, a) == FetchFault
    ensures Harvest(p, l, j, n) == None
    decreases i - j
  {
    if j < i {
      StableRow(p, l, j, n);
      FaultAborts(p, l, n, i, a, j + 1);
    } else {
      RowStepAborts(p, l, i, n);
      HarvestStep(p, l, i, n, RowStep(p, l, i, 0, n));
    }
  }

  /** Three rows: row 0 is stale twice and read on the third attempt, row 1
      is stale on all three attempts, row 2 is read at once. Row 1 is skipped
      and the page still yields the records of rows 0 and 2. */
  lemma StaleRowIsSkipped(l: Labels, t0: RowTexts, t2: RowTexts, clock: nat -> Timestamp)
    requires IdsKnown(l)
    ensures
      var p := Page(Present, Rows(3), (i: nat, a: nat) => Rows(3),
                    (i: nat, a: nat) => if i == 0 then (if a < 2 then Stale else Read(t0)) else if i == 1 then Stale else Read(t2),
                    clock, 3);
      PageRecords(p, l) == [MakeRecord(l, ReadingOf(l, t0, clock(0))), MakeRecord(l, ReadingOf(l, t2, clock(2)))]
  {
    var p := Page(Present, Rows(3), (i: nat, a: nat) => Rows(3),
                  (i: nat, a: nat) => if i == 0 then (if a < 2 then Stale else Read(t0)) else if i == 1 then Stale else Read(t2),
                  clock, 3);
    StablePage(p, l, 3);
    var r0 := MakeRecord(l, ReadingOf(l, t0, clock(0)));
    var r2 := MakeRecord(l, ReadingOf(l, t2, clock(2)));
    assert Settled(p, l, 2) == Some(ReadingOf(l, t2, clock(2)));
    assert SettledRecords(p, l, 2, 3) == [r2] by {
      assert SettledRecords(p, l, 3, 3) == [];
      EmptyUnit([r2]);
    }
    assert Settled(p, l, 1) == None;
    assert SettledRecords(p, l, 1, 3) == [r2] by {
      EmptyUnit([r2]);
    }
    assert Settled(p, l, 0) == Some(ReadingOf(l, t0, clock(0)));
    assert SettledRecords(p, l, 0, 3) == [r0] + [r2];
    PairOf(r0, r2);
  }
}
