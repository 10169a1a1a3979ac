# NostaleScrapper core, modelled in Dafny

`nbv2.py` scrapes the listings of an in-game marketplace ("Bibi Basar"). For each
configured (category, subcategory) pair, one job does the following:
- opens a browser and submits the search;
- walks the result pages. On each page it reads every listing row, retrying rows
  whose DOM elements went stale;
- cleans the quantity and price texts into integers;
- appends each page's records to the `items` table;
- follows the "next" button until the listing ends.

Before any job starts, the program asks the operator to choose the current event.
It then resolves the category and subcategory names to their ids in the database,
inserting any that are missing.

The modules:

- `PyText` models the Python string built-ins the cleaners use:
  - `str.replace` (left to right, non-overlapping);
  - `str.strip` (Python's whitespace set);
  - `int()` on a `str`: surrounding whitespace, an optional sign, and ASCII
    digits with single underscores between them. The whitespace `int()` skips
    is narrower than what `str.strip` removes: it leaves U+001C..U+001F;
  - `str()` of an integer, used to state round trips.
- `Cleaners`: `clean_quantity` and `clean_price`. A Python value that is not a
  `str` is `NotStr`, and the result is `Option<int>`.
- `Browser`: the rendered listing page, reduced to the answers Selenium gives.
  The page may re-render between two questions, so each answer is indexed by the
  position of the question in the run:
  - the row list fetched before attempt `a` on row `i`;
  - the outcome of that attempt;
  - the instant stamped on row `i`.
- `Extractor`: `scrape_items_from_page`.
  - The nested retry loop is an imperative method, proved equal to a recursive
    function, `PageRecords`.
  - Lemmas about that function give: the retry policy, row order, record
    contents, the stable-page behaviour, and a fault discarding the page.
  - A record is formed in two steps. The ids are looked up when the row is read:
    a missing key ends the attempt with no record, as the generic handler does.
    The quantity and price are cleaned when the record is built. The cleaners
    never raise, so this gives the same dictionary as the source.
- `Pagination`: the page loop of `scrape_subcategory_data`, its exits and its
  `finally`.
  - The navigation block is a function of the outcome of each of its Selenium
    steps.
  - Persistence (`to_sql`) succeeds or raises, page by page.
- `EventPrompt`: the event-selection loop over the sequence of operator answers.
- `Dimensions`: the get-or-create loops.
  - The two tables are a `Database` class whose `seq` fields the insert methods
    extend, with IDENTITY counters.
  - `category_ids` and `subcategory_ids` are the maps the loops return.

Two behaviours of the code that are easy to miss. The model follows the code in
both.

- A page-level timeout or driver fault returns `[]` exactly as an empty page does
  (nbv2.py:213-224). This includes a driver fault while re-fetching the row list
  in the middle of a page, at any row and on any attempt, which also throws away
  the rows already read. The job then takes the empty page for the end of
  the listing and reports success (`Extractor.FaultDiscardsPage`,
  `Pagination.FaultOnSecondPageEndsAsSuccess`).
- The DDL (nbv2.py:446-464) declares no UNIQUE constraint on category or
  subcategory names. Uniqueness of the resolved rows is therefore
  proved only for the rows the loops add themselves (`Dimensions.CategoriesResolved`).
  A pre-existing duplicate is resolved to the first row a lookup returns.

## Model

| member | source | states |
|---|---|---|
| PyText.Replace | nbv2.py:94-106 | `str.replace` never lengthens a text when the replacement is no longer than the pattern |
| PyText.Strip | nbv2.py:106 | `str.strip()` gives a text no longer than its input that neither starts nor ends with whitespace |
| PyText.ParseInt | nbv2.py:94-107 | `int()` on a `str`; what it accepts and returns is stated by `PyText.ParseIntMeaning` |
| PyText.ParseIntMeaning | nbv2.py:94-107 | once the whitespace `int()` skips is trimmed, the text is accepted exactly when it is an optional sign followed by a digit body; the value is that of the body's digits with the underscores deleted, negated after a minus |
| PyText.ParseDigitsMeaning | nbv2.py:94 | `int()` accepts a digit body exactly when it is ASCII digits with single underscores between digits; its value is that of the digits with the underscores deleted |
| PyText.IntRoundTrip | nbv2.py:94 | `int()` reads back `str(n)` for every integer `n`, surrounded by any whitespace `int()` skips (not U+001C..U+001F) |
| PyText.ParseIntAlphabet | nbv2.py:94 | every character of a text `int()` accepts is whitespace, a sign, a digit or an underscore |
| PyText.ReplaceCharIsRemove | nbv2.py:94 | `replace(c, "")` with a one-character pattern deletes every occurrence of `c` |
| PyText.IntToStringParses | nbv2.py:94 | `int(str(n)) == n` for every integer `n` |
| PyText.NatRoundTrip | nbv2.py:94 | ASCII digits surrounded by whitespace `int()` skips (not U+001C..U+001F) parse to the value of the digits |
| PyText.NegativeRoundTrip | nbv2.py:94 | a minus sign followed by ASCII digits, surrounded by whitespace `int()` skips (not U+001C..U+001F), parses to minus the value of the digits |
| PyText.ParseAllDigits | nbv2.py:94 | a non-empty run of ASCII digits parses to its value |
| PyText.ParseSignedDigits | nbv2.py:94 | after stripping, digits with or without a leading minus give their value or its negation |
| PyText.ReplaceKeeps | nbv2.py:94 | a character that is not in the pattern survives `replace(pattern, "")` |
| PyText.ReplaceWhole | nbv2.py:105 | replacing a text that is exactly the pattern gives the replacement |
| PyText.LeadingSpacesMeaning | nbv2.py:106 | the whitespace run `strip()` removes at the front is all whitespace and stops at the first other character |
| PyText.TrailingSpacesMeaning | nbv2.py:106 | the whitespace run `strip()` removes at the end is all whitespace and stops at the last other character |
| PyText.StripInside | nbv2.py:106 | `strip()` only ever removes whitespace: every other character of the text survives |
| PyText.StripPadded | nbv2.py:106 | `strip()` removes exactly the whitespace padding around a text that neither starts nor ends with whitespace |
| PyText.StripIdempotent | nbv2.py:106 | stripping twice is stripping once |
| Cleaners.CleanQuantity | nbv2.py:88-97 | a value that is not a `str` gives `None` |
| Cleaners.CleanPrice | nbv2.py:100-110 | a value that is not a `str` gives `None` |
| Cleaners.QuantityIgnoresSpaces | nbv2.py:93-97 | the quantity is `int()` of the text with every space deleted, `None` when that fails |
| Cleaners.QuantityOfSpacedInteger | nbv2.py:93-94 | any text that spells the integer `n` once its spaces are deleted gives `n` |
| Cleaners.QuantityOfCleanText | nbv2.py:93-94 | `str(n)` gives back `n` |
| Cleaners.QuantityOfDigitsAndSpaces | nbv2.py:93-94 | digits with spaces anywhere, holding at least one digit, give the value of the digits |
| Cleaners.QuantityOfGroups | nbv2.py:93-94 | two digit groups separated by a space give the value of the joined digits |
| Cleaners.QuantityRejects | nbv2.py:93-97 | a character that no integer literal contains makes the quantity `None` |
| Cleaners.PriceOfGroupedDigits | nbv2.py:105-107 | digits grouped by spaces and commas, followed by nothing, "Gold" or "szt.", give the value of the digits |
| Cleaners.PriceOfGroups | nbv2.py:105-107 | two digit groups separated by a space, then a space and nothing, "Gold" or "szt.", give the value of the joined digits |
| Cleaners.PriceOfDigits | nbv2.py:105-107 | digits directly followed by nothing, "Gold" or "szt." give the value of the digits |
| Cleaners.PriceText | nbv2.py:105 | the cleaning chain of `clean_price`; its effect on grouped digits is stated by `Cleaners.PriceTextOfGroupedDigits` |
| Cleaners.PriceTextOfGroupedDigits | nbv2.py:105 | on digits, spaces and commas followed by a unit, the cleaning chain comes down to deleting the spaces and commas and stripping |
| Cleaners.DropUnitSpaces | nbv2.py:105 | deleting spaces from a text followed by a unit leaves the unit as it was |
| Cleaners.PriceRejects | nbv2.py:105-110 | a character that no integer literal contains and that the removed tokens cannot account for makes the price `None` |
| Cleaners.QuantityRejectsSeparator | nbv2.py:93-97 | `"\x1c5"` gives `None`: `int()` does not skip the information separators that `str.strip()` removes |
| Cleaners.PriceExampleGold | nbv2.py:100-107 | `"1 234 Gold"` gives 1234 |
| Cleaners.PriceExamplePieces | nbv2.py:100-107 | `"50szt."` gives 50 |
| Cleaners.PriceExampleWord | nbv2.py:100-110 | `"abc"` gives `None` |
| Cleaners.QuantityExample | nbv2.py:88-94 | `"1 234"` gives 1234 |
| Extractor.ScrapeItemsFromPage | nbv2.py:135-224 | the loop returns exactly the records the recursive function `PageRecords` assigns to the page |
| Extractor.ReadRow | nbv2.py:152-204 | the retry loop of one row ends as the recursive function `RowStep` says: aborted, or finished with the reading kept (if any) and the length of the row list fetched last |
| Extractor.HarvestStep | nbv2.py:150-209 | proof helper for `ScrapeItemsFromPage`: one pass of the outer loop: an aborted row aborts the page; otherwise the row's reading, if any, comes first and the rest of the page follows from the next index with the new row count, which stays within the page's bound |
| Extractor.RowStepBounded | nbv2.py:152-159 | the row list length the attempts on one row leave behind stays within the page's bound, so the outer loop ends |
| Extractor.RowStepKept | nbv2.py:152-204 | a row yields a reading exactly when one of its first three attempts reads it after stale attempts only; only staleness leads to another attempt |
| Extractor.RowStepAborts | nbv2.py:152-224 | the page is aborted exactly when the re-fetch before an attempt that is made raises |
| Extractor.HarvestInRowOrder | nbv2.py:150-209 | the rows from index `i` on yield entries in strictly increasing row order, at most one per row, each kept by the retry policy |
| Extractor.PageInRowOrder | nbv2.py:150-209 | the page's entries come in strictly increasing row order, at most one per row, each kept by the retry policy, so there are at most as many records as the page's bound |
| Extractor.PageRecordsRead | nbv2.py:150-199 | each record was read by one of the first three attempts on its row, after stale ones only, and carries `category_ids[category_name]`, `subcategory_ids[(category_name, subcategory_name)]`, that read's name and time remaining, its cleaned quantity and price, the row's timestamp and the event |
| Extractor.MakeRecord | nbv2.py:178-189 | the dictionary appended for a kept row; its fields are stated by `Extractor.KeptFields` |
| Extractor.KeptFields | nbv2.py:176-189 | the record built from a kept reading has exactly the fields of the dictionary the source appends |
| Extractor.EmptyPages | nbv2.py:141-148 | a page whose rows never appear, or whose first row list is empty or cannot be read, yields no records |
| Extractor.StableHarvest | nbv2.py:150-209 | on a page whose row list keeps `n` rows, the rows from `i` on yield exactly the records the retry policy settles on, in order |
| Extractor.StablePage | nbv2.py:150-211 | on such a page, the records are those of rows `0 .. n - 1` that the retry policy settles on a read, in row order |
| Extractor.SettledReadRows | nbv2.py:150-199 | when both ids are known and every row from `i` up to `n` is read on its first attempt, the retry policy settles on one record per row |
| Extractor.FullPage | nbv2.py:150-209 | when both ids are known, a page whose `n` rows stay put and are each read on the first attempt yields `n` records |
| Extractor.FaultDiscardsPage | nbv2.py:150-224 | a driver fault while re-fetching the row list, at any row the outer loop reaches and on any attempt that is made, after any change in the row count, empties the whole page, rows already read included |
| Extractor.StableFaultDiscardsPage | nbv2.py:150-224 | on a page whose row list keeps `n` rows for the rows before `i`, a fault on any re-fetch the loop makes for row `i`, stale attempts before it included, empties the whole page |
| Extractor.LateFaultDiscardsPage | nbv2.py:150-224 | a page that reads row 0, shrinks, then raises on the second attempt at row 1 yields no records, although row 0 was read |
| Extractor.StaleRowIsSkipped | nbv2.py:152-209 | a row read on its third attempt is kept, a row stale three times is skipped, and the page still yields the other rows |
| Pagination.FirstFault | nbv2.py:364-387 | the first exception the navigation block raises; which one it can be is stated by `Pagination.FirstFaultRaised` |
| Pagination.FirstFaultRaised | nbv2.py:364-387 | the exception that ends the navigation block is raised by one of its steps, and a missing old row is never it |
| Pagination.Navigate | nbv2.py:364-400 | the navigation block; when it advances is stated by `Pagination.NavigateMeaning` |
| Pagination.Classify | nbv2.py:389-400 | a navigation exception never advances; it ends the listing exactly when it is a missing element or a timeout, and fails the job otherwise |
| Pagination.NavigateMeaning | nbv2.py:364-387 | navigation advances exactly when every step it runs succeeds; a missing old row is the one tolerated fault, and it skips the staleness wait |
| Pagination.PaginateStep | nbv2.py:336-400 | proof helper for `PaginateListing`: one pass of the loop: an empty page ends with success; otherwise the page's batch is stored if `to_sql` succeeds, then the navigation outcome continues, ends or fails the loop |
| Pagination.PaginateListing | nbv2.py:334-403 | the loop returns the verdict, stored records and final `current_page` of the recursive function `Paginate` from page 1 |
| Pagination.ScrapeSubcategoryData | nbv2.py:232-424 | the job's result equals `Job`; the browser is quit on every exit exactly when it was created |
| Pagination.PaginateReaches | nbv2.py:334-403 | the page counter never goes back, and every page before the last one reached was non-empty and advanced from |
| Pagination.PaginateStops | nbv2.py:334-403 | the loop stops on an empty page or a failed advance; it succeeds exactly when it stopped on an empty page or at the end of the listing |
| Pagination.PaginateStores | nbv2.py:339-358 | the records stored are the persisted batches of the pages read, from the first to the last one reached, in page order, and nothing else |
| Pagination.JobOutcome | nbv2.py:232-416 | the job succeeds exactly when the search succeeded and pagination ended normally; a failed set-up stores nothing; otherwise the stored records are the persisted batches of pages 1 to the last one reached |
| Pagination.PersistenceIndependent | nbv2.py:341-358 | whether `to_sql` succeeds changes neither the verdict nor how far pagination goes |
| Pagination.TwoFullPagesThenEmpty | nbv2.py:334-403 | when both ids are known, two pages whose three rows stay put and are each read on the first attempt, then a page with no rows: success, six records stored in two batches, stopped on page 3 |
| Pagination.FaultOnSecondPageEndsAsSuccess | nbv2.py:213-220 | a driver fault on any re-fetch of page 2's row list the loop makes ends the job with success, having stored only page 1 |
| EventPrompt.SelectEvent | nbv2.py:432-442 | the prompt loop's outcome is the recursive function `Select` of the answers |
| EventPrompt.ChooseChosenIff | nbv2.py:432-442 | over the readings, a choice is made exactly when some reading is in range |
| EventPrompt.ChooseFirst | nbv2.py:432-442 | over the readings, a choice is the first reading in range and the event it numbers |
| EventPrompt.SelectChosenIff | nbv2.py:432-442 | the prompt ends with a choice exactly when some answer parses to a number in `1..len(events_list)` |
| EventPrompt.SelectChoice | nbv2.py:432-442 | a choice is a number in `1..len(events_list)` naming `events_list[number - 1]`, parsed from the first accepted answer, every earlier answer having been rejected |
| EventPrompt.SeparatorRejected | nbv2.py:432-442 | `"\x1c7"` is not a number to `int()`, so the prompt asks again |
| EventPrompt.WordZeroSeven | nbv2.py:432-442 | a word, then 0, then 7 selects the seventh event of any list of at least seven |
| EventPrompt.WordZeroSevenOnEventsList | nbv2.py:72-84 | the same answers select the seventh entry of the program's own list of events |
| Dimensions.FindCategory | nbv2.py:525-528 | the `SELECT id FROM categories WHERE name = ?` lookup; what it finds is stated by `Dimensions.FindCategoryMeaning` |
| Dimensions.FindSubcategory | nbv2.py:541-544 | the `SELECT id FROM subcategories WHERE name = ? AND category_id = ?` lookup; what it finds is stated by `Dimensions.FindSubcategoryMeaning` |
| Dimensions.CategoryIndex | nbv2.py:526-528 | a position within the table, where the row has the given name unless it is the table's length |
| Dimensions.CategoryIndexFirst | nbv2.py:526-528 | no row before that position has the name, so it is the first match |
| Dimensions.SubcategoryIndex | nbv2.py:541-543 | a position within the table, where the row has the given name and category id unless it is the table's length |
| Dimensions.SubcategoryIndexFirst | nbv2.py:541-543 | no row before that position has the name under that category id |
| Dimensions.FindCategoryMeaning | nbv2.py:526-528 | the lookup finds nothing exactly when no row has the name; otherwise it finds the id of an existing row |
| Dimensions.FindSubcategoryMeaning | nbv2.py:541-543 | the lookup finds nothing exactly when no row has the name under that category id |
| Dimensions.FindCategoryAppend | nbv2.py:523-536 | rows added after the existing ones never change what a successful lookup finds |
| Dimensions.FindSubcategoryAppend | nbv2.py:538-553 | rows added after the existing ones never change what a successful lookup finds |
| Dimensions.Database.constructor | nbv2.py:446-464 | new tables are empty and their identities start at 1 |
| Dimensions.Database.InsertCategory | nbv2.py:530-533 | appends one row carrying the next identity, which it returns, and changes nothing else |
| Dimensions.Database.InsertSubcategory | nbv2.py:548-551 | appends one row under an existing category, carrying the next identity, which it returns, and changes nothing else |
| Dimensions.GetOrCreateCategory | nbv2.py:526-533 | a found row's id is returned and nothing is inserted; otherwise exactly one row with the name is appended; the subcategory table is untouched |
| Dimensions.ResolvedCategory | nbv2.py:524-536 | one get-or-create, then recording its id under the name, keeps the resolution invariant |
| Dimensions.ReuseCategory | nbv2.py:534-536 | recording a name that the lookup found keeps the resolution invariant |
| Dimensions.InsertedCategory | nbv2.py:529-533 | inserting a name the lookup missed, and recording its new id, keeps the resolution invariant |
| Dimensions.ResolveCategories | nbv2.py:523-536 | `category_ids` has exactly the configured names; each maps to the first row of that name; ids of existing rows are reused; a row is added only for a name that was absent, once per name; the subcategories are untouched |
| Dimensions.GetOrCreateSubcategory | nbv2.py:541-551 | a found row's id is returned and nothing is inserted; otherwise exactly one row is appended and its id returned |
| Dimensions.ReuseSubcategory | nbv2.py:541-546 | recording a pair that the lookup found keeps the resolution invariant |
| Dimensions.InsertedSubcategory | nbv2.py:547-551 | inserting a pair the lookup missed, and recording its new id, keeps the resolution invariant |
| Dimensions.ResolvedPair | nbv2.py:541-553 | one get-or-create, then recording its id under the pair, keeps the resolution invariant |
| Dimensions.ResolveEntry | nbv2.py:540-553 | the pairs of one category are added to `subcategory_ids` and the resolution invariant is kept |
| Dimensions.ResolveSubcategories | nbv2.py:538-553 | `subcategory_ids` has exactly the configured pairs; each maps to the first row of that name under its category's id; existing ids are reused; rows are added only for missing pairs, once each; the categories are untouched |
| Dimensions.DistinctCategoriesGetDistinctIds | nbv2.py:523-536 | two different names never resolve to the same category id |
| Dimensions.DistinctSubcategoriesGetDistinctIds | nbv2.py:538-553 | two different (name, category) keys never resolve to the same subcategory id |
| Dimensions.CategoriesSettled | nbv2.py:523-536 | when every name was already present, resolution inserts nothing, so a second start-up leaves the table unchanged |
| Dimensions.SubcategoriesSettled | nbv2.py:538-553 | when every pair was already present, resolution inserts nothing |
| Dimensions.ConfiguredKeys | nbv2.py:503-521 | the configured dictionaries give the names and pairs in loop order |
| Dimensions.ResolveDimensions | nbv2.py:503-553 | after both loops every configured category and pair has an id, so the jobs' lookups cannot raise `KeyError` |

## Left out

- Browser creation, the user-agent choice, the anti-detection scripts and the
  search form (nbv2.py:232-332). These are foreign Selenium calls. Their outcome
  is the three-way `Pagination.Setup`: the browser is not created, the search
  raises, or the first results appear.
- `human_click` (nbv2.py:114-132). It is randomised mouse movement. A click is one
  navigation step that succeeds or raises.
- Every `time.sleep` and the waiting itself of `WebDriverWait`. A wait appears
  only through its outcome.
- `datetime.now()`. It is an opaque `Timestamp` supplied per row.
- Logging and the console output of the prompt.
- Configuration and connection set-up (nbv2.py:28-59) and the schema DDL
  (nbv2.py:444-501). The DDL is SQL run by the server.
- `pandas.to_sql`. It is a per-page success or failure. A batch that fails after a
  partial write is not modelled: a failed batch stores nothing.
- The thread pool and the start delays between jobs (nbv2.py:557-587). Jobs are
  independent in the model, and concurrent get-or-create races are not modelled.
- Extractor.ScrapeItemsFromPage: needs every row count the page reports to stay
  within a bound (`Browser.Bounded`). The source loops forever on a page that
  keeps growing; the model does not cover that run.
- Pagination.ScrapeSubcategoryData: needs navigation never to advance past a page
  `lastPage` (`Pagination.Finite`). The source loops forever on an endless
  listing; the model does not cover that run.
- PyText.ParseInt: covers ASCII digits only. Python's `int()` also accepts other
  Unicode decimal digits, and it refuses texts over 4300 digits; neither is
  modelled.
- EventPrompt.SelectEvent: models the end of input as `InputExhausted`. In the
  source, `input()` raises `EOFError` there, which nothing catches, so the program
  stops.
- Dimensions.FindCategory: takes the first row in table order when several rows
  match. SQL without `ORDER BY` may return any of them. It also compares names
  with exact equality. SQL Server's `=` on `NVARCHAR` ignores trailing spaces,
  and under a case-insensitive collation it ignores case. So a configured
  "Składniki " would reuse the row "Składniki" in the source but insert a new
  row in the model.
- Dimensions.FindSubcategory: same choices as `FindCategory`: the first match in
  table order, and exact equality of names.
- Dimensions.Database.InsertCategory: draws identities from a counter that grows
  by one. SQL Server may skip identity values; nothing proved depends on the
  absence of gaps.
- Dimensions.Database.InsertSubcategory: the foreign key is a precondition. The
  loops only ever pass a resolved category id.
- Dimensions.ResolveSubcategories: needs `category_ids` to hold every category
  that has subcategories. The source raises `KeyError` otherwise, and the
  configured dictionaries rule that out (`Dimensions.ResolveDimensions`).
