/** The rendered listing page as the scraper sees it through Selenium,
    reduced to the answers the browser gives. The page may re-render between
    two questions, so every answer is indexed by the position of the question
    in the run: the program is deterministic, so this covers any behaviour of
    the live page. */
module Browser {

  /** A `find_elements(By.CLASS_NAME, "item")` call: how many rows it found,
      or a driver fault (`WebDriverException`). */
  datatype Fetch = Rows(count: nat) | FetchFault

  /** A bounded wait (`WebDriverWait(...).until(...)`), by its outcome. */
  datatype Wait = Present | WaitTimeout | WaitFault

  /** The visible texts of a row's name, quantity, price and time-remaining
      elements. Selenium's `.text` is always a string. */
  datatype RowTexts = RowTexts(name: string, quantity: string, price: string, timeRemaining: string)

  /** One attempt at locating a row's four sub-elements and reading their
      texts: the texts, or the exception it raised. */
  datatype RowRead =
    | Read(texts: RowTexts)
    | Stale        // StaleElementReferenceException
    | NotFound     // NoSuchElementException
    | Timeout      // TimeoutException of a sub-element wait
    | OtherFault   // any other exception

  /** `datetime.now()`: an opaque instant. */
  datatype Timestamp = Timestamp(ticks: int)

  /** One listing page.
      - `ready`: the initial wait for at least one row (nbv2.py:141);
      - `first`: the first row list (nbv2.py:145);
      - `fetch(i, a)`: the row list re-fetched before attempt `a` on row `i` (nbv2.py:155);
      - `read(i, a)`: attempt `a` at reading row `i` (nbv2.py:164-176);
      - `clock(i)`: the instant row `i` is stamped with (nbv2.py:187);
      - `maxRows`: a bound on every row count the page ever reports. */
  datatype Page = Page(
    ready: Wait,
    first: Fetch,
    fetch: (nat, nat) -> Fetch,
    read: (nat, nat) -> RowRead,
    clock: nat -> Timestamp,
    maxRows: nat)

  /** No row list is longer than `maxRows`. The extraction loop re-tests its
      bound against each re-fetched list, so it ends only on such a page. */
  ghost predicate Bounded(p: Page) {
    && (p.first.Rows? ==> p.first.count <= p.maxRows)
    && forall i, a :: p.fetch(i, a).Rows? ==> p.fetch(i, a).count <= p.maxRows
  }
}
