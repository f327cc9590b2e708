/**
 * Backward pagination through the arXiv listing, newest first, with a bounded
 * retry of empty pages. The HTTP request and the XML parsing are replaced by a
 * page source: a function from (offset, page size, attempt) to the entries of
 * that page, newest first.
 */
module Pagination {
  import opened Feed

  /** Page size of every page after the first. */
  const STEP_SIZE: nat := 500

  /** How many times an empty page is requested again before it is taken as the end. */
  const MAX_RETRIES: nat := 5

  /**
   * The search API for the query's topic. `attempt` counts the requests
   * already made at that offset in the current retry round, so a source may
   * answer a request with an empty page and a later one with data.
   */
  type PageSource = (nat, nat, nat) -> seq<Entry>

  /** Every request at an offset from `horizon` on returns an empty page. */
  ghost predicate Exhausted(src: PageSource, horizon: nat) {
    forall offset: nat, size: nat, attempt: nat ::
      offset >= horizon ==> src(offset, size, attempt) == []
  }

  /** The page a retry round ends with, and the number of retries it took. */
  datatype Fetched = Fetched(retries: nat, page: seq<Entry>)

  /**
   * The retry round at `offset` from attempt `attempt` on: the first
   * non-empty page among the attempts up to MAX_RETRIES, or the empty page of
   * the last attempt.
   */
  function Retried(src: PageSource, offset: nat, attempt: nat): (r: Fetched)
    requires attempt <= MAX_RETRIES
    ensures attempt <= r.retries <= MAX_RETRIES
    ensures r.page == src(offset, STEP_SIZE, r.retries)
    ensures forall a :: attempt <= a < r.retries ==> src(offset, STEP_SIZE, a) == []
    ensures r.page != [] || r.retries == MAX_RETRIES
    decreases MAX_RETRIES - attempt
  {
    var page := src(offset, STEP_SIZE, attempt);
    if page == [] && attempt < MAX_RETRIES then Retried(src, offset, attempt + 1)
    else Fetched(attempt, page)
  }

  /**
   * Requests the page at `offset` and requests it again, up to MAX_RETRIES
   * more times, while it comes back empty.
   */
  method FetchWithRetry(src: PageSource, offset: nat) returns (page: seq<Entry>, retries: nat)
    ensures retries <= MAX_RETRIES
    ensures page == src(offset, STEP_SIZE, retries)
    ensures forall a :: 0 <= a < retries ==> src(offset, STEP_SIZE, a) == []
    ensures page != [] || retries == MAX_RETRIES
    ensures Fetched(retries, page) == Retried(src, offset, 0)
  {
    page := src(offset, STEP_SIZE, 0);
    retries := 0;
    while retries < MAX_RETRIES && page == []
      invariant retries <= MAX_RETRIES
      invariant page == src(offset, STEP_SIZE, retries)
      invariant forall a :: 0 <= a < retries ==> src(offset, STEP_SIZE, a) == []
      invariant Retried(src, offset, retries) == Retried(src, offset, 0)
    {
      page := src(offset, STEP_SIZE, retries + 1);
      retries := retries + 1;
    }
  }

  /**
   * A source that answers `n` requests at `offset` with empty pages and then
   * with data yields that data exactly when `n` is at most MAX_RETRIES;
   * otherwise the round ends with an empty page.
   */
  lemma RetryBound(src: PageSource, offset: nat, n: nat)
    requires forall a :: 0 <= a < n ==> src(offset, STEP_SIZE, a) == []
    requires src(offset, STEP_SIZE, n) != []
    ensures n <= MAX_RETRIES ==> Retried(src, offset, 0) == Fetched(n, src(offset, STEP_SIZE, n))
    ensures n > MAX_RETRIES ==> Retried(src, offset, 0).page == []
  {
  }

  /**
   * The pagination loop's variables at its head: the offset of the current
   * page, the page before it, the current page, and the publish time the loop
   * tests against the start of the date range.
   */
  datatype Cursor = Cursor(start: nat, previous: seq<Entry>, current: seq<Entry>, oldest: int)

  /** `oldest` is the publish time of the last (oldest) entry of the latest non-empty page. */
  predicate Coherent(c: Cursor) {
    (c.current != [] ==> c.oldest == Last(c.current).published) &&
    (c.current == [] ==> c.previous != [] && c.oldest == Last(c.previous).published)
  }

  /**
   * The pagination loop from cursor `c`: while the current page is non-empty
   * and its oldest entry is newer than `startDate`, move the offset past the
   * current page, keep the current page as the previous one (dropping the one
   * before) and fetch the next page with retries.
   */
  function Walk(src: PageSource, horizon: nat, startDate: int, c: Cursor): (r: Cursor)
    requires Exhausted(src, horizon)
    requires c.current != [] ==> c.start < horizon
    // the loop ends with an empty page or with one reaching back to startDate
    ensures r.current == [] || r.oldest <= startDate
    // a cursor that already fails the loop test is the result
    ensures (c.current == [] || c.oldest <= startDate) ==> r == c
    decreases if c.current == [] then 0 else horizon - c.start
  {
    if c.current == [] || c.oldest <= startDate then c
    else Walk(src, horizon, startDate, Advance(src, c))
  }

  /** The step the loop takes from a cursor that passes its test. */
  function Advance(src: PageSource, c: Cursor): (d: Cursor)
    requires c.current != []
    ensures d.start == c.start + |c.current| && d.start > c.start
    ensures d.previous == c.current && d.current == Retried(src, d.start, 0).page
  {
    var next := c.start + |c.current|;
    var f := Retried(src, next, 0);
    Cursor(next, c.current, f.page, if f.page != [] then Last(f.page).published else c.oldest)
  }

  /** One turn of the loop: a fetched page lies below the horizon, and the walk goes on from there. */
  lemma WalkStep(src: PageSource, horizon: nat, startDate: int, c: Cursor)
    requires Exhausted(src, horizon)
    requires c.current != [] && c.start < horizon && c.oldest > startDate
    ensures Advance(src, c).current != [] ==> Advance(src, c).start < horizon
    ensures Walk(src, horizon, startDate, c) == Walk(src, horizon, startDate, Advance(src, c))
  {
    var d := Advance(src, c);
    var f := Retried(src, d.start, 0);
    assert d.current == f.page == src(d.start, STEP_SIZE, f.retries);
  }

  /**
   * WalkStep for a page the caller fetched itself: given the fetch at the
   * next offset, the walk from the cursor built from it is the same walk.
   */
  lemma WalkFetched(src: PageSource, horizon: nat, startDate: int, c: Cursor, page: seq<Entry>, retries: nat)
    requires Exhausted(src, horizon)
    requires c.current != [] && c.start < horizon && c.oldest > startDate
    requires Fetched(retries, page) == Retried(src, c.start + |c.current|, 0)
    ensures page != [] ==> c.start + |c.current| < horizon
    ensures var d := Cursor(c.start + |c.current|, c.current, page,
                            if page != [] then Last(page).published else c.oldest);
            Walk(src, horizon, startDate, d) == Walk(src, horizon, startDate, c)
  {
    WalkStep(src, horizon, startDate, c);
  }

  /** Each turn keeps `oldest` equal to the publish time of the oldest entry of the latest non-empty page. */
  lemma {:induction false} WalkCoherent(src: PageSource, horizon: nat, startDate: int, c: Cursor)
    requires Exhausted(src, horizon)
    requires c.current != [] ==> c.start < horizon
    requires Coherent(c)
    ensures Coherent(Walk(src, horizon, startDate, c))
    decreases if c.current == [] then 0 else horizon - c.start
  {
    if c.current != [] && c.oldest > startDate {
      WalkStep(src, horizon, startDate, c);
      WalkCoherent(src, horizon, startDate, Advance(src, c));
    }
  }

  /**
   * Once the loop has run, the offset has moved past the first page and the
   * last two pages are consecutive: `previous` at offset
   * r.start - |r.previous|, `current` right after it, each the outcome of a
   * retry round (or `previous` the page the walk began with).
   */
  lemma {:induction false} WalkPages(src: PageSource, horizon: nat, startDate: int, c: Cursor)
    requires Exhausted(src, horizon)
    requires c.current != [] && c.start < horizon && c.oldest > startDate
    ensures var r := Walk(src, horizon, startDate, c);
            r.start >= c.start + |c.current| &&
            r.previous != [] &&
            r.current == Retried(src, r.start, 0).page &&
            r.start - |r.previous| >= c.start &&
            (r.start - |r.previous| == c.start ==> r.previous == c.current) &&
            (r.start - |r.previous| > c.start ==>
               r.previous == Retried(src, r.start - |r.previous|, 0).page)
    decreases horizon - c.start
  {
    WalkStep(src, horizon, startDate, c);
    var d := Advance(src, c);
    if d.current != [] && d.oldest > startDate {
      WalkPages(src, horizon, startDate, d);
    }
  }

  /**
   * Once the loop has run, reversing the last two pages puts the entry whose
   * publish time the loop last tested at the front.
   */
  lemma OldestFirst(c: Cursor)
    requires Coherent(c)
    ensures Reverse(c.previous + c.current) != []
    ensures Reverse(c.previous + c.current)[0].published == c.oldest
  {
    var merged := c.previous + c.current;
    if c.current != [] {
      assert Last(merged) == Last(c.current);
    } else {
      assert merged == c.previous;
    }
  }
}
