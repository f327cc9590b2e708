/**
 * `scrapeArXiv`: fetch the newest `limit` entries for the topic; when a date
 * range is given, page backwards until the listing reaches the start of the
 * range, then filter the last two pages to the range.
 */
module Scraper {
  import opened Wrappers
  import opened Feed
  import opened Pagination
  import opened DateWindow

  /** The cursor pagination starts from: offset 0 and the first page. */
  function FirstCursor(first: seq<Entry>): (c: Cursor)
    requires first != []
    ensures Coherent(c) && c.current == first && c.previous == [] && c.start == 0
  {
    Cursor(0, [], first, Last(first).published)
  }

  /** Whether the query asks for a date range and the first page gives pagination something to start from. */
  predicate Paginates(q: Query, first: seq<Entry>) {
    first != [] && q.startDate.Some? && q.endDate.Some?
  }

  /**
   * The entries `scrapeArXiv` hands to `parseData` for query `q` against
   * page source `src`.
   */
  function Scraped(q: Query, src: PageSource, horizon: nat): seq<Entry>
    requires Exhausted(src, horizon)
  {
    var first := src(0, q.limit, 0);
    if Paginates(q, first) then
      var w := Walk(src, horizon, q.startDate.value, FirstCursor(first));
      Window(Reverse(w.previous + w.current), w.oldest, q.startDate.value, q.endDate.value, q.limit)
    else first
  }

  /**
   * The pagination loop of the scraper, from the first page on. `horizon`
   * is a proof device only: the source has nothing at or beyond it, which is
   * what makes the loop finish.
   */
  method Paginate(src: PageSource, ghost horizon: nat, startDate: int, first: seq<Entry>)
    returns (c: Cursor)
    requires Exhausted(src, horizon)
    requires first != [] && 0 < horizon
    ensures c == Walk(src, horizon, startDate, FirstCursor(first))
  {
    var start: nat := 0;
    var results := first;
    var publishDate := Last(results).published;
    var previousResults := [];
    while results != [] && publishDate > startDate
      invariant results != [] ==> start < horizon
      invariant Walk(src, horizon, startDate, Cursor(start, previousResults, results, publishDate))
                == Walk(src, horizon, startDate, FirstCursor(first))
      decreases if results == [] then 0 else horizon - start
    {
      ghost var here := Cursor(start, previousResults, results, publishDate);
      start := start + |results|;
      previousResults := results;
      var retries;
      results, retries := FetchWithRetry(src, start);
      WalkFetched(src, horizon, startDate, here, results, retries);
      if results != [] {
        publishDate := Last(results).published;
      }
    }
    c := Cursor(start, previousResults, results, publishDate);
  }

  /**
   * The scraper: the first request, pagination when a date range is given,
   * then the filter scan over the last two pages, oldest first.
   */
  method Scrape(q: Query, src: PageSource, ghost horizon: nat) returns (results: seq<Entry>)
    requires Exhausted(src, horizon)
    ensures results == Scraped(q, src, horizon)
  {
    results := src(0, q.limit, 0);
    if results != [] && q.startDate.Some? && q.endDate.Some? {
      assert 0 < horizon;
      var c := Paginate(src, horizon, q.startDate.value, results);
      results := c.previous + c.current;
      results := Reverse(results);
      results := FilterWindow(results, c.oldest, q.startDate.value, q.endDate.value, q.limit);
    }
  }

  /**
   * Without a date range, or when the first page is empty, the first page is
   * the result, exactly as the API returned it.
   */
  lemma FirstPageUnchanged(q: Query, src: PageSource, horizon: nat)
    requires Exhausted(src, horizon)
    requires src(0, q.limit, 0) == [] || q.startDate.None? || q.endDate.None?
    ensures Scraped(q, src, horizon) == src(0, q.limit, 0)
  {
  }

  /**
   * With a date range: at most `limit` entries, each published at or after
   * the start date, in oldest-first order drawn from the last two pages
   * fetched, and only the last of them may lie after the end date. When the
   * oldest entry pagination saw is already after the end date, nothing is
   * kept.
   */
  lemma DatedResult(q: Query, src: PageSource, horizon: nat)
    requires Exhausted(src, horizon)
    requires Paginates(q, src(0, q.limit, 0))
    ensures var w := Walk(src, horizon, q.startDate.value, FirstCursor(src(0, q.limit, 0)));
            var r := Scraped(q, src, horizon);
            |r| <= q.limit &&
            (forall e :: e in r ==> e.published >= q.startDate.value) &&
            IsSubsequence(r, Reverse(w.previous + w.current)) &&
            LateOnlyAtEnd(r, q.endDate.value) &&
            (w.oldest > q.endDate.value ==> r == [])
  {
    var first := src(0, q.limit, 0);
    var w := Walk(src, horizon, q.startDate.value, FirstCursor(first));
    var xs := Reverse(w.previous + w.current);
    WindowSinceStart(xs, w.oldest, q.startDate.value, q.endDate.value, q.limit);
    WindowSubsequence(xs, w.oldest, q.startDate.value, q.endDate.value, q.limit);
    WindowOvershootsByOne(xs, w.oldest, q.startDate.value, q.endDate.value, q.limit);
  }

  /**
   * The filter's first loop test reads the oldest of the merged entries: the
   * publish time pagination last recorded is the front of the reversed
   * sequence.
   */
  lemma FilterSeedIsOldest(q: Query, src: PageSource, horizon: nat)
    requires Exhausted(src, horizon)
    requires Paginates(q, src(0, q.limit, 0))
    ensures var w := Walk(src, horizon, q.startDate.value, FirstCursor(src(0, q.limit, 0)));
            var xs := Reverse(w.previous + w.current);
            xs != [] && xs[0].published == w.oldest
  {
    var first := src(0, q.limit, 0);
    var w := Walk(src, horizon, q.startDate.value, FirstCursor(first));
    WalkCoherent(src, horizon, q.startDate.value, FirstCursor(first));
    OldestFirst(w);
  }

  /**
   * With a date range, the merged sequence is two consecutive pages: after
   * the loop has run, the current page was fetched at the final offset and
   * the previous page just before it, so entries of earlier pages are not
   * part of the result.
   */
  lemma MergesLastTwoPages(q: Query, src: PageSource, horizon: nat)
    requires Exhausted(src, horizon)
    requires Paginates(q, src(0, q.limit, 0))
    requires Last(src(0, q.limit, 0)).published > q.startDate.value
    ensures var first := src(0, q.limit, 0);
            var w := Walk(src, horizon, q.startDate.value, FirstCursor(first));
            w.start >= |first| && w.previous != [] &&
            w.current == Retried(src, w.start, 0).page &&
            (w.start == |w.previous| ==> w.previous == first) &&
            (w.start > |w.previous| ==> w.previous == Retried(src, w.start - |w.previous|, 0).page)
  {
    WalkPages(src, horizon, q.startDate.value, FirstCursor(src(0, q.limit, 0)));
  }

  /** A topic with no entries at all gives an empty result. */
  lemma NothingFound(q: Query, src: PageSource)
    requires forall offset: nat, size: nat, attempt: nat :: src(offset, size, attempt) == []
    ensures Exhausted(src, 0) && Scraped(q, src, 0) == []
  {
  }
}
