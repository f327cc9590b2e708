/**
 * The records the scraper works on: one arXiv feed entry, the query the form
 * submits, and the sequence helpers the scraper needs (last element, reversal,
 * order-preserving subsequence).
 */
module Feed {
  import opened Wrappers

  /**
   * One `<entry>` of an arXiv Atom feed, as the text the source reads out of it.
   * `published` is the publish time as a number (what `getTime()` gives for the
   * entry's `<published>` text); `authors` holds the text content of each
   * `<author>` element and `links` the `href` of each `<link>` element, in
   * document order. The texts are untrimmed.
   */
  datatype Entry = Entry(
    title: string,
    published: int,
    authors: seq<string>,
    summary: string,
    links: seq<string>)

  /**
   * A submitted query. A date is None when its form field was blank, so a
   * date range is given exactly when both dates are Some.
   */
  datatype Query = Query(
    topic: string,
    limit: nat,
    startDate: Option<int>,
    endDate: Option<int>)

  /** The largest limit the form lets through. */
  const MAX_RESULT_LIMIT: nat := 1000

  /**
   * What a query built from an accepted form satisfies: a topic, a limit in
   * 1..MAX_RESULT_LIMIT, and either no date range or one whose start lies
   * strictly before its end.
   */
  predicate WellFormed(q: Query) {
    q.topic != [] &&
    1 <= q.limit <= MAX_RESULT_LIMIT &&
    (q.startDate.Some? <==> q.endDate.Some?) &&
    (q.startDate.Some? ==> q.startDate.value < q.endDate.value)
  }

  function Last<T>(s: seq<T>): T
    requires s != []
  {
    s[|s| - 1]
  }

  /** The elements of `s` in the opposite order, as `Array.prototype.reverse` leaves them. */
  function Reverse<T>(s: seq<T>): (r: seq<T>)
    ensures |r| == |s|
    ensures forall i :: 0 <= i < |s| ==> r[i] == s[|s| - 1 - i]
  {
    if s == [] then [] else Reverse(s[1..]) + [s[0]]
  }

  /** `a` is obtained from `b` by deleting elements, without reordering the rest. */
  predicate IsSubsequence<T(==)>(a: seq<T>, b: seq<T>)
    decreases |b|
  {
    a == [] ||
    (b != [] &&
     ((a[0] == b[0] && IsSubsequence(a[1..], b[1..])) || IsSubsequence(a, b[1..])))
  }
}
