/**
 * `parseData`, which turns each scraped entry into one row of the result
 * table (the rows the CSV export and the entry views use), and the preview
 * that shows only the first rows on the page.
 */
module Export {
  import opened Wrappers
  import opened Feed
  import opened Text

  /** One result row: trimmed texts with double quotes replaced by single quotes. */
  datatype Row = Row(title: string, published: int, authors: string, summary: string, link: string)

  /** What sits between author names in a row. */
  const AUTHOR_SEPARATOR: string := ", "

  /** How many rows the page shows. */
  const MAX_TOP_MATCHES: nat := 20

  /** A field as `parseData` stores it: `text.trim().replace(/"/g, "'")`. */
  function Clean(text: string): string {
    Sanitise(Trim(text))
  }

  /** Each author's text, trimmed. */
  function TrimAll(texts: seq<string>): (r: seq<string>)
    ensures |r| == |texts|
  {
    if texts == [] then [] else [Trim(texts[0])] + TrimAll(texts[1..])
  }

  /** `TrimAll` trims each text: one trimmed text per input text, in order. */
  lemma {:induction false} TrimAllEach(texts: seq<string>)
    ensures forall j :: 0 <= j < |texts| ==> TrimAll(texts)[j] == Trim(texts[j])
  {
    if texts != [] {
      var rest := TrimAll(texts[1..]);
      assert TrimAll(texts) == [Trim(texts[0])] + rest;
      TrimAllEach(texts[1..]);
      forall j | 1 <= j < |texts|
        ensures TrimAll(texts)[j] == Trim(texts[j])
      {
        assert texts[j] == texts[1..][j - 1];
      }
    }
  }

  /** The authors field: the trimmed names joined with AUTHOR_SEPARATOR, quotes replaced. */
  function AuthorsField(authors: seq<string>): string {
    Sanitise(Join(TrimAll(authors), AUTHOR_SEPARATOR))
  }

  /**
   * The row for one entry, or None when the entry has no second link (the
   * canonical paper URL): reading it then fails.
   */
  function ToRow(e: Entry): Option<Row> {
    if |e.links| < 2 then None
    else Some(Row(Clean(e.title), e.published, AuthorsField(e.authors), Clean(e.summary), Clean(e.links[1])))
  }

  /** The inner loop of `parseData`: each author's text, trimmed, in order. */
  method AuthorNames(authors: seq<string>) returns (names: seq<string>)
    ensures names == TrimAll(authors)
  {
    names := [];
    for j := 0 to |authors|
      invariant names + TrimAll(authors[j..]) == TrimAll(authors)
    {
      assert TrimAll(authors[j..]) == [Trim(authors[j])] + TrimAll(authors[j + 1..]);
      names := names + [Trim(authors[j])];
    }
    assert authors[|authors|..] == [];
  }

  /**
   * The body of `parseData`'s loop for one entry: the cleaned fields, or None
   * when reading the second link fails.
   */
  method EntryRow(e: Entry) returns (row: Option<Row>)
    ensures row.None? <==> |e.links| < 2
    ensures row == ToRow(e)
  {
    var title := Clean(e.title);
    var names := AuthorNames(e.authors);
    var authors := Sanitise(Join(names, AUTHOR_SEPARATOR));
    var summary := Clean(e.summary);
    if |e.links| < 2 {
      return None;
    }
    var link := Clean(e.links[1]);
    return Some(Row(title, e.published, authors, summary, link));
  }

  /**
   * `parseData`: one row per entry, in order; None when some entry lacks its
   * second link, since the error that raises ends the whole call and no rows
   * are published.
   */
  method ParseData(results: seq<Entry>) returns (data: Option<seq<Row>>)
    ensures data.None? <==> exists i :: 0 <= i < |results| && |results[i].links| < 2
    ensures data.Some? ==>
              |data.value| == |results| &&
              forall i :: 0 <= i < |results| ==> ToRow(results[i]) == Some(data.value[i])
  {
    var rows: seq<Row> := [];
    for i := 0 to |results|
      invariant |rows| == i
      invariant forall k :: 0 <= k < i ==> |results[k].links| >= 2 && ToRow(results[k]) == Some(rows[k])
    {
      var row := EntryRow(results[i]);
      if row.None? {
        return None;
      }
      rows := rows + [row.value];
    }
    return Some(rows);
  }

  /** No text field of a row holds a double quote, so rows can be written as quoted CSV fields. */
  lemma RowQuoteFree(e: Entry)
    requires |e.links| >= 2
    ensures var row := ToRow(e).value;
            '"' !in row.title && '"' !in row.authors && '"' !in row.summary && '"' !in row.link
  {
  }

  /** A trimmed text without double quotes is stored as it is. */
  lemma CleanKeepsCleanText(text: string)
    requires Unpadded(text) && '"' !in text
    ensures Clean(text) == text
  {
    TrimUnspaced(text);
    SanitiseKeepsQuoteFree(text);
  }

  /** Trimming a list holding one trimmed name gives that list back. */
  lemma TrimAllSingle(a: string)
    requires Unpadded(a)
    ensures TrimAll([a]) == [a]
  {
    TrimUnspaced(a);
  }

  /** A single clean author name is the whole authors field. */
  lemma SingleAuthorField(a: string)
    requires Unpadded(a) && '"' !in a
    ensures AuthorsField([a]) == a
  {
    TrimAllSingle(a);
    assert Join([a], AUTHOR_SEPARATOR) == a;
    SanitiseKeepsQuoteFree(a);
  }

  /** `entries.slice(0, Math.min(MAX_TOP_MATCHES, entries.length))`: the rows the page shows. */
  function Preview<T>(entries: seq<T>): (r: seq<T>)
    ensures |r| == if |entries| < MAX_TOP_MATCHES then |entries| else MAX_TOP_MATCHES
    ensures r == entries[..|r|]
  {
    entries[..if MAX_TOP_MATCHES < |entries| then MAX_TOP_MATCHES else |entries|]
  }
}
