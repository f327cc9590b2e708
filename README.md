# arXived scraper, modelled in Dafny

arXived is a browser page that searches the arXiv listing API for a topic and
shows the results. Its one piece of logic is `scrapeArXiv` in `src/App.js`.
It asks for the newest `limit` papers. When the user gives a date range, it
also pages backwards through the listing (500 entries per page, newest first)
until the listing reaches the start of the range. It asks again for a page
that comes back empty, at most 5 times. Then it reverses the last two pages
to oldest-first and scans them to keep the entries in the range. Around it sit
the form check `isValidInput`, the limit cap in `submitForm`, `parseData`
(trimmed fields with `"` replaced by `'`, authors joined with `", "`) and the
20-row preview.

Modules:

- `Wrappers`: Option and Result.
- `Feed`: an entry (`Entry`, with its publish time as an integer), a submitted
  query (`Query`, a blank date is `None`), reversal and subsequence.
- `Text`: the JavaScript string operations the page relies on: `trim`, the
  quote replacement, `join`, `parseInt(s, 10)`, and the numeric-literal test
  behind `isNaN`.
- `Pagination`: the page source, the retry round (`Retried`, `FetchWithRetry`)
  and the backward walk (`Walk`).
- `DateWindow`: the filter scan (`Window`, `FilterWindow`) and a second
  description of it built from standard pieces (`Take`, `Since`, `Examined`).
- `Scraper`: `scrapeArXiv` (`Scrape`, `Paginate`, specified by `Scraped`).
- `Form`: `isValidInput` and `submitForm`.
- `Export`: `parseData` and the preview.

The arXiv request becomes a page source, a function from (offset, page size,
attempt) to a list of entries. `attempt` counts the requests already made at
that offset, so a source can answer empty and then with data. The loop in the
source has no bound. The model gives it one: the source must have nothing at
or beyond some offset `horizon`. The offset then strictly increases towards
`horizon`. `Scrape` is specified by the function `Scraped`, so the same query
against the same source always gives the same result.

In three places the code does something a reader may not expect:

- Without a date range, the first page is returned as the API sent it. It is
  not truncated to `limit`.
- With a date range, the result need not lie inside the range. The scan tests
  the publish time of the entry it examined last. So the first entry after the
  end date is still examined and can be kept. `WindowAdmitsLateEntry` shows
  this with entries at times 1 and 5 and the range [0, 3]. Every other kept
  entry does lie in the range (`WindowOvershootsByOne`).
- Only the last two pages are filtered, because `previousResults` is
  overwritten on each turn. Entries of earlier pages never reach the result
  (`MergesLastTwoPages`).

## Model

| member | source | states |
|---|---|---|
| `Feed.Reverse` | src/App.js:94 | reversal puts element `i` at position `n - 1 - i`, keeping the length |
| `Text.TrimStart` | src/App.js:166 | the result is a suffix of the input that does not start with white space |
| `Text.TrimEnd` | src/App.js:166 | the result is a prefix of the input that does not end with white space |
| `Text.TrimStartDropsSpace` | src/App.js:166 | every character dropped from the front is white space |
| `Text.TrimEndDropsSpace` | src/App.js:166 | every character dropped from the back is white space |
| `Text.Trim` | src/App.js:166 | the trimmed text neither starts nor ends with white space and is no longer than the input |
| `Text.BlankIffAllSpace` | src/App.js:166 | a field is blank (falsy after `trim`) exactly when all of its characters are white space |
| `Text.TrimIdempotent` | src/App.js:51-54 | trimming an already trimmed text changes nothing, so the dates `submitForm` trims once are unaffected by the second `trim` in `scrapeArXiv` |
| `Text.Sanitise` | src/App.js:120 | the replacement keeps the length, leaves no `"`, turns every `"` into `'` and keeps every other character |
| `Text.SanitiseKeepsQuoteFree` | src/App.js:131 | a text without `"` passes through the replacement unchanged |
| `Text.Join` | src/App.js:130 | joining no names gives the empty text, one name gives that name, and the length is the names' lengths plus one separator between neighbours |
| `Text.JoinAppend` | src/App.js:130 | joining two non-empty lists is joining each with a separator between the two |
| `Text.ParseIntDecimal` | src/App.js:171 | `parseInt` reads back the decimal numeral of every natural number |
| `Text.ParseIntStopsAtNonDigit` | src/App.js:204 | `parseInt` reads the leading digits and ignores what follows the first non-digit |
| `Text.ParseIntUnsigned` | src/App.js:171 | a text starting with a digit reads as the value of its leading run of digits, which is not empty |
| `Text.DecimalIsNumber` | src/App.js:171 | a decimal numeral is never NaN to `isNaN` |
| `Pagination.Retried` | src/App.js:73-82 | a retry round ends within 5 retries, with the page of its last attempt; every earlier attempt was empty; it ends early only with a non-empty page |
| `Pagination.FetchWithRetry` | src/App.js:67-82 | the request plus retry loop returns exactly what `Retried` describes: at most 5 retries, and a non-empty page unless all 6 requests came back empty |
| `Pagination.RetryBound` | src/App.js:73-82 | a source that answers `n` requests empty and then with data yields that data exactly when `n <= 5`, and an empty page otherwise |
| `Pagination.Walk` | src/App.js:60-91 | the loop ends only with an empty page or with an oldest entry at or before the start date; a cursor that fails the loop test is returned unchanged |
| `Pagination.Advance` | src/App.js:64-87 | one turn moves the offset forward by exactly the size of the current page, keeps the current page as the previous one, and takes as the new page the retry result at the new offset |
| `Pagination.WalkStep` | src/App.js:64-69 | a page fetched at the new offset lies below the horizon, and the walk continues from the advanced cursor |
| `Pagination.WalkFetched` | src/App.js:64-87 | a page fetched at the next offset that holds entries lies below the horizon, and the walk from the cursor built from that page is the walk from the cursor before |
| `Pagination.WalkCoherent` | src/App.js:84-87 | the tested publish time stays that of the oldest entry of the latest non-empty page |
| `Pagination.WalkPages` | src/App.js:65-69 | after the loop has run, the offset is past the first page and the last two pages are consecutive retry results (or the first page and the one after it) |
| `Pagination.OldestFirst` | src/App.js:93-94 | after reversal, the front entry is the one whose publish time the loop last tested |
| `DateWindow.Window` | src/App.js:99-106 | the scan keeps at most `limit` entries, and nothing when the seed time is already after the end date |
| `DateWindow.FilterWindow` | src/App.js:95-107 | the scan loop computes `Window` |
| `DateWindow.WindowAt` | src/App.js:99-106 | one turn of the scan at position `i`: the entry is kept exactly when it is at or after the start date and there is room, and the scan goes on from the next entry with its publish time |
| `DateWindow.WindowSinceStart` | src/App.js:103 | every kept entry is published at or after the start date |
| `DateWindow.WindowSubsequence` | src/App.js:99-107 | the kept entries are an order-preserving subsequence of the scanned sequence |
| `DateWindow.WindowOvershootsByOne` | src/App.js:99-104 | every kept entry except possibly the last is published at or before the end date |
| `DateWindow.WindowIgnoresLater` | src/App.js:99 | no entry after the first one past the end date affects the result |
| `DateWindow.WindowIsReference` | src/App.js:98-107 | the scan keeps the first `limit` examined entries published at or after the start date, where the examined entries run up to and including the first one after the end date |
| `DateWindow.FirstAfterIsFirst` | src/App.js:99 | the reference index is the first entry published after the end date: every entry before it is at or before the end date |
| `DateWindow.WindowAdmitsLateEntry` | src/App.js:99-104 | an entry published after the end date can be kept |
| `Scraper.FirstCursor` | src/App.js:55-57 | pagination starts at offset 0 with the first page, no previous page and the first page's oldest publish time |
| `Scraper.Paginate` | src/App.js:57-91 | the pagination loop ends, in the state `Walk` describes |
| `Scraper.Scrape` | src/App.js:41-109 | `scrapeArXiv` returns `Scraped`: the first page, or the filter of the last two pages reversed |
| `Scraper.FirstPageUnchanged` | src/App.js:51 | with an empty first page or a blank date, the first page is the result unchanged |
| `Scraper.DatedResult` | src/App.js:93-108 | with a date range: at most `limit` entries, all at or after the start date, in order from the reversed last two pages, only the last possibly after the end date, and none when the oldest entry seen is already after the end date |
| `Scraper.FilterSeedIsOldest` | src/App.js:99 | the filter's first test reads the oldest merged entry |
| `Scraper.MergesLastTwoPages` | src/App.js:66 | when pagination runs, the merged sequence is the last two consecutive pages |
| `Scraper.NothingFound` | src/App.js:44-51 | a topic with no entries gives an empty result |
| `Form.DateRangeError` | src/App.js:176-193 | the date checks pass exactly when both dates are blank, or both are filled with dates that parse and are in increasing order; they never report a topic or limit problem |
| `Form.ValidateAsWritten` | src/App.js:165-196 | `isValidInput` as written: it accepts a form exactly when the topic is filled in, the limit passes the as-written `isNaN`/`parseInt` test and the dates are both blank or both valid and in order; a blank topic is reported first; it accepts every form the corrected check accepts; a limit it rejects, the corrected check rejects too |
| `Form.LimitAsWrittenDiffers` | src/App.js:171 | the check as written and the corrected one give different answers exactly when the topic is filled in and the trimmed limit is non-empty, not NaN to `isNaN`, and no integer to `parseInt` |
| `Form.Validate` | src/App.js:165-196 | a blank topic is reported first; a form is accepted exactly when it has a topic, a limit that is a number to `isNaN` and a positive integer to `parseInt`, and either no dates or two dates in increasing order |
| `Form.Submit` | src/App.js:198-207 | a query exists exactly for fields the corrected check (`Form.Validate`) accepts; it has the trimmed topic, the limit capped at 1000, and as each date the parse of the trimmed field, or none when the field is blank; otherwise the first problem is reported |
| `Form.DecimalLimitAccepted` | src/App.js:171 | a positive decimal numeral passes the limit test and reads back as itself |
| `Form.SubmitDecimalLimit` | src/App.js:204 | a positive decimal limit with no dates gives a query with that limit, capped at 1000 |
| `Form.PointDigitText` | src/App.js:171 | a point followed by one digit has nothing to trim, is a number to `isNaN`, and is no integer to `parseInt` |
| `Form.FractionText` | src/App.js:171 | ".5" is a number to `isNaN` but no integer to `parseInt` |
| `Form.NumberButNoIntegerForm` | src/App.js:165-196 | with a limit that has nothing to trim, is a number to `isNaN` but no integer to `parseInt`, a filled-in topic and blank dates, the form as written is accepted and the corrected check reports the limit |
| `Form.FractionLimitAsWritten` | src/App.js:171 | with any filled-in topic and no dates, the form as written accepts the limit ".5"; the corrected check rejects it |
| `Export.TrimAllEach` | src/App.js:124-128 | one trimmed name per author, in order |
| `Export.AuthorNames` | src/App.js:124-128 | the inner loop builds exactly `TrimAll` of the authors |
| `Export.EntryRow` | src/App.js:118-133 | the loop body gives the entry's `ToRow`, failing exactly when the entry has no second link |
| `Export.ParseData` | src/App.js:114-134 | one row per entry in order, each the entry's `ToRow`; no rows at all when some entry lacks its second link |
| `Export.RowQuoteFree` | src/App.js:120-132 | no text field of a row holds a `"` |
| `Export.CleanKeepsCleanText` | src/App.js:120 | a text that neither starts nor ends with white space and holds no `"` is stored as it is |
| `Export.SingleAuthorField` | src/App.js:124-130 | a single author name without surrounding white space or `"` is the whole authors field |
| `Export.Preview` | src/App.js:254 | the preview is the first `min(20, n)` rows |

## Findings

| source | as written | input that shows it | evidently intended | confidence | as-written member | corrected member |
|---|---|---|---|---|---|---|
| src/App.js:171 | the limit is rejected when blank, when `isNaN` holds, or when `parseInt(...) <= 0`; a NaN from `parseInt` compares false, so it passes | limit ".5" (also "Infinity"): a number to `Number`, NaN to `parseInt`; the query limit becomes `Math.min(1000, NaN)`, which is NaN | reject a limit from which `parseInt` reads no integer | high; not executed | `Form.FractionLimitAsWritten` | `Form.Validate` |

`Form.Submit` uses the corrected check. `Form.ValidateAsWritten` keeps the
check as written.

## Left out

- The HTTP request to the arXiv API and the URL it builds are not modelled. A page source stands in for them.
- XML parsing with `DOMParser` and `querySelector` is not modelled. Entries are records, and every entry has a title, a publish time, a summary and string `href`s.
- JavaScript `Date` is not modelled. Publish times are integers. Form dates go through a date parser given as a parameter, where None stands for "Invalid Date". `toDateString` is not applied: a row keeps the integer time.
- NaN publish times from unparsable feed dates are not modelled.
- `sleep` between requests (2 s) and between retries (5 s) is left out. It is timing only.
- React state, `useEffect` re-running the scrape when the query changes, `alert`, `console.log`, the CSV link and the JSX markup are left out. They are UI and side effects. `src/Entry.js` is not part of this model.
- The default query (topic "Machine Learning", limit the string '10', blank dates) is not modelled. `Query.limit` is a natural number.
- `scrapeArXiv` passes its result to `parseData`. The model keeps `Scrape` and `ParseData` as two steps.
- Scraper.Scrape: requires a horizon beyond which every page is empty. Against a source with data at every offset the source's loop need not end, and the model does not cover that run.
- Scraper.Paginate: requires a positive horizon. `Scrape` derives it from the non-empty first page.
- Text.Trim: its contract does not state that the result is a contiguous middle of the input. `TrimStart` and `TrimEnd` state it for each side.
- Form.Validate: does not state which error is reported when several checks fail. The function body follows the source's order.
