# Translation contribution analysis, modelled in Dafny

The system counts the CJK ideographs in the diff of each merged pull request
of a translated documentation repository and totals them per contributor. It has two halves:

- **Ingestion** (`TransAnalysis`). `analysis_prs` walks the merged pull requests
  that carry the translation label, one page of up to 100 per query, following
  `pageInfo.endCursor` while `pageInfo.hasNextPage` holds. Every page goes to
  `insert_merged_prs`. For each pull-request number not yet in the
  `pull_request` table, that function downloads the diff, counts its CJK
  ideographs with `calc_zh_word_count` and inserts one row. Numbers already
  stored are skipped without a download, so a re-run only adds what is new.
- **Reporting** (`ChartGenerator.gen_chart`). It selects the rows merged inside
  a time window, on the configured base branch, with numbers not in the
  exclusion list. It groups them by author, ranks the author totals in
  decreasing order and keeps the first 25. A final `"other"` entry holds the
  grand total minus the shown totals.

The model has five modules:

| file | module | models |
|---|---|---|
| `records.dfy` | `Records` | pull-request summaries, table rows, number sets |
| `meter.dfy` | `Meter` | `calc_zh_word_count` |
| `store.dfy` | `Store` | `insert_merged_prs` over a table held as a sequence of rows |
| `pager.dfy` | `Pager` | the pagination control of `analysis_prs` |
| `aggregate.dfy` | `Aggregate` | the two SQL queries of `gen_chart` and the `"other"` entry |

The environment is passed in as parameters:

- The diff download is a function `int -> Fetched`. It yields `Diff(text)` or a
  `TransportError`, which raises and ends the call.
- The paged query is a function `Cursor -> Reply`. It yields a `Page` or
  `QueryFailed`.
- The table is a `seq<PrRecord>` in insertion order. The auto-increment `id` is
  a row's position plus one.
- A `Store.Run` records which numbers had their diff requested and whether a
  failed download ended the call. A `Pager.Walk` records the trace of requests
  and stores.

## Model

| member | source | states |
|---|---|---|
| Meter.ZhWordCount | analysis.py:79-84 | The count, the summed length of the regex matches, never exceeds the text length. |
| Meter.ZhWordCountPositions | analysis.py:79-84 | The count equals the number of positions holding a character in U+4E00..U+9FA5, both ends included. |
| Meter.FindAllCountsPositions | analysis.py:81-83 | The regex search yields one single-character match per CJK position, so the summed match lengths equal the number of matches and of positions. |
| Meter.ZhWordCountAppend | analysis.py:79-84 | The count of a concatenation is the sum of the counts of its parts. |
| Meter.ZhWordCountZero | analysis.py:79-84 | The count is 0 exactly when no character lies in the CJK range. |
| Meter.ZhWordCountFull | analysis.py:79-84 | The count equals the length exactly when every character lies in the CJK range. |
| Meter.ZhWordCountSplit | analysis.py:79-84 | A text made of ideographs followed by text without any counts exactly the ideographs. |
| Meter.ZhWordCountAsciiSample | analysis.py:79-84 | The empty text and `hello` both count 0. |
| Meter.ZhWordCountMixedSample | analysis.py:79-84 | Two ideographs followed by `world` count 2. |
| Store.InsertOne | analysis.py:188-198 | Definition of one loop iteration: skip after an abort or for a stored number, otherwise download, then either abort or append the measured row. Its properties are the `Store.IngestAccounts`, `Store.IngestFetchesOnlyNew` and `Store.IngestRowsMeasured` rows. |
| Store.Ingest | analysis.py:185-201 | Rows present before the call are kept unchanged and in place; the call only appends. |
| Store.IngestAccounts | analysis.py:187-197 | There is one download per new row, in row order, plus the failing one when the call aborted. The failing number is not stored. Every downloaded number comes from the batch. The number set grows and stays within old numbers plus batch numbers. Without a failure it equals old numbers plus batch numbers. |
| Store.IngestAppendsFresh | analysis.py:189-197 | Every appended row carries a number absent from all rows before it. |
| Store.IngestFetchesOnlyNew | analysis.py:189-191 | No already-stored number is downloaded or inserted again. New rows and downloads are duplicate-free, even when the batch repeats a number. A table with unique numbers keeps them unique. |
| Store.IngestRowsMeasured | analysis.py:188-196 | Every new row is the first batch summary with its number, paired with the ideograph count of that number's downloaded diff. |
| Store.IngestKnown | analysis.py:189-190 | A batch whose numbers are all stored downloads nothing and changes nothing. |
| Store.IngestIdempotent | analysis.py:185-201 | After a call that did not abort, repeating it with the same batch downloads nothing and changes nothing. |
| Store.IngestAppend | analysis.py:185-201 | One call on `a + b` equals a call on `a` followed by a call on `b`, stopping if the first call aborted. |
| Store.StoredNumber | analysis.py:189-190 | The existence check answers true exactly when the number is in the table. |
| Store.InsertMergedPrs | analysis.py:185-201 | The loop, which leaves at the first failed download, computes exactly `Ingest`. |
| Pager.NextCursor | analysis.py:86-88 | Definition of the cursor for the next query: an empty `endCursor` means the cursorless query. Its use is stated by `Pager.WalkFollowsCursors`. |
| Pager.WalkFrom | analysis.py:86-183 | Definition of the recursive `analysis_prs`, bounded by fuel. Its properties are the `Pager.Walk*` rows and `Pager.AnalysisPrs`. |
| Pager.WalkAlternates | analysis.py:121-134 | A walk with fuel starts by requesting its own cursor. After that, requests and stores alternate, so each page is stored before the next request. |
| Pager.WalkStoresReplies | analysis.py:121-131 | Each request that is followed by a step returned a page. The next step stores exactly that page's edges. |
| Pager.WalkFollowsCursors | analysis.py:132-134 | Another request follows a page only if that page reported `hasNextPage`. That request carries the page's `endCursor`, where an empty cursor means the cursorless first query. |
| Pager.WalkEnds | analysis.py:132-134 | `Done` comes right after storing a page without a next page. `Failed` comes after a failed query or an aborted store. `OutOfFuel` comes after exactly `fuel` stored pages. |
| Pager.WalkIngestsInOrder | analysis.py:124-131 | The final store state is the starting state continued with every stored edge, in page order and edge order. |
| Pager.WalkFromStartIngests | analysis.py:86-183 | From an empty run, the walk's table and downloads are those of a single `insert_merged_prs` call over the concatenated pages. |
| Pager.AnalysisPrs | analysis.py:86-183 | The iterative driver, starting with no cursor, gives the same store, trace and status as the recursive walk. |
| Pager.WalkKnown | analysis.py:86-183 | Given a store that already holds every number a completed walk stored, walking again issues the same requests and changes nothing. |
| Pager.RerunChangesNothing | analysis.py:86-183 | After a completed walk, running it again on the resulting table makes the same requests, downloads nothing and leaves the table as it is. |
| Aggregate.LexLeTotalOrder | analysis.py:217 | The text comparison behind `between` is reflexive, total, antisymmetric and transitive. |
| Aggregate.SelectMembers | analysis.py:216-219 | A row is selected exactly when it is in the table and passes the window, branch and exclusion tests. |
| Aggregate.SelectIgnoresUnselected | analysis.py:217-219 | Inserting a row that fails the filter anywhere in the table leaves the selection unchanged. |
| Aggregate.GenChartIgnoresUnselected | analysis.py:216-239 | Inserting a row that fails the filter anywhere in the table leaves the chart unchanged. |
| Aggregate.GroupNames | analysis.py:216-220 | Grouping yields one entry per distinct author of the selected rows. |
| Aggregate.GroupValues | analysis.py:216-220 | Each group holds the sum of its author's counts. |
| Aggregate.GroupSum | analysis.py:216-231 | The group totals add up to the grand total of the selected rows. |
| Aggregate.SortDescPermutes | analysis.py:220 | Ranking is a permutation of the groups, so it keeps their number and their sum. |
| Aggregate.SortDescSorted | analysis.py:220 | The ranked totals are non-increasing. |
| Aggregate.SortDescNames | analysis.py:220 | Ranking keeps the set of author names and their distinctness. |
| Aggregate.RankedGroups | analysis.py:216-220 | The ranked groups hold one entry per author with that author's total. They are non-increasing and sum to the grand total. |
| Aggregate.GenChartTop | analysis.py:231-239 | The report fails with `NoMatchingRows` exactly when no row of the table passes the filter. |
| Aggregate.GenChart | analysis.py:216-239 | With the limit of 25, there is no chart exactly when no row matches. Otherwise the chart holds between one and 25 author entries and ends with `other`. Every `Aggregate.GenChartTop` lemma applies with `limit = TopN`. |
| Aggregate.GenChartShown | analysis.py:220-229 | There are min(limit, number of authors) author entries, then `other`. The authors are distinct, all come from matching rows, each carries its own total, and the totals are non-increasing. |
| Aggregate.GenChartOmittedBelow | analysis.py:220 | The chart's author entries are never empty when some row matches. No matching author left out of them has a larger total than the last shown entry. |
| Aggregate.GenChartSumPreserved | analysis.py:225-239 | `other` comes last and is never negative. All entries sum to the grand total. `other` is 0 when every matching author is shown. |
| Aggregate.GenChartExample | analysis.py:216-239 | Four rows, one filtered out, with authors totalling 10, 20 and 5 and limit 2, give `[b 20, a 10, other 5]`. |

## Left out

- `ensure_tables` (analysis.py:39-59): creating the table is SQLite DDL. The model starts from a given table.
- HTTP, GraphQL templating and JSON extraction (analysis.py:61-77, 89-124, 136-173): these become the `query` and `fetch` parameters. The fields of each edge arrive already extracted as a `PrSummary`.
- The page size of 100 (`first: 100`) is the upstream's concern. A page has any number of edges.
- The sleeps (analysis.py:133, 182, 198), the log prints and connection handling are timing and I/O only.
- `Configuration` and the default window (analysis.py:205-213): reading the clock and the YAML file is outside the model. The window, branch and exclusion list are a `ReportFilter`.
- Pie rendering and the dated output file name (analysis.py:241-253) are I/O.
- Pager.WalkFrom: the source follows each next page with one more nested `analysis_prs` call (analysis.py:134, 183) and never raises Python's default recursion limit of 1000. So after about a thousand pages, or fewer since the query and download calls need frames too, the run ends with `RecursionError`, and the pages stored before that stay stored. The model bounds the walk by `fuel`, standing for the remaining recursion depth. `OutOfFuel` stands for that `RecursionError` and is a failed run, like `Failed`. The exact depth is not modelled.
- A `null` author (deleted account), `null` base ref or `null` `endCursor` is not modelled: every field is text.
- Concurrent writers are not modelled. The `pull_request` table has no UNIQUE constraint on `number` (analysis.py:46-54), and the check-then-insert at analysis.py:189-196 keeps numbers unique only while one ingestion runs at a time. The model's table is a value nothing else writes, so `Store.IngestFetchesOnlyNew` (uniqueness kept, only new numbers downloaded) holds under that single-writer assumption.
- The SQL text is assembled by concatenation, so quotes inside an author name or branch would break the statement. The model treats values as data.
- SQLite 64-bit integer overflow of `sum` and Python's lone surrogates in strings are not modelled. Counts are unbounded naturals and characters are Unicode scalar values.
- Aggregate.SortDesc: SQLite leaves the order of equal totals open. The model keeps equal totals in order of first appearance, so the exact chart it computes is one of the orders SQLite may return. The listed contracts promise only what holds under any tie order: that the shown authors are distinct matching authors and no omitted one has a larger total, their totals, the non-increasing order, the omitted totals and the sums. `Aggregate.GenChartIgnoresUnselected` relies only on the order being a function of the selected rows.
- Aggregate.GenChartTop: an author literally named `other` produces two entries with that label, as in the source. The contracts about distinct names cover only the author entries.
- Pager.NextCursor: an empty `endCursor` is not followed as a cursor. The code picks the cursorless query whenever the cursor text is empty (analysis.py:88), so an empty `endCursor` with `hasNextPage` re-queries the first page, and the model does the same.
- When no row matches, SQL `SUM` is NULL and the subtraction at analysis.py:238 raises. The model returns `NoMatchingRows` instead of a chart.
