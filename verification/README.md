# GitHub popular-repository collection, modelled in Dafny

This project models the data-collection logic of a small study of popular
GitHub repositories. The logic lives in two Python scripts.

- `GetData.py` sends one GraphQL search for the most starred repositories. It
  stops early on a placeholder token, a failed request, a response carrying
  `errors`, or an empty node list, and crashes when `data` or `search` is
  `null`. Otherwise it turns every non-null
  repository node into a flat record:
  - the language falls back to `"N/A"`;
  - the creation date is the part of `createdAt` before the first `T`;
  - the days since the last push are `(now - pushedAt).days`, with `now` read afresh for each record;
  - the closed-issue ratio is `closed / (open + closed)`, or `0.0` when there are no issues.
- `codigo/src/consulta_repositorios.py` pages through the same search with a
  GraphQL cursor. The first request sends a null cursor. Every later request
  sends the previous page's `endCursor`. The non-null nodes of each page are
  appended in order. The loop stops when 1000 rows are in, when a page says
  `hasNextPage` is false, or when a request fails; the rows gathered so far
  are kept in every case. The report step then adds three derived columns:
  repository age, days since the last update, and the closed-issue ratio. It
  produces nothing for an empty row list.

The Dafny files:

- `common.dfy` (module `Common`) holds what both scripts share: the null-node
  filter, the guarded ratio, whole-day arithmetic and the `"N/A"` sentinel.
- `get_data.dfy` (module `GetData`) models `GetData.py`.
- `consulta.dfy` (module `Consulta`) models the paginator and the report columns.

The upstream is a parameter. `GetData.Run` receives the response of its single
request. `Consulta.Collect` receives a finite sequence of page results; the
i-th request gets the i-th element, which is either a page (`nodes`,
`endCursor`, `hasNextPage`) or a failure. The collection records the cursor
sent with each request, so the cursor discipline is a property of the result.
The clock is a parameter too, read where the scripts read it: `GetData.py`
takes a fresh reading for every record it builds, so `GetData.AssembleAll`
takes a function from the record's position to the instant read; the report
takes one reading per derived column. Timestamps are whole seconds.
Ratios are exact `real`s.

Neither script retries, backs off, tracks rate limits, uses offset
pagination, enriches repositories one by one, skips a failed page or
de-duplicates; a failed request ends the loop, and no repository identifier
is ever compared.

## Model

| member | source | states |
|---|---|---|
| Common.Present | GetData.py:90-94 | dropping null nodes never produces more elements than the input has |
| Common.PresentAppend | codigo/src/consulta_repositorios.py:73-76 | dropping null nodes distributes over concatenation, so the surviving nodes keep their upstream order |
| Common.PresentMembership | GetData.py:92-93 | a node survives the filter exactly when it occurs non-null in the input |
| Common.PresentExtremes | GetData.py:90-94 | without nulls every node is kept; with only nulls none is |
| Common.MapPresent | codigo/src/consulta_repositorios.py:73-89 | the skip-null-then-append loop yields one output per non-null node, the i-th output built from the i-th non-null node |
| Common.MapPresentStamped | GetData.py:90-100 | the skip-null-then-append loop with a fresh clock reading per output: one output per non-null node, the j-th built from the j-th non-null node and the j-th reading |
| Common.MapPresentStampedPrefix | GetData.py:90-118 | outputs are only appended: the outputs for a list are the first outputs for any extension of it |
| Common.GuardedRatio | GetData.py:106 | the ratio is 0.0 when the denominator is not positive; otherwise the ratio times the denominator is the numerator, so it is never undefined |
| Common.RatioInUnitInterval | GetData.py:105-106 | for 0 <= closed <= total the ratio lies in [0, 1]; it is 1 exactly when 0 < closed == total, and 0 exactly when closed == 0 |
| Common.ElapsedDays | GetData.py:99-100 | the day count d brackets the elapsed seconds: d days <= now - since < d + 1 days (floor, also for negative spans); d >= 0 iff since <= now |
| Common.ElapsedDaysUnique | GetData.py:99-100 | only one whole number of days brackets the elapsed time, so the floor bounds define `.days` |
| Common.LanguageOrSentinel | GetData.py:111 | the language is the node's language name when present; the result is "N/A" iff the language is absent or literally named "N/A" |
| GetData.DatePart | GetData.py:112 | the date is a prefix of `createdAt` with no 'T', followed in `createdAt` by a 'T' unless it is the whole string |
| GetData.DatePartUnique | GetData.py:112 | any prefix with those properties is the date part: the contract characterises `split('T')[0]` completely |
| GetData.DatePartOfTimestamp | GetData.py:112 | a string without 'T' is kept whole; an ISO timestamp keeps its first ten characters |
| GetData.ClosedIssueRatio | GetData.py:103-106 | with total = open + closed: 0.0 when total is 0, closed/total otherwise, always in [0, 1] |
| GetData.ClosedIssueRatioExamples | GetData.py:103-106 | 3 open and 0 closed give 0.0; 2 open and 8 closed give 0.8; no issues give 0.0 |
| GetData.Assemble | GetData.py:95-117 | each record field as the script derives it: copied counts, "N/A" language fallback, the 'T'-free date prefix, the floor day bracket of the last push, the guarded ratio in [0, 1] |
| GetData.AssembleAll | GetData.py:90-118 | one record per non-null node, the j-th record assembled from the j-th non-null node at the j-th clock reading (the script reads the clock once per record, line 100) |
| GetData.AssembleAllPrefix | GetData.py:90-118 | records are only appended: with n the number of non-null nodes in `a`, the records for `a` are the first n records for `a + b`, and `a + b` yields as many records as `a` and `b` have non-null nodes together |
| GetData.AssembleAllFrozenClock | GetData.py:90-118 | when every clock reading gives the same instant, the loop is the plain map of `Assemble` at that instant over the non-null nodes |
| GetData.Run | GetData.py:55-118 | placeholder token, failed request, response with `errors`, a `null` `data` or `search` object (an uncaught crash) and empty node list each end the run, in that order of precedence; otherwise the records are those of the non-null nodes |
| GetData.RunRecordCount | GetData.py:82-94 | a run ends without a record list exactly when one of the early exits applies (placeholder token, failed request, `errors`, null `data`/`search`, empty node list); a full pass produces exactly as many records as there are non-null nodes |
| Consulta.ToRow | codigo/src/consulta_repositorios.py:78-89 | a row copies the node's fields and puts "N/A" for an absent primary language |
| Consulta.PageRows | codigo/src/consulta_repositorios.py:71-89 | a failed request contributes no rows; a page contributes one row per non-null node, in order |
| Consulta.ConcatPrefix | codigo/src/consulta_repositorios.py:64-89 | appending each page's rows in turn only ever extends the list: what the first j pages give is a prefix of what the first k >= j pages give |
| Consulta.RowsOfPrefix | codigo/src/consulta_repositorios.py:64-89 | rows are only appended: the rows after j responses are a prefix of the rows after k >= j responses |
| Consulta.RowsOfAgree | codigo/src/consulta_repositorios.py:64-89 | the rows gathered from the first n responses depend on those n responses only |
| Consulta.CursorsFollowStep | codigo/src/consulta_repositorios.py:66-92 | sending the current cursor keeps the discipline: null first, then the previous page's endCursor |
| Consulta.ReachedStep | codigo/src/consulta_repositorios.py:64-99 | a page with a next page, fetched below 1000 rows, leads to the next loop state: rows, cursor, counter and cursor history all updated |
| Consulta.FinishedWithoutRequest | codigo/src/consulta_repositorios.py:64 | stopping at 1000 rows, or with no response left, leaves a well-formed finished run |
| Consulta.FinishedAfterRequest | codigo/src/consulta_repositorios.py:93-107 | stopping after a failed request, or after a page without a next page, leaves a well-formed finished run |
| Consulta.CollectFrom | codigo/src/consulta_repositorios.py:64-107 | from any loop state the run issues at least the requests already made and never more than the upstream answers |
| Consulta.CollectFromFinishes | codigo/src/consulta_repositorios.py:57-107 | every loop state the source maintains leads to a finished run with all the properties stated for `Collect` |
| Consulta.Collect | codigo/src/consulta_repositorios.py:57-107 | the page counter counts the requests; rows are the non-null nodes of the requested pages in page order; the first cursor is null, each later one the previous endCursor; the last request was made below 1000 rows; and the stop reason matches the last response (failure keeps exactly the earlier pages' rows) |
| Consulta.CollectStopsAtTarget | codigo/src/consulta_repositorios.py:64 | every request of a run was issued while fewer than 1000 rows had been collected |
| Consulta.CollectFromIgnoresLaterPages | codigo/src/consulta_repositorios.py:64-107 | from any loop state, upstreams that agree on the pages requested give the same result, unless the run stopped because the responses ran out (`UpstreamSilent`) |
| Consulta.CollectIgnoresLaterPages | codigo/src/consulta_repositorios.py:57-107 | a run depends only on the responses it requested: changing or dropping later responses changes nothing, unless the run stopped because the responses ran out (`UpstreamSilent`) |
| Consulta.FirstRequestFails | codigo/src/consulta_repositorios.py:101-113 | a failed first request ends the run after one request with no rows, and no report is produced |
| Consulta.ExampleRuns | codigo/src/consulta_repositorios.py:57-107 | a three-page run with a null node sends cursors None, c1, c2 and keeps two rows; a failed second request keeps the first page's row |
| Consulta.CollectOvershoot | codigo/src/consulta_repositorios.py:64-89 | with pages of at most `size` nodes the run ends with fewer than 1000 + size rows |
| Consulta.AppendRows | codigo/src/consulta_repositorios.py:73-89 | the node loop appends, in order, one row per non-null node to the rows already collected |
| Consulta.CollectPages | codigo/src/consulta_repositorios.py:55-107 | the `while` loop with its `break`s computes exactly the state machine's collection |
| Consulta.Derive | codigo/src/consulta_repositorios.py:134-148 | age is the floor day bracket of the age column's clock reading minus the creation instant, recency that of the recency column's own reading minus the last-update instant (lines 139 and 142 read the clock separately); the ratio is 0 without issues, closed/total otherwise, and in [0, 1] when closed <= total |
| Consulta.Report | codigo/src/consulta_repositorios.py:126-151 | no report for an empty row list; otherwise one report row per collected row, in order, with the derived columns, each column computed at one clock reading shared by all rows |

## Left out

- HTTP: `requests.post`, `raise_for_status` and JSON decoding are abstracted. `GetData.Run` takes the response as a value. `Consulta.Collect` takes the sequence of page results. Any exception raised while fetching a page is the `RequestError` result.
- Clock and timestamp parsing: `datetime.now()`, `fromisoformat` and `pd.to_datetime` are left out. Clock readings are parameters: `GetData.AssembleAll` takes a function giving the reading taken for each record, and `Consulta.Report` takes one reading per derived column. Readings and the push and creation instants are integers counting seconds. No ordering between successive readings is assumed.
- Floating point: ratios are exact rationals (`real`), not IEEE doubles.
- Environment and output: dotenv loading, CSV writing, DataFrame construction and console printing are left out.
- `codigo/src/metricas_relatorio.py` (medians, quantiles, value counts, charts) is not part of this model. It is floating-point reporting over the finished table.
- Missing keys: nodes are modelled with every field present. A `.get(...)` that yields `None` for a missing field is not modelled. Neither is an exception raised part-way through a page's nodes. In the source, that exception would keep the rows of the nodes before it.
- The null-node test models both `null` and an empty (falsy) node object as `None`.
- Consulta.Collect: the upstream is finite, so a run can also end because the responses ran out (`UpstreamSilent`). No request is issued in that case. The Python loop would keep requesting instead, and would loop forever on a server that keeps answering empty pages with `hasNextPage` true.
- Consulta.CollectIgnoresLaterPages: like `Consulta.CollectFromIgnoresLaterPages`, it excludes runs that stopped with `UpstreamSilent`. Such a run ended only because the finite upstream had no more responses, so a longer upstream can continue it. The Python loop never stops this way.
- Common.ElapsedDays: instants are whole seconds, so sub-second parts of the timestamps, which Python's `timedelta` keeps, are not modelled.
- Consulta.Derive: in the source the ratio's fallback is the integer `0`, not `0.0`. It is modelled as the real `0.0`.
- GetData.Run: a `null` `data` or `search` object makes `GetData.py:82` raise an uncaught `AttributeError`; the model records this as the `Crashed` outcome without modelling the traceback. The token is an optional string, because the environment variable may be unset. Only the exact placeholder value triggers the early exit.
