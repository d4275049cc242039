# SpaceX launch list — a Dafny model

This project models the `SpaceXLaunches` page component of a personal
portfolio site (`pages/spacex.js`). The page shows an infinitely scrolling,
searchable list of SpaceX launches. It fetches launches from the public
launch API ten at a time. It requests the next page when the last shown row
scrolls into view, and it narrows the rows it has already fetched by a
case-insensitive substring search on the mission name.

The model is organised as follows:

- `launch.dfy` (`Launches`): the launch record, ASCII lower-casing and the
  substring test (`toLowerCase`, `includes`).
- `search.dfy` (`Search`): the search filter `Filter(launches, term)` and its laws.
- `pagination.dfy` (`Pagination`): the `limit=10&offset=(page-1)*10` request window.
- `render.dfy` (`Render`): the notices under the list, and which row carries
  the observed reference.
- `launch_list.dfy` (`LaunchList`): class `SpaceXLaunches`. Its fields are the
  component's state cells, and it has one method per event: fetch completed,
  last row visible, search term changed.
- `scenarios.dfy` (`Scenarios`): event sequences, each with the state it
  leaves behind.
- `options.dfy` (`Options`): an `Option` datatype.

The class keeps a ghost history `requested` of the pages it has asked for.
`Valid()` states that this history is exactly `1, 2, …, page`. So the cursor
only moves up, one page at a time, and a page is never requested twice. In
particular, a page whose fetch failed is skipped for good and never retried.

The completion handler appends a fetched page raw to the shown rows
(`pages/spacex.js:26`). The search effect (`pages/spacex.js:66-75`) then
recomputes the rows from `launches`. The model keeps these two steps apart:

- `ApplyFetchResult` does the raw append.
- `SyncFilteredLaunches` is the effect.
- `FetchCompleted` runs one and then the other, and ends in the settled state
  `filteredLaunches == Filter(launches, searchTerm)`.

`RawAppendIsSettledIff` says exactly when the raw append already equals the
settled rows.

Two behaviours of the code are easy to miss; the model follows the code in
both:

- The "No results found" notice (`pages/spacex.js:123-127`) appears whenever
  the shown list is empty and nothing is loading, even when the search term
  is empty. `NoticesFor` states that condition, and `NoResultsIffNothingFetched`
  shows that with the empty term it appears exactly when nothing has been
  fetched, for example when the API's first page is empty.
- The cursor also advances for a page whose fetch then fails, so that page is
  never requested again (`FailedPageIsSkipped`).

## Model

| member | source | states |
|---|---|---|
| `Launches.LowerChar` | pages/spacex.js:71 | The result is never an upper-case ASCII letter; other characters are unchanged; `A`..`Z` move by 32 code points to `a`..`z`. |
| `Launches.ToLower` | pages/spacex.js:71 | Lower-casing keeps the length, turns every upper-case ASCII letter into its lower-case letter (32 code points on), leaves no upper-case ASCII letter, and keeps every character that was not upper case. |
| `Launches.ToLowerIdempotent` | pages/spacex.js:71 | Lower-casing twice is lower-casing once. |
| `Launches.ToLowerEmpty` | pages/spacex.js:67-71 | A term lower-cases to the empty string exactly when it is empty. |
| `Launches.Includes` | pages/spacex.js:71 | `includes` can hold only if the needle is no longer than the haystack, and the empty needle is always included. |
| `Launches.IncludesMeansOccurs` | pages/spacex.js:71 | `includes` holds exactly when some window of the haystack equals the needle (both directions). |
| `Launches.EveryLaunchMatchesEmptyTerm` | pages/spacex.js:67-71 | Every mission name contains the empty term. |
| `Launches.Matches` | pages/spacex.js:71 | The search predicate on one launch: every launch matches the empty term, and a term longer than the mission name never matches. |
| `Launches.MatchesIgnoresTermCase` | pages/spacex.js:71 | Whether a launch matches depends on the term only through its lower-cased form. |
| `Search.Select` | pages/spacex.js:70-72 | `launches.filter(...)` returns no more launches than it was given, every launch it returns matches the term, and every one of them comes from the input. |
| `Search.Filter` | pages/spacex.js:66-75 | The rows the search effect installs are no more than the launches, all match the term, and all come from the launches (for both the empty-term and the filtering branch). |
| `Search.SelectEmptyTermIsIdentity` | pages/spacex.js:67-72 | Selecting by the empty term returns the launches unchanged. |
| `Search.FilterEmptyTermIsIdentity` | pages/spacex.js:66-68 | With the empty term the shown rows equal `launches` exactly, which is also what the general branch would give. |
| `Search.FilterIsSelect` | pages/spacex.js:66-75 | Both branches of the search effect compute the same selection. |
| `Search.SelectIsSubsequence` | pages/spacex.js:70-72 | The selection is an order-preserving subsequence of the launches. |
| `Search.FilterIsSubsequence` | pages/spacex.js:66-75 | The shown rows are an order-preserving subsequence of `launches`, hence no longer than it. |
| `Search.SelectCounts` | pages/spacex.js:70-72 | The selection keeps each matching launch as many times as it occurs and drops every other launch. |
| `Search.FilterKeepsExactlyTheMatches` | pages/spacex.js:66-75 | The shown rows hold each matching launch with its multiplicity and nothing else; a launch is shown exactly when it was fetched and matches. |
| `Search.SelectAppend` | pages/spacex.js:70-72 | Selecting from a concatenation selects from each part and concatenates the results. |
| `Search.FilterAppend` | pages/spacex.js:66-75 | After a page is appended, the settled rows are the old rows followed by the page's matches. |
| `Search.SelectIdempotent` | pages/spacex.js:70-72 | Selecting again by the same term changes nothing. |
| `Search.FilterIdempotent` | pages/spacex.js:66-75 | Filtering the shown rows again by the same term returns them unchanged. |
| `Search.SelectIgnoresTermCase` | pages/spacex.js:70-72 | Terms with the same lower-cased form select the same launches. |
| `Search.FilterIgnoresTermCase` | pages/spacex.js:69-73 | Terms that differ only in ASCII case show the same rows. |
| `Search.SelectKeepsAllWhenAllMatch` | pages/spacex.js:70-72 | When every launch matches, the selection is the whole input. |
| `Search.RawAppendIsSettledIff` | pages/spacex.js:25-26 | Appending a page raw to settled rows gives the settled rows exactly when the term is empty or every launch of the page matches (both directions). |
| `Pagination.Offset` | pages/spacex.js:16-17 | The offset of a page is a multiple of 10, is never negative from page 1 on, and divided by 10 gives back the page minus 1. |
| `Pagination.RequestFor` | pages/spacex.js:16-17 | A page's request asks for 10 launches, and its offset divided by its limit, plus 1, is the page: distinct pages give distinct requests. |
| `Pagination.OffsetNonNegative` | pages/spacex.js:15-18 | From page 1 on the offset is never negative, and page 1 starts at offset 0. |
| `Pagination.ConsecutiveWindowsAdjacent` | pages/spacex.js:16-17 | Page n+1's window starts exactly where page n's window of 10 ends. |
| `Pagination.WindowsDisjoint` | pages/spacex.js:16-17 | The windows of two different pages share no position. |
| `Pagination.PageOfPosition` | pages/spacex.js:16-17 | Every non-negative position lies in the window of exactly one page, and that page is at least 1. |
| `Pagination.FirstPagesCover` | pages/spacex.js:16-17 | Pages 1 to n together ask for exactly the positions 0 to 10n-1. |
| `Render.NoticesFor` | pages/spacex.js:117-127 | The loading indicator shows exactly while loading; "No more data" shows exactly when paging ended and nothing loads; "No results" shows exactly when no row is shown and nothing loads. |
| `Render.LoadingHidesOtherNotices` | pages/spacex.js:117-127 | While loading, the indicator is the only notice. |
| `Render.SteadyListShowsNoNotice` | pages/spacex.js:117-127 | With rows shown, more data available and nothing loading, no notice shows. |
| `Render.ExhaustedEmptyListShowsBoth` | pages/spacex.js:118-127 | An exhausted source with no rows shows both end notices together. |
| `Render.IsLastItem` | pages/spacex.js:105 | A row is last exactly when the list is non-empty and the row's index plus 1 is the row count; a last row is always in range. |
| `Render.LastItemIndex` | pages/spacex.js:104-109 | The reference sits on a row exactly when some row is shown; it is on the last row, and it is the only row that is last. |
| `LaunchList.SpaceXLaunches.NoResultsIffNothingMatches` | pages/spacex.js:123-127 | In a settled, idle state with a non-empty term, "No results found" shows exactly when no fetched launch matches the term. |
| `LaunchList.SpaceXLaunches.NoResultsIffNothingFetched` | pages/spacex.js:123-127 | In a settled, idle state with the empty term, "No results found" shows exactly when no launch has been fetched. |
| `LaunchList.SpaceXLaunches.constructor` | pages/spacex.js:4-9 | Mounting starts with no launches, an empty term, cursor 1, more data assumed and loading true, and it has requested page 1. |
| `LaunchList.SpaceXLaunches.RequestPage` | pages/spacex.js:12-18 | Starting a fetch for the cursor's page raises `loading`, records the page in the request history and asks for limit 10 at offset (page-1)*10. |
| `LaunchList.SpaceXLaunches.ApplyFetchResult` | pages/spacex.js:22-32 | An empty array ends paging and keeps the launches. A non-empty array is appended after the launches and, raw, after the shown rows, and `hasMore` is kept. A failure keeps everything. Every outcome ends with `loading` false, and `hasMore` never turns true. |
| `LaunchList.SpaceXLaunches.SyncFilteredLaunches` | pages/spacex.js:66-75 | The search effect leaves the shown rows equal to `Filter(launches, searchTerm)` and changes nothing else. |
| `LaunchList.SpaceXLaunches.FetchCompleted` | pages/spacex.js:22-32 | The settled effect of a completed fetch: the launches grow by the page; the shown rows grow by the page's matches; the cursor and the request history are kept; `loading` ends false, so the loading indicator is gone. An empty page or a failure keeps the launches and the rows, and `hasMore` never returns to true. "No more data" shows exactly when paging has ended, in particular after an empty page. |
| `LaunchList.SpaceXLaunches.OnLastItemVisible` | pages/spacex.js:40-47 | The intended guard of the observer callback: in the model, a visible last row requests a page exactly when nothing is loading, more data may exist and a row is shown. It then advances the cursor by exactly 1 and requests the new page's window. Otherwise nothing changes. |
| `LaunchList.SpaceXLaunches.SetSearchTerm` | pages/spacex.js:84-85 | A new term replaces the old one and the shown rows become `Filter(launches, term)`; launches, cursor and paging state stay untouched. |
| `Scenarios.ThreeFullPagesThenExhausted` | pages/spacex.js:22-28 | Three pages of ten followed by an empty page leave 30 launches, cursor 4 and paging ended; only "No more data" shows; a further visible last row requests nothing. |
| `Scenarios.FailedPageIsSkipped` | pages/spacex.js:29-32 | After page 2 fails, the launches and `hasMore` are kept, and the next visible last row requests page 3 at offset 20. |
| `Scenarios.DuplicateEventWhileLoading` | pages/spacex.js:41-45 | A second visible-row event while page 2 is loading requests nothing. |
| `Scenarios.LowerFalcon` | pages/spacex.js:71 | "Falcon d" and "falcon d" both lower-case to "falcon d". |
| `Scenarios.FalconMatches` | pages/spacex.js:71 | "falcon 9" matches the mission "Falcon 9" and does not match "Falcon 1". |
| `Scenarios.FalconSearch` | pages/spacex.js:70-72 | Searching "falcon 9" over "Falcon 1" and "Falcon 9" shows only "Falcon 9". |

## Left out

- The HTTP request, the endpoint URL and `response.json()` (`pages/spacex.js:15-20`). These are network I/O and a foreign JSON decoder. A fetch ends as `Received(data)` with an array of launches, or `Failed`.
- `LaunchList.SpaceXLaunches.FetchCompleted`: a body that parses to something other than an array has no counterpart in the model, and the source does not catch it. An object (such as an HTTP error body) has no `length`, so it passes the test at line 22 and its spread at lines 25-26 throws inside React's state updater, outside the `try`, which crashes the component. A string is spread into single characters that are appended as launches. Only `null` reaches the `catch` at line 29 and behaves as `Failed`.
- The construction of the IntersectionObserver, its thresholds, `observe`/`unobserve` and the ref plumbing (`pages/spacex.js:39, 49-63, 109`). These are a browser API. Only the resulting "last shown row became visible" event is modelled, and it is a no-op when no row is shown.
- `LaunchList.SpaceXLaunches.OnLastItemVisible`: states the guard the component intends, not what the program delivers. The observer is re-attached only when `loading` or `hasMore` change (line 64). It watches whichever row `lastLaunchRef` pointed at in that render. So the program can stall: under a non-empty term, a page whose last launch does not match has its raw-appended row (line 26) observed. The search effect then removes that row, and no later scroll requests a page, even after the term is cleared. The model requests the next page there. The program can also request twice: after a failed fetch under a term, clearing the term turns the observed row into a middle row. When that row becomes visible, the cleanup at lines 60-61 unobserves the new last row instead of it. So it keeps firing while the next page loads and can send a second fetch. The model never requests while loading.
- React's scheduling: batched `setState`, the order in which effects run, and async interleaving. Each event is one atomic step. Two visibility callbacks delivered before a re-render could advance the cursor twice; the model does not capture this.
- `Launches.ToLower`: lower-cases ASCII letters only. It does not model the Unicode case mapping of `toLowerCase`, which is locale-free and table-driven.
- `console.error` logging (`pages/spacex.js:30`), and all markup and inline styling (`pages/spacex.js:78-129`) apart from the notice conditions and the last-row reference.
- `pages/index.js`: a static page with no state, branching or computation.
