# Governance explorer reports and Domino server helpers, in Dafny

This project models two pieces of a Python repository and proves properties that their code and design promise. Where the code departs from what it evidently means to do, the model says so: see "## Findings" and "## Left out".

**The governance explorer.** This Streamlit app shows Domino governance bundles in three views:

- the derivations shared by the views (`transforms.py`): stage ordering, assignee lookup, last update, days in the current stage, and the repository branch;
- the audit-history view (`tabs_history.py`): the bundle pick list, bundle resolution, the audit query, the event filter and the event rows;
- the all-bundles view (`tabs_all_bundles.py`): one row per bundle in case-insensitive name order, with four stage slots;
- the metrics view (`tabs_metrics.py`): a table sorted by days in stage, and a chart of the 15 longest-waiting bundles.

**The Domino MCP server's string helpers.** These are:

- URL-parameter validation and percent-encoding;
- cutting a job's stdout down to the text between two fixed markers;
- recognising a local MLflow run link and rewriting it to a Domino experiment URL;
- dropping the local MLflow lines from the results;
- splitting a job command on whitespace.

The modules follow the program's structure:

| module | models |
|---|---|
| `Wrappers` | `Option` and `Result` |
| `Seqs` | list comprehensions, first-match scans and Python's stable sort on sequences |
| `Text` | Python string operations: `strip`, `index`, `split`, `splitlines`, `lower`, string order |
| `Records` | the JSON records the views read (bundles, stage entries, attachments, audit events), with nested `x or {}` lookups flattened to optional fields |
| `Transforms` | `transforms.py` |
| `HistoryTab` | `tabs_history.py` |
| `AllBundlesTab` | `tabs_all_bundles.py` |
| `MetricsTab` | `tabs_metrics.py` |
| `UrlQuote` | `urllib.parse.quote(..., safe='')` and its inverse: UTF-8 then RFC 3986 percent-encoding |
| `DominoHelpers` | the helpers of `domino_mcp_server.py.py` |

The day count of `days_in_current_stage` is modelled as intended, not as written (see "## Findings"). The views are therefore modelled as they behave once that line is corrected.

Timestamps are `Instant`s: integers of nanoseconds in the range of a pandas `Timestamp`. A record field holds what `parse_dt` returned, so `None` means "absent or unparseable". The wall clock (`pd.Timestamp.utcnow()`) becomes a parameter `now`. The audit-event fetch becomes a function parameter `fetch`. `DOMINO_HOST` becomes a parameter `host`.

Code that loops and appends in the source is written as a method with a loop: `order_stages_like_humans`, `compute_last_updated`, the row-building loops and the bundle-name scan. Each such method is proved equal to a specification function, and the properties are proved about that function.

## Model

| member | source | states |
|---|---|---|
| Transforms.UniqueNonEmpty | governance-explorer/src/transforms.py:16-21 | the kept names are exactly the non-empty input names, each once |
| Transforms.OrderStagesLikeHumans | governance-explorer/src/transforms.py:16-21 | the loop over `names` with `seen`/`out` yields exactly `UniqueNonEmpty(names)` |
| Transforms.UniqueNonEmptyKeepsFirstOccurrenceOrder | governance-explorer/src/transforms.py:16-21 | kept names appear in the order of their first occurrence in the input |
| Transforms.UniqueNonEmptyFixesDistinct | governance-explorer/src/transforms.py:16-21 | a list of distinct non-empty names is returned unchanged |
| Transforms.FirstIndexThroughFilter | governance-explorer/src/ui/tabs_all_bundles.py:30 | filtering keeps the relative order of first occurrences |
| Transforms.UniqueNonEmptyIdempotent | governance-explorer/src/transforms.py:16-21 | applying the ordering twice is the same as once |
| Transforms.StageAssigneeForName | governance-explorer/src/transforms.py:23-29 | the display assignee of the first entry whose stage name matches; "Unassigned" when none matches; never empty |
| Transforms.CurrentStageAssignee | governance-explorer/src/transforms.py:38-44 | the same lookup keyed by the bundle's own `stage`; "Unassigned" when no entry matches |
| Transforms.Parsed | governance-explorer/src/transforms.py:35 | the parsed candidates are exactly the non-`None` ones |
| Transforms.MaxOf | governance-explorer/src/transforms.py:36 | `max` of a non-empty list is a member that bounds every element |
| Transforms.LastUpdated | governance-explorer/src/transforms.py:31-36 | `None` iff neither the bundle's nor any attachment's time parsed; otherwise the latest parsed time |
| Transforms.ComputeLastUpdated | governance-explorer/src/transforms.py:31-36 | the appending loop computes exactly `LastUpdated` |
| Transforms.DaysInCurrentStage | governance-explorer/src/transforms.py:46-49 | the corrected day count: -1 when there is no last update |
| Transforms.DaysInCurrentStageAsWritten | governance-explorer/src/transforms.py:46-49 | as written: a value (the sentinel -1) only when there is no last update; otherwise the `TypeError` of localizing a zone-aware timestamp |
| Transforms.DaysInCurrentStageSpec | governance-explorer/src/transforms.py:46-49 | the count is the floor of elapsed whole days; it is non-negative iff the last update is not after `now` |
| Transforms.DaysAsWrittenRaises | governance-explorer/src/transforms.py:49 | every bundle with a creation time makes the code as written raise, while the corrected count is a whole number of days, non-negative iff the last update is not after `now` |
| Transforms.DaysSentinelCollision | governance-explorer/src/transforms.py:46-49 | a last update less than a day in the future also yields -1, the "no timestamp" value |
| Transforms.AttachmentKey | governance-explorer/src/transforms.py:54-56 | the sort key is the parsed time when there is one, and `MinInstant` (`pd.Timestamp.min`) when there is none, so an unparsed time ranks at or below every parsed one |
| Transforms.SafeBranchFromAttachments | governance-explorer/src/transforms.py:51-61 | non-empty iff some attachment has a branch; it is the branch of the latest such attachment (earliest in input on ties, unparsed times ranking lowest) |
| Transforms.LatestWithBranchUnique | governance-explorer/src/transforms.py:54-60 | the attachment chosen is uniquely determined |
| Transforms.SafeBranchPrefersLater | governance-explorer/src/transforms.py:57-60 | of two attachments with branches, the later one wins in either input order |
| HistoryTab.ScanFieldChanges | governance-explorer/src/ui/tabs_history.py:27-29 | the nested loop over targets and field changes finds the first matching change |
| HistoryTab.StageTransition | governance-explorer/src/ui/tabs_history.py:30 | the `before → after` text: `before` first, the arrow right after it, `after` last, so both sides can be read back |
| HistoryTab.PullStageName | governance-explorer/src/ui/tabs_history.py:23-31 | the first named policy-stage entity wins; otherwise the first stage change's transition; "" iff neither exists |
| HistoryTab.FirstAssignee | governance-explorer/src/ui/tabs_history.py:40-43 | the first listed name when truthy, else "Unassigned" |
| HistoryTab.BeforeAfter | governance-explorer/src/ui/tabs_history.py:33-45 | field is one of "", stage, state, assignee; ("", "", "") iff no recognised change; otherwise taken from the first recognised change |
| HistoryTab.BeforeAfterOfStateChange | governance-explorer/src/ui/tabs_history.py:37-38 | a first stage/state change gives its before/after values (missing ones as "") and its field name |
| HistoryTab.BeforeAfterAssigneeExample | governance-explorer/src/ui/tabs_history.py:39-44 | an assignee change adding Alice with nothing removed gives ("Unassigned", "Alice", "assignee") |
| HistoryTab.Values | governance-explorer/src/ui/tabs_history.py:50 | one field value per bundle, in order |
| HistoryTab.InValues | governance-explorer/src/ui/tabs_history.py:50 | a value is listed iff some bundle has it |
| HistoryTab.SortedDistinct | governance-explorer/src/ui/tabs_history.py:50-57 | `sorted({...})`: exactly the non-empty values, no duplicates, sorted by the key |
| HistoryTab.BundleNames | governance-explorer/src/ui/tabs_history.py:50 | no name twice and no empty name |
| HistoryTab.BundleNamesSpec | governance-explorer/src/ui/tabs_history.py:50 | the pick list holds exactly the non-empty bundle names, once each, ordered case-insensitively |
| HistoryTab.ProjectNames | governance-explorer/src/ui/tabs_history.py:57 | no project twice and no empty project |
| HistoryTab.ProjectNamesSpec | governance-explorer/src/ui/tabs_history.py:57 | the project list holds exactly the non-empty project names, once each, in string order |
| HistoryTab.NameCandidates | governance-explorer/src/ui/tabs_history.py:66 | the candidates are exactly the bundles named as selected |
| HistoryTab.NewestUnique | governance-explorer/src/ui/tabs_history.py:67-68 | the newest candidate (earliest in input on ties) is unique |
| HistoryTab.NewestHeadsSort | governance-explorer/src/ui/tabs_history.py:67-68 | the head of the stable newest-first sort is the newest candidate |
| HistoryTab.ResolveBundleId | governance-explorer/src/ui/tabs_history.py:66-69 | a resolved id is never empty |
| HistoryTab.ResolveBundleIdSpec | governance-explorer/src/ui/tabs_history.py:66-69 | resolution fails when no bundle has the name; otherwise it returns the truthy id of the newest candidate |
| HistoryTab.ResolvePrefersLaterBundle | governance-explorer/src/ui/tabs_history.py:66-68 | of two bundles with the same name, the later-created one is chosen |
| HistoryTab.CompleteBound | governance-explorer/src/ui/tabs_history.py:72-77 | the value is kept as a prefix; the suffix is added only when the value has no `T` |
| HistoryTab.CompleteBoundIdempotent | governance-explorer/src/ui/tabs_history.py:72-77 | completing a completed bound changes nothing |
| HistoryTab.AuditQueryParams | governance-explorer/src/ui/tabs_history.py:71-77 | the four fixed keys always; `since`/`until` exactly when the text is non-empty and parses, holding the completed bound |
| HistoryTab.Keep | governance-explorer/src/ui/tabs_history.py:82-88 | with no choices and no project filter every event is kept; a non-empty filter keeps only events that carry that field |
| HistoryTab.FilterEvents | governance-explorer/src/ui/tabs_history.py:82-88 | an event is kept iff it is listed and passes every non-empty filter; no filters keep all events |
| HistoryTab.FilterEventsKeepsOrder | governance-explorer/src/ui/tabs_history.py:88 | filtering distributes over concatenation, so the order is kept |
| HistoryTab.LastBundleName | governance-explorer/src/ui/tabs_history.py:93-97 | "" iff no target names a bundle; otherwise the name on the last bundle target |
| HistoryTab.EventBundleName | governance-explorer/src/ui/tabs_history.py:93-97 | the overwrite loop computes exactly `LastBundleName` |
| HistoryTab.EventRow | governance-explorer/src/ui/tabs_history.py:90-108 | the change column is "", stage, state or assignee; before and after are empty when it is ""; the notes column is empty |
| HistoryTab.BuildEventRow | governance-explorer/src/ui/tabs_history.py:90-108 | the loop body, with its inner bundle-name loop, builds exactly `EventRow(e)` |
| HistoryTab.EventRowsOf | governance-explorer/src/ui/tabs_history.py:89-108 | one row per event |
| HistoryTab.EventRowsOfAt | governance-explorer/src/ui/tabs_history.py:89-108 | row k is the row of event k |
| HistoryTab.EventRows | governance-explorer/src/ui/tabs_history.py:89-108 | the appending loop computes exactly `EventRowsOf`, one row per kept event in order |
| HistoryTab.Render | governance-explorer/src/ui/tabs_history.py:47-111 | pick-a-bundle when nothing is selected; not-found when resolution fails; otherwise it queries with `AuditQueryParams`, filters, and shows no-events or the rows `EventRowsOf` of the kept events |
| AllBundlesTab.Owner | governance-explorer/src/ui/tabs_all_bundles.py:29 | project owner, else creator's user name, else ""; "" iff neither is truthy |
| AllBundlesTab.PresentStageNames | governance-explorer/src/ui/tabs_all_bundles.py:30 | exactly the non-empty stage names of the entries |
| AllBundlesTab.PresentStageNamesInOrder | governance-explorer/src/ui/tabs_all_bundles.py:30 | the present names are the entries' names, in entry order and with repeats, less the empty ones |
| AllBundlesTab.StageSlots | governance-explorer/src/ui/tabs_all_bundles.py:30-32 | always four slots |
| AllBundlesTab.StageSlotsSpec | governance-explorer/src/ui/tabs_all_bundles.py:30-32 | four slots; slot k is non-empty iff there are more than k distinct names, and then it is the k-th name in first-occurrence order; the names are distinct and come from the entries |
| AllBundlesTab.StageSlotsFollowEntries | governance-explorer/src/ui/tabs_all_bundles.py:30-32 | for filled slots k < l, the first entry naming slot k comes before the first entry naming slot l |
| AllBundlesTab.SlotAssignee | governance-explorer/src/ui/tabs_all_bundles.py:45-51 | "Unassigned" for an empty slot, else the lookup by stage name; never empty |
| AllBundlesTab.BundleRow | governance-explorer/src/ui/tabs_all_bundles.py:20-55 | a row has the four slots of `StageSlots` and four non-empty assignees ("Unassigned" under empty slots); days are negative iff there is no update or it is after `now` |
| AllBundlesTab.SortedBundles | governance-explorer/src/ui/tabs_all_bundles.py:17 | a permutation of the bundles, sorted by lower-cased name |
| AllBundlesTab.SortedBundlesStable | governance-explorer/src/ui/tabs_all_bundles.py:17 | `sorted` is stable: bundles whose lower-cased names are equal keep their input order |
| AllBundlesTab.RowsFollowSortedBundles | governance-explorer/src/ui/tabs_all_bundles.py:17-35 | rows built from name-sorted bundles are sorted by lower-cased bundle name |
| AllBundlesTab.RowsInNameOrder | governance-explorer/src/ui/tabs_all_bundles.py:17-35 | the rows of the view are in case-insensitive name order |
| AllBundlesTab.BuildRow | governance-explorer/src/ui/tabs_all_bundles.py:21-55 | the loop body's column-by-column construction, with the four slots unpacked and their assignees looked up one by one, yields exactly the row `BundleRow` of the bundle |
| AllBundlesTab.Rows | governance-explorer/src/ui/tabs_all_bundles.py:18-55 | the appending loop yields one row per bundle, in the given order: the map of `BundleRow` over the bundles |
| AllBundlesTab.Render | governance-explorer/src/ui/tabs_all_bundles.py:11-58 | no-bundles iff the input is empty; otherwise one row per bundle, row k from the k-th bundle in name order |
| MetricsTab.MetricsRow | governance-explorer/src/ui/tabs_metrics.py:12-19 | the assignee column is never empty; days are negative iff there is no update or it is after `now` |
| MetricsTab.Rows | governance-explorer/src/ui/tabs_metrics.py:10-19 | the appending loop computes exactly `AllRows`, one row per bundle in input order |
| MetricsTab.AllRows | governance-explorer/src/ui/tabs_metrics.py:10-19 | one row per bundle |
| MetricsTab.AllRowsAt | governance-explorer/src/ui/tabs_metrics.py:10-19 | row k is the row of bundle k |
| MetricsTab.AllRowsMembers | governance-explorer/src/ui/tabs_metrics.py:10-19 | every bundle's row is listed and every listed row belongs to a bundle |
| MetricsTab.Table | governance-explorer/src/ui/tabs_metrics.py:22-24 | a permutation of the rows, by days descending |
| MetricsTab.Ranked | governance-explorer/src/ui/tabs_metrics.py:25 | exactly the rows with non-negative days, every copy of each kept (the same multiset as the filtered input), by days descending |
| MetricsTab.RankedCount | governance-explorer/src/ui/tabs_metrics.py:25 | a row with non-negative days is ranked as often as it occurs in the input, a negative one never |
| MetricsTab.Top | governance-explorer/src/ui/tabs_metrics.py:25 | at most 15 rows, the leading rows of the ranking |
| MetricsTab.TopIsPrefix | governance-explorer/src/ui/tabs_metrics.py:25 | the top list is the first min(15, n) ranked rows |
| MetricsTab.TopBarCount | governance-explorer/src/ui/tabs_metrics.py:25 | the chart has min(15, n) bars, n the number of input rows with non-negative days, repeated rows included |
| MetricsTab.TopSubMultiset | governance-explorer/src/ui/tabs_metrics.py:25 | the chart rows are drawn from the input |
| MetricsTab.TopMembers | governance-explorer/src/ui/tabs_metrics.py:25 | every chart row is an input row with non-negative days; the rows are by days descending |
| MetricsTab.TopEmptyIff | governance-explorer/src/ui/tabs_metrics.py:25-27 | there are no chart rows iff every row is negative |
| MetricsTab.TopKeepsLargest | governance-explorer/src/ui/tabs_metrics.py:25 | no ranked row left out has more days than a row kept |
| MetricsTab.Chart | governance-explorer/src/ui/tabs_metrics.py:26-27 | no chart iff there are no top rows; otherwise one bar per top row, with its name and days |
| MetricsTab.ChartSpec | governance-explorer/src/ui/tabs_metrics.py:25-27 | no chart iff every row is negative; otherwise at most 15 bars, all non-negative, by days descending |
| MetricsTab.Render | governance-explorer/src/ui/tabs_metrics.py:7-27 | no-bundles iff the input is empty; otherwise the sorted table and the chart of the rows |
| UrlQuote.Utf8RoundTrip | domino_mcp_server.py.py:53 | UTF-8 decoding inverts UTF-8 encoding |
| UrlQuote.QuoteBytes | domino_mcp_server.py.py:53 | one or three characters per octet |
| UrlQuote.Quote | domino_mcp_server.py.py:53 | quoting never shortens the text and at most multiplies its length by 12 (four octets of three characters per character) |
| UrlQuote.QuoteBytesRoundTrip | domino_mcp_server.py.py:53 | percent-encoding bytes is well formed and decodes back to the bytes |
| UrlQuote.QuoteRoundTrip | domino_mcp_server.py.py:53 | `quote(s, safe='')` is well formed and unquotes back to `s` |
| UrlQuote.QuoteKeepsUnreserved | domino_mcp_server.py.py:53 | text of unreserved characters is left as it is |
| UrlQuote.PercentEncodedHasNoDelimiters | domino_mcp_server.py.py:53 | encoded text has no `/ \ ? # & =` or space |
| DominoHelpers.ValidateUrlParameter | domino_mcp_server.py.py:33-53 | "<name> is required" for a missing value; the unsafe-characters error when one of `/ \ ? # & = %` occurs; otherwise the value percent-encoded, and unquoting gives it back |
| DominoHelpers.ValidatedHasNoDelimiters | domino_mcp_server.py.py:50-53 | an accepted parameter cannot add a path segment, query, fragment or parameter |
| DominoHelpers.ValidateKeepsPlainNames | domino_mcp_server.py.py:53 | names of unreserved characters pass unchanged |
| DominoHelpers.MarkerPositions | domino_mcp_server.py.py:64-65 | the first start marker and the first end marker after it, or `None` when there is no such pair |
| DominoHelpers.BracketsUnique | domino_mcp_server.py.py:64-65 | that pair of positions is unique |
| DominoHelpers.FilterDominoStdoutSpec | domino_mcp_server.py.py:56-70 | the fixed message iff the markers are missing; otherwise the stripped text between them |
| DominoHelpers.FilterDominoStdout | domino_mcp_server.py.py:56-70 | whichever way it goes, the result never starts or ends with whitespace |
| DominoHelpers.MarkersMissingStripped | domino_mcp_server.py.py:70 | the fallback message has no surrounding whitespace |
| DominoHelpers.RunLinkOfParts | domino_mcp_server.py.py:78 | prefix, digits, `/runs/` and hex digits, not followed by a further hex digit, make a run link |
| DominoHelpers.MatchAt | domino_mcp_server.py.py:78 | a match starts with the local prefix; the experiment id is one or more digits and the run id one or more lower-case hex digits |
| DominoHelpers.MatchAtSound | domino_mcp_server.py.py:78 | whatever the matcher accepts is a run link with the ids it returns |
| DominoHelpers.MatchAtComplete | domino_mcp_server.py.py:78 | every run link is accepted by the matcher with its ids |
| DominoHelpers.MatchAtIff | domino_mcp_server.py.py:78 | the matcher recognises exactly the run links, with the ids they spell |
| DominoHelpers.SearchFrom | domino_mcp_server.py.py:79 | `re.search`: `None` iff no link starts anywhere; otherwise the leftmost link's ids |
| DominoHelpers.ExtractMlflowUrl | domino_mcp_server.py.py:73-84 | `None` iff the text holds no run link; otherwise `host/experiments/user/project/experiment/run` from the leftmost link |
| DominoHelpers.ExtractMlflowUrlOfLink | domino_mcp_server.py.py:73-84 | a text that is exactly one run link is rewritten with its own ids |
| DominoHelpers.HasExperimentLinkFrom | domino_mcp_server.py.py:107-109 | true iff the experiment-link pattern occurs at or after the position |
| DominoHelpers.KeepLine | domino_mcp_server.py.py:108-109 | a line is kept iff neither pattern occurs anywhere in it |
| DominoHelpers.KeptText | domino_mcp_server.py.py:108-109 | a single line without breaks comes back unchanged when it holds no link, and is dropped (giving "") when it holds one |
| DominoHelpers.KeptLinesAppend | domino_mcp_server.py.py:108-109 | line filtering keeps the order of the surviving lines |
| DominoHelpers.KeptTextOfLayout | domino_mcp_server.py.py:108-109 | for any text laid out as lines and line endings, exactly the lines without a local MLflow link survive, in order, joined by "\n" |
| DominoHelpers.StripLocalMlflowLines | domino_mcp_server.py.py:104-110 | the result is the newline-joined kept lines with only their leading and trailing whitespace removed, and it neither starts nor ends with whitespace |
| DominoHelpers.CheckJobRunResults | domino_mcp_server.py.py:101-113 | the URL comes from the filtered stdout; the results are the filtered stdout, with link lines dropped and stripped when a URL was found |
| Text.Strip | domino_mcp_server.py.py:66 | no whitespace at either end; the result is the input minus leading and trailing whitespace |
| Text.IndexOf | domino_mcp_server.py.py:64-65 | the first occurrence at or after `from`, or `None` where Python raises `ValueError` |
| Text.IsAtConcat | domino_mcp_server.py.py:78 | `a + b` occurs at a position iff `a` does and `b` follows it |
| Text.Split | domino_mcp_server.py.py:156 | every word is non-empty and holds no whitespace |
| Text.SplitKeepsNonSpace | domino_mcp_server.py.py:156 | the words concatenate to the input's non-whitespace characters |
| Text.SplitOne | domino_mcp_server.py.py:156 | a single word splits to itself |
| Text.SplitCons | domino_mcp_server.py.py:156 | a word followed by whitespace or nothing splits off as the first word |
| Text.SplitJoinRoundTrip | domino_mcp_server.py.py:156 | splitting words joined by spaces gives the words back |
| Text.SplitShape | domino_mcp_server.py.py:156 | every text is leading whitespace, then the words separated by non-empty whitespace runs, then trailing whitespace |
| Text.SplitSkipsSpace | domino_mcp_server.py.py:156 | leading whitespace does not change the words |
| Text.SplitOfLayout | domino_mcp_server.py.py:156 | any text laid out that way splits into exactly those words, so the layout determines the split |
| Text.SplitLinesBreakFree | domino_mcp_server.py.py:108 | no line holds a line break |
| Text.SplitLinesShape | domino_mcp_server.py.py:108 | every text is its lines, each followed by one line ending (`\r\n` counting as one), the last ending optional for a non-empty last line, and no empty line after a lone `\r` ends in `\n` |
| Text.SplitLinesOfLayout | domino_mcp_server.py.py:108 | any text laid out that way splits into exactly those lines, so the layout determines the split |
| Text.SplitLinesOne | domino_mcp_server.py.py:108 | a non-empty line without breaks splits to itself |
| Text.SplitLinesCons | domino_mcp_server.py.py:108 | a break-free line followed by one line ending and more text splits off as the first line |
| Text.SplitLinesJoinRoundTrip | domino_mcp_server.py.py:108 | splitting lines joined by newlines gives the lines back |
| Text.Lower | governance-explorer/src/ui/tabs_history.py:50 | the same length, lowering each character |
| Seqs.MapPrefix | governance-explorer/src/ui/tabs_all_bundles.py:18-55 | the list an appending loop builds over the first n elements has exactly n elements |
| Seqs.MapPrefixAt | governance-explorer/src/ui/tabs_all_bundles.py:18-55 | element k of that list is the function applied to input element k |
| Seqs.Sort | governance-explorer/src/ui/tabs_all_bundles.py:17 | `sorted`: a permutation, sorted by the key |
| Seqs.SortStable | governance-explorer/src/ui/tabs_all_bundles.py:17 | the sort is stable: the elements of any one key class come out in their input order |
| Seqs.FilterCount | governance-explorer/src/ui/tabs_metrics.py:25 | a filter keeps every copy of an element that passes and none of one that fails |
| Seqs.FindFirstOfSorted | governance-explorer/src/transforms.py:57-60 | the first match in a stable sort is the best match, earliest in input on ties |

## Left out

- Fetching bundles and audit events (`api.py`, `config.py`), Streamlit widgets and rendering, and the MCP server's HTTP requests, browser call and async tool bodies are I/O. They are represented by parameters (`bundles`, `fetch`, the widget values) or not modelled.
- `parse_dt` and `pd.to_datetime` are not modelled. Records hold the parsed instant as `Option<Instant>`, and the history view's "does this date text parse" check is a boolean parameter.
- ISO formatting of times (`isoformat().replace(...)`) is not modelled: rows hold the instants.
- The raw field-change JSON column (`json.dumps`) is not modelled.
- The wall clock `pd.Timestamp.utcnow()` is the parameter `now`. `DOMINO_HOST` and the API key are parameters or left out.
- Transforms.DaysInCurrentStage: computes the intended day count where the source raises `TypeError` (see "## Findings"). Rows of the all-bundles and metrics views use it, so the model does not capture that those views fail on any bundle with a last update.
- A list field (`attachments`, `stages`, `affecting`, `targets`, `fieldChanges`) that is present but JSON null makes the source iterate `None` and raise `TypeError`. Records hold a plain sequence, so the model reads such a null as an empty list.
- MetricsTab.MetricsRow: a name, project, policy or stage that is present but JSON null shows as "". Python's `b.get(key, "")` would give `None` there.
- The warning that `_filter_domino_stdout` prints when a marker is missing is console output and is not modelled.
- `fetch_bundles(limit=1000)` and the audit `limit` are not enforced on the inputs. The limit appears only as the query value 500.
- Text.Lower: models ASCII lower-casing only, weaker than Python's Unicode `str.lower`.
- MetricsTab.Table: pandas `sort_values` is not a stable sort. The model uses a stable sort, one of the orders pandas may produce.
- HistoryTab.BundleNames: ties between names equal up to case are resolved by a stable sort of the first-occurrence order. Python iterates a set in an unspecified order.
- AllBundlesTab.BundleRow: a name, state, stage, project, policy or id that is present but JSON null shows as "". Python's `b.get(key, "")` would give `None` there.
- HistoryTab.ResolveBundleId: models the in-place `cand.sort(...)` as a stable sort on values.
- UrlQuote.Unquote: is a strict RFC 3986 decoder, not Python's lenient `unquote`. It is used only to state the round trip.
- Lone surrogate code points cannot occur in a Dafny `string`, so Python's error on encoding them is not modelled.
- DominoHelpers.ValidateUrlParameter: a non-string argument (Python's `in` on another type) is not modelled; the value is `Option<string>`.
- DominoHelpers.ExtractMlflowUrl: `\d` is matched as ASCII digits, where Python's `\d` on `str` also accepts other Unicode decimal digits.
- The server module applies `@mcp.tool()` before `mcp` is assigned, and it raises when `DOMINO_API_KEY` is unset. Module loading and decorators are not modelled.
- `check_domino_job_run_status` and `open_web_browser` only call the network or the browser. `run_domino_job` is modelled only through the command split on line 156.

## Findings

| source | as written | input that shows it | evidently intended | confidence | as-written member | corrected member |
|---|---|---|---|---|---|---|
| governance-explorer/src/transforms.py:49 | `pd.Timestamp.utcnow().tz_localize("UTC")` localizes a timestamp that already carries the UTC zone, which pandas refuses with `TypeError` | any bundle with a parsable `createdAt`, such as `{"createdAt": "2024-01-01T00:00:00Z"}` | the whole days from the last update to the current UTC time | not executed; rests on `Timestamp.utcnow()` returning a zone-aware value | Transforms.DaysInCurrentStageAsWritten | Transforms.DaysInCurrentStageSpec |
