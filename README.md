# KlimaDAO data harvesters in Dafny

A model of the three harvesting scripts of the repository and proofs about it:

- `treasury_assets.py`: sweeps 90-day windows from the launch date (2021-10-01) to now. It queries the `treasuryAssets` collection once per window with `timestamp_gte` / `timestamp_lt` and accumulates four column lists in lockstep. If any record was fetched, it labels each token address from a fixed 15-entry table and writes the CSV.
- `protocol_metrics.py`: cursor pagination over the `protocolMetrics` collection. The first query has no cursor; each query after the first asks for up to 1000 records with `timestamp_gt` the last timestamp of the previous page. The loop stops at the first empty page, extends eighteen column lists, and writes the CSV with no empty guard.
- `crawl.py`: the Snapshot proposal crawler. It scrolls the listing until a KIP-1 link renders or the page height stops changing, keeps the links whose stripped text starts with `KIP`, and visits each one. On each page it extracts the vote count (the first number in the first element that mentions a vote and contains a number; 0 if there is none) and the options (a primary selector, then two backup selectors with "Results" and duplicates dropped). A failed visit becomes a placeholder record. The records are sorted by the number after `KIP-`, with non-matching texts last.

Files:

- `wrappers.dfy`: `Option`.
- `pytext.dfy` (module `PyText`): the parts of Python's `str` the crawler uses, which are `strip`, `startswith`, `in`, `lower`, `\d+` and `int`.
- `treasury_assets.dfy` (`TreasuryAssets`), `protocol_metrics.dfy` (`ProtocolMetrics`), `crawl.dfy` (`Crawl`): one module per script.

The loops of the scripts are methods with loop invariants, each proved against a function that specifies it. The properties the scripts rely on are lemmas about those functions.

External inputs become parameters:

- The treasury endpoint is a function from the where clause to the four returned columns.
- The clock is the parameter `endTime`.
- The metrics endpoint is a mock over a finite dataset. It applies the `timestamp_gt` filter and returns the first 1000 admitted records in stored order. The query's ascending sort by timestamp is reflected by requiring the dataset to be stored in ascending timestamp order.
- The browser is what it shows. The listing is a snapshot before scrolling plus one snapshot after each scroll, each holding a height and the rendered links. A proposal page is either a failure or the texts its selectors return.

Two details of the scroll loop as the code has them:

- The KIP-1 test accepts `KIP-1 ` anywhere in the stripped text (crawl.py:34).
- The height test compares each scroll with the height before it. This includes the height before the first scroll (crawl.py:42 and 56-66).

## Model

| member | source | states |
|---|---|---|
| TreasuryAssets.TreasuryWhere | treasury_assets.py:22-26 | `timestamp_gte` is a key exactly when a start is given, and `timestamp_lt` exactly when an end is given; each carries its value; there are no other keys |
| TreasuryAssets.WindowsBounded | treasury_assets.py:56-57 | every window satisfies `from <= start < end <= endTime` and `end - start <= interval` |
| TreasuryAssets.WindowsContiguous | treasury_assets.py:55-74 | no windows exactly when `endTime <= from`; the first window starts at `from` and the last ends at `endTime`; each window starts where the previous one ended; every window but the last is exactly `interval` wide |
| TreasuryAssets.WindowsCover | treasury_assets.py:55-74 | every time in `[from, endTime)` lies in some window |
| TreasuryAssets.WindowsOrdered | treasury_assets.py:56-74 | a later window starts no earlier than an earlier one ends (no overlap) |
| TreasuryAssets.WindowsPartition | treasury_assets.py:55-75 | a time lies in some window if and only if it lies in `[from, endTime)`, and it never lies in two windows |
| TreasuryAssets.WindowsCount | treasury_assets.py:50-75 | there are `ceil((endTime - from) / interval)` windows when `from < endTime` (stated without division) and none otherwise |
| TreasuryAssets.OneWindowScenario | treasury_assets.py:46-57 | from the launch date, an end exactly 90 days later gives a single window |
| TreasuryAssets.TwoWindowScenario | treasury_assets.py:46-57 | an end 96 days after launch gives a full window and then one clamped to the end |
| TreasuryAssets.AccumulateShape | treasury_assets.py:64-71 | the accumulated id column holds as many ids as all windows returned (an empty window adds none); if every window's answer is in lockstep, so are the accumulated columns |
| TreasuryAssets.AccumulateLast | treasury_assets.py:64-71 | one-step unfolding of `Accumulate`: the last window's columns are appended when its id column is non-empty, and otherwise nothing changes |
| TreasuryAssets.AccumulateAppend | treasury_assets.py:64-68 | accumulating over two consecutive stretches of windows gives the first stretch's records followed by the second's, in sweep order |
| TreasuryAssets.Lookup | treasury_assets.py:90-107 | no label exactly when the address is not in the table; otherwise the label is one paired with the address in the table |
| TreasuryAssets.TokenAddressesDistinct | treasury_assets.py:90-106 | the table has 15 entries with pairwise distinct addresses, so no entry of the dictionary literal is overwritten |
| TreasuryAssets.LookupListed | treasury_assets.py:107 | in a table with distinct addresses, a listed address gets exactly its own label |
| TreasuryAssets.TokenNameTable | treasury_assets.py:90-107 | each of the 15 listed addresses gets its label; any other address gets an absent label, never an error |
| TreasuryAssets.ColumnsOf | treasury_assets.py:83-88 | the four data columns of a table are in lockstep, with one entry per row |
| TreasuryAssets.Rows | treasury_assets.py:83-107 | one row per record; the data columns read back as the input columns; each row's label is its token's label |
| TreasuryAssets.SaveTreasury | treasury_assets.py:81-112 | no file exactly when no id was accumulated; pandas' error exactly when ids exist but the columns differ in length; otherwise rows that read back as the columns, each labelled |
| TreasuryAssets.GetTreasuryAssets | treasury_assets.py:44-112 | the loop visits exactly the windows of the sweep and terminates; its columns are the accumulation over those windows; its output is the save step applied to them |
| ProtocolMetrics.SupplyWhere | protocol_metrics.py:20-22 | `timestamp_gt` is a key exactly when a cursor is given, and it carries the cursor; there are no other keys |
| ProtocolMetrics.FilterMembers | protocol_metrics.py:24-29 | the endpoint's filter passes exactly the records of the dataset that the where clause admits |
| ProtocolMetrics.Take | protocol_metrics.py:25 | `first=1000` returns the whole sequence when it is short enough and otherwise its first 1000 records |
| ProtocolMetrics.ServeLastAbove | protocol_metrics.py:75-81 | the last record of a non-empty page lies above the cursor that was sent |
| ProtocolMetrics.AboveMonotone | protocol_metrics.py:20-22 | moving the cursor forward never admits more records |
| ProtocolMetrics.AboveShrinks | protocol_metrics.py:59-85 | moving the cursor to the timestamp of an admitted record strictly shrinks the records above it, so the loop terminates |
| ProtocolMetrics.AboveWithin | protocol_metrics.py:20-22 | a record above a later cursor is also above an earlier one |
| ProtocolMetrics.AboveNone | protocol_metrics.py:20-22 | with no cursor (the first query) every record is admitted |
| ProtocolMetrics.AboveAbove | protocol_metrics.py:20-22 | filtering by an earlier cursor and then a later one is filtering by the later one |
| ProtocolMetrics.AboveAll | protocol_metrics.py:20-22 | when every record is above the cursor, the filter removes nothing |
| ProtocolMetrics.AboveSuffix | protocol_metrics.py:20-22 | with distinct ascending timestamps, the records above the `m`-th record's timestamp are exactly those after it |
| ProtocolMetrics.FlattenAppend | protocol_metrics.py:70-71 | concatenating two page lists concatenates their records |
| ProtocolMetrics.Columns | protocol_metrics.py:32-51 | eighteen column lists, each with one cell per record; the id and timestamp columns hold each record's id and timestamp |
| ProtocolMetrics.ColumnsAppend | protocol_metrics.py:70-71 | each column of two record runs together is the first run's column followed by the second's |
| ProtocolMetrics.ColumnsExtend | protocol_metrics.py:70-71 | extending each column list by a page's column gives the columns of all the pages so far |
| ProtocolMetrics.ExtendColumns | protocol_metrics.py:70-71 | `final_data[i].extend(metrics[i])` for every column: each column becomes itself followed by the page's column |
| ProtocolMetrics.Transpose | protocol_metrics.py:89-108 | one row per index, cell `i` of row `k` is entry `k` of column `i` |
| ProtocolMetrics.SaveMetrics | protocol_metrics.py:87-112 | pandas' error exactly when the columns differ in length; otherwise the eighteen headers and one row per record, even when there are no records (no empty guard) |
| ProtocolMetrics.HarvestStep | protocol_metrics.py:62-81 | one-step unfolding of `Harvest`: an empty page ends the harvest; a non-empty page is followed by the harvest from its last timestamp |
| ProtocolMetrics.TraceStep | protocol_metrics.py:59-85 | a non-empty answer extends a run that follows the protocol: page and query are appended, and the cursor becomes the page's last timestamp |
| ProtocolMetrics.TraceEnd | protocol_metrics.py:62-67 | an empty answer finishes the run: the first query is empty, each later one carries the previous page's last timestamp, every page but the last is non-empty, and the last is empty |
| ProtocolMetrics.HarvestFrom | protocol_metrics.py:59-85 | pages that each answer the cursor left by the page before, ending with the first empty page, are exactly what `Harvest` collects from that cursor |
| ProtocolMetrics.TraceIsHarvest | protocol_metrics.py:55-85 | a finished run receives exactly the pages `Harvest` collects from no cursor |
| ProtocolMetrics.RunEnds | protocol_metrics.py:62-67 | the break path: the run is finished, its pages are the harvest, and the columns are those of its records |
| ProtocolMetrics.RunContinues | protocol_metrics.py:68-85 | the continue path: the run still follows the protocol, and fewer records lie above the new cursor |
| ProtocolMetrics.GetProtocolMetrics | protocol_metrics.py:54-112 | for a dataset in the endpoint's ascending timestamp order (its one requirement), the loop terminates. The first query has an empty where clause. Each later query carries the previous page's last timestamp. It stops at the first empty page with no further query. The pages are the harvest of the dataset. The eighteen columns are the in-order concatenation of all pages' columns, and the output is the save step applied to them. The collected records are in ascending timestamp order |
| ProtocolMetrics.HarvestAbove | protocol_metrics.py:59-85 | every collected record is a record of the dataset above the starting cursor |
| ProtocolMetrics.FilterAscending | protocol_metrics.py:24-29 | a page of an ascending dataset is ascending |
| ProtocolMetrics.FilterStrictlyAscending | protocol_metrics.py:24-29 | a page of a dataset with distinct ascending timestamps has strictly ascending timestamps |
| ProtocolMetrics.HarvestAscending | protocol_metrics.py:59-85 | with the dataset in ascending order, the collected records are in ascending timestamp order across pages |
| ProtocolMetrics.ChunksFlatten | protocol_metrics.py:25 | cutting records into runs of 1000 loses and reorders nothing |
| ProtocolMetrics.ChunksSizes | protocol_metrics.py:25 | `ceil(n / 1000)` non-empty runs then an empty one; run `k` holds `min(1000, n - 1000k)` records |
| ProtocolMetrics.HarvestChunks | protocol_metrics.py:59-85 | with distinct timestamps, the pages are exactly the records above the cursor cut into runs of 1000 |
| ProtocolMetrics.CollectsAll | protocol_metrics.py:54-85 | with distinct timestamps the loop collects the whole dataset in order, in `ceil(n / 1000) + 1` queries |
| ProtocolMetrics.ScenarioPages | protocol_metrics.py:59-85 | 2003 records with distinct timestamps arrive as pages of 1000, 1000, 3 and 0 records: 4 queries, 2003 records collected, and the second cursor is the 1000th timestamp |
| ProtocolMetrics.BoundaryTieDropsRecord | protocol_metrics.py:59-85 | when the 1000th and 1001st records share a timestamp, the 1001st is never collected and the collected records differ from the dataset |
| PyText.LStripSpec | crawl.py:33 | `lstrip` leaves a suffix that does not start with whitespace, and removes only whitespace |
| PyText.RStripSpec | crawl.py:33 | `rstrip` leaves a prefix that does not end with whitespace, and removes only whitespace |
| PyText.StripSpec | crawl.py:33 | the input is the stripped text with whitespace before and after it, and the stripped text has no whitespace at either end |
| PyText.StripUnpadded | crawl.py:33 | a text with no whitespace at either end is its own `strip()` |
| PyText.ContainsSpec | crawl.py:34 | `sub in s` holds exactly when `sub` occurs in `s` at some position |
| PyText.FirstDigitFrom | crawl.py:107 | a position it finds holds a digit and lies at or after the start |
| PyText.FirstDigitFromSpec | crawl.py:107 | no position exactly when no digit follows the start; otherwise no digit comes before the one found |
| PyText.DigitRunAt | crawl.py:107 | the run is all digits and lies inside the text |
| PyText.DigitRunSpec | crawl.py:107 | the run is the slice of the text at the position, and the character after it is not a digit (greedy `\d+`) |
| PyText.FirstNumber | crawl.py:107 | a number, when found, is a non-empty run of digits |
| PyText.FirstNumberSpec | crawl.py:107 | `findall` is empty exactly when the text has no digit; otherwise its first result is the maximal digit run at the first digit |
| PyText.DigitValue | crawl.py:109 | a digit's value is below 10 |
| PyText.DecimalString | crawl.py:109 | a non-empty run of digits; it is the decimal rendering used only as the inverse against which `DecimalValue`, the model of `int()`, is checked (see `DecimalRoundTrip`) |
| PyText.DecimalRoundTrip | crawl.py:109 | `int(str(n)) == n` |
| Crawl.NoKip1Prefix | crawl.py:34 | a text with no `K` after its first character that does not start with `KIP-1 ` does not contain `KIP-1 ` |
| Crawl.Kip1Bare | crawl.py:33-34 | the title `KIP-1` passes the KIP-1 test |
| Crawl.Kip1WithTitle | crawl.py:33-34 | `KIP-1 Launch` passes the KIP-1 test |
| Crawl.Kip1Padded | crawl.py:33-34 | surrounding whitespace is stripped before the test, so ` KIP-1\n` passes |
| Crawl.Kip10Rejected | crawl.py:33-34 | `KIP-10` does not pass the KIP-1 test |
| Crawl.Kip1ColonRejected | crawl.py:33-34 | `KIP-1: Launch` does not pass the KIP-1 test |
| Crawl.IsKip1Present | crawl.py:30-37 | true exactly when some rendered link passes the KIP-1 test |
| Crawl.StopsPastEnd | crawl.py:46-66 | once the observations run out the page is static, so the loop stops there at the latest |
| Crawl.FirstStopFrom | crawl.py:46-64 | the earliest scroll at or after `k` where the loop leaves |
| Crawl.ScrollStop | crawl.py:42-66 | no scroll when KIP-1 is listed at the start; otherwise the earliest scroll after which KIP-1 is listed or the height equals the height before that scroll |
| Crawl.ScrollStopUnique | crawl.py:46-66 | a scroll that stops, with none stopping before it, is the stopping scroll |
| Crawl.ScrollForKip1 | crawl.py:42-66 | the loop terminates after the earliest stopping scroll, returns the page as it then is, and reports whether KIP-1 is listed on it |
| Crawl.ScrollScenarios | crawl.py:42-66 | with KIP-1 rendering after the second scroll, the loop stops there; with the height stalling at the second scroll, it also stops there, without it |
| Crawl.KipLinks | crawl.py:75-80 | every candidate text starts with `KIP`, and there are no more candidates than elements |
| Crawl.KipLinksSound | crawl.py:75-80 | every candidate comes from an element whose stripped text starts with `KIP`, with that text and its href |
| Crawl.KipLinksComplete | crawl.py:75-80 | every element whose stripped text starts with `KIP` yields a candidate |
| Crawl.KipLinksMembers | crawl.py:75-80 | a link is a candidate if and only if some element yields it |
| Crawl.KipLinksAppend | crawl.py:75-80 | the filter keeps render order and duplicates: two stretches of the page give their candidates in turn |
| Crawl.CollectKipLinks | crawl.py:75-81 | the loop appending to `kip_links` produces exactly the KIP links of the page |
| Crawl.MentionsVoteSpec | crawl.py:106 | `'vote' in text.lower()` holds exactly when the four letters `vote`, each in either case, occur at some position of the text |
| Crawl.VoteCountFirst | crawl.py:101-110 | the count is 0 when no element mentions a vote with a number in it; otherwise it is the first number of the first element that does |
| Crawl.VoteCountExample | crawl.py:101-110 | elements "Results", "12 votes", "Voted by 3 addresses" give 12 |
| Crawl.ExtractVotes | crawl.py:101-110 | the `for`/`break` search returns the vote count of the page |
| Crawl.SkipToFirst | crawl.py:104-110 | skipping elements that give no count does not change the count |
| Crawl.NonEmptyTexts | crawl.py:121-125 | no primary option is an empty string |
| Crawl.NonEmptyTextsAppend | crawl.py:122-125 | the primary options of two stretches of elements are those of the first followed by those of the second: render order and duplicates are kept |
| Crawl.NonEmptyTextsMembers | crawl.py:122-125 | a text is a primary option exactly when it is non-empty and the stripped text of some element |
| Crawl.AddDistinctSpec | crawl.py:131-143 | a backup selector keeps the options already found. It adds only non-empty, non-"Results" texts not already present. It keeps the options distinct, misses no acceptable text it was shown, and adds nothing that was not shown |
| Crawl.AddDistinctAppend | crawl.py:132-135 | the backup loop over two stretches of elements is the loop over the first, continued from its result over the second |
| Crawl.AddDistinctLast | crawl.py:132-135 | one more element appends its stripped text at the end when it is non-empty, not "Results" and not yet present, and otherwise changes nothing: added texts keep the order of their first occurrence |
| Crawl.OptionChainSpec | crawl.py:115-143 | options are never empty strings; the primary's texts are used whenever there are any; backup options are distinct and never "Results"; when the first backup yields any, the options are its acceptable texts, all of them and nothing from elsewhere; when it yields none, the options are exactly the acceptable texts of the second backup, all of them and nothing from elsewhere |
| Crawl.PrimaryOptions | crawl.py:119-125 | the loop over the primary selector gives its non-empty stripped texts in order |
| Crawl.BackupOptions | crawl.py:131-143 | the loop over a backup selector gives the deduplicating filter of its texts |
| Crawl.ExtractOptions | crawl.py:115-143 | the options are the fallback chain's. The first backup is queried only when the primary selector gives nothing. The second is queried only when the first backup also gives nothing |
| Crawl.Detail | crawl.py:148-167 | the record keeps the candidate's text and href. A failed visit gives empty content, 0 votes and no options. A loaded one gives the content, the vote count and the option chain |
| Crawl.VisitProposals | crawl.py:86-170 | exactly one record per candidate, in the same order, a failure leaving a placeholder rather than ending the run |
| Crawl.FirstKipMatch | crawl.py:177 | a match found is `KIP-` followed by a digit, at or after the start |
| Crawl.FirstKipMatchSpec | crawl.py:177 | no match exactly when `KIP-` plus a digit occurs nowhere after the start; otherwise the match found is the leftmost |
| Crawl.ExtractKipNumberSpec | crawl.py:176-180 | the sentinel exactly when `KIP-` followed by a digit occurs nowhere; otherwise the whole digit run after the leftmost such `KIP-`, read as a number |
| Crawl.KipNumberAtStart | crawl.py:176-180 | `KIP-12: Treasury` gives 12 |
| Crawl.KipNumberInside | crawl.py:176-180 | `On KIP-3` gives 3: the match need not be at the start |
| Crawl.KipNumberMissing | crawl.py:176-180 | `KIP-x` gives the sentinel |
| Crawl.SortBySpec | crawl.py:183 | the sort returns a permutation of its input, non-decreasing by the key with sentinel keys last |
| Crawl.SortByKipSpec | crawl.py:182-183 | sorting by KIP number returns a permutation of the records, non-decreasing by KIP number |
| Crawl.SentinelsLast | crawl.py:180-183 | in sorted output no record with a number follows one without |
| Crawl.CrawlProposals | crawl.py:18-189 | the run times out when the listing renders no proposal link. Otherwise the KIP links are taken from the page where scrolling stops. Nothing is saved exactly when there are no KIP links. Otherwise the saved rows are a permutation of the per-candidate records, one per candidate, sorted by KIP number |

## Left out

- The browser session: driver setup, page loads, `WebDriverWait` polling, `execute_script` and element lookup. Their results are inputs: the snapshots, and one `Visit` per link.
- Each visit's outcome is a function of its link, so two candidates with the same text and href see the same page. The site is treated as static during a run.
- In the scroll model, observations past the last one repeat it: the page no longer changes, so the loop always terminates.
- The `subgrounds` / GraphQL client and the network. The treasury endpoint is an abstract function of the where clause, and the metrics endpoint is a mock over a finite dataset.
- The `first=1000` page size of the treasury query. It has no loop of its own, so a window with more than 1000 records loses the rest; the abstract endpoint already covers whatever a window returns.
- `time.sleep`, every `print`, and the batch counter, which is used only in messages.
- pandas: DataFrame construction, `to_csv` and the `pd.to_datetime` column. Saving is modelled as the rows or the error it would raise.
- `timestamp_to_utc`, `datetime` and `pytz`. `startTime` and `endTime` are integer parameters; the launch date appears only as the constant `LaunchTime` in the scenarios.
- `json.dumps` of the option list and its round trip through the CSV. Options are kept as a list of strings, and the failure placeholder `"[]"` is the empty list.
- `float('inf')` is the `None` key, ordered after every number.
- The regular expression engine. Only `\d+` and `KIP-(\d+)` are modelled by hand, with ASCII digits only; Python's `\d` also matches other Unicode decimal digits.
- `lower()` is modelled on ASCII letters only. Python's `lower()` also changes non-ASCII letters, but none of them lowers to `v`, `o`, `t` or `e`, so the vote test is unaffected.
- The endpoint's `orderBy="timestamp", orderDirection="asc"` is not computed by the mock. A dataset not in ascending order is excluded by `GetProtocolMetrics`' requirement rather than sorted.
- Exceptions inside vote and option extraction. An exception there keeps whatever was found before it; the model covers the paths without one.
- The outer `try/finally` teardown of the browser and the top-level `except` report.
- A fetch failure in the two metrics scripts, which aborts the run. The model covers runs in which every query answers.
- Crawl.SortByKip: does not claim anything about the order of records with equal keys. pandas' default sort is not guaranteed stable, so only the permutation and the ordering by key are stated.
- ProtocolMetrics.HarvestAscending: states non-decreasing rather than strictly increasing timestamps, because records sharing a timestamp inside one page are all collected. With distinct timestamps the collected records are the dataset itself (`CollectsAll`), so they are strictly increasing.
- The loss of records that share a timestamp across a page boundary is part of the behaviour. It is proved as a property (`BoundaryTieDropsRecord`), not corrected.
