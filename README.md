# Nexus Ignis pipeline, modelled in Dafny

Nexus Ignis keeps the text of web pages that have gone offline. One run of
the pipeline (`main.py`) does four things:

1. It moves the dead-link reports that users filed from the `reported_urls`
   table onto a seed list.
2. The **collector** probes each seed URL with a HEAD request. It writes the
   dead ones to a file, marks their reports `CONFIRMED_DEAD`, and deletes the
   reports of live URLs.
3. The **retriever** asks the Wayback Machine's availability service for the
   closest snapshot of each dead URL. It fetches the snapshot's text and writes
   the records as JSON.
4. The **connector** upserts those records into `archived_documents`.

A browser extension (`extension/background.js`) is meant to look for "page
not found" wording after each page load and report such URLs. As written, the
script it injects throws on the unbound `API_URL` before it can post, so
nothing is reported (see "## Findings"). It also forwards manual submissions
from its popup.

The model has one module per source file. Shared pieces get their own modules:
the URL-list file format, Python's `strptime`, a sub-sequence index helper,
`startswith` and an `Option` type.

| file | module | form |
|---|---|---|
| `archivist/retriever.py` | `Retriever` | the loop is a method with invariants, proved against the prefix functions `Staged` and `Requests` |
| `archivist/collector.py` | `Collector` | the loop is a method, proved against `DeadUrls`, `Synced` and `Targets` |
| `db/connector.py` | `IsoDate` (`_parse_isodate`), `ArchiveStore` (`insert_archive_data`) | `strptime` on a regular-expression model; the record loop as a method; the transaction as "all or the old table" |
| `extension/background.js` | `Background` | the `is404` predicate and payload as functions; the two listeners as methods returning the effects they cause |
| `main.py` | `Pipeline` | the report sync and the three stages as methods, proved against functions of the inputs |
| (shared) | `UrlList`, `Indices`, `Strings`, `Wrappers` | `[line.strip() for line in f if line.strip()]`, writing one URL per line, `"\n".join`; the indices a filter keeps; `startswith`; `Option` |

Everything outside the program is a parameter:
- The network is an arrow from a URL's position to its reply. `Retriever` uses `nat -> Exchange`; `Collector` uses `nat -> HeadReply`.
- Whether a database connection opens, and whether a statement raises, are given as booleans or as a `nat -> bool` per statement.
- File reads and writes are `Option`s (`None`: missing or not written) or booleans (the write succeeded).
- Tables are `map`s. `reported_urls` maps a URL to its status; `archived_documents` maps `original_url` to the `Row` the upsert writes.

Some database behaviour is stated explicitly:
- **Collector.** Its `except` branch neither rolls back nor reconnects. After one statement raises, the transaction stays aborted and every later statement raises too. `Collector.SyncOne` keeps an `aborted` flag for this. `Collector.FailureFreezesTable` proves that the table is then frozen as it was before the failure.
- **Insertion.** `execute_values` sends the records 100 to a page. PostgreSQL rejects an `ON CONFLICT DO UPDATE` that touches one row twice within a statement. So the whole batch fails, and rolls back, when one page holds a URL twice (`ArchiveStore.PageRepeatsUrl`). Repeats on different pages are allowed, and the last one wins (`ArchiveStore.RepeatAcrossPagesPasses`).

A few points of the code are easy to misread, and the model follows the code in each:
- **One snapshot per URL.** The retriever makes only the "closest snapshot" availability call (`archivist/retriever.py`, lines 39-47). It never lists all the snapshots of a URL.
- **Failed fetches are kept.** A found snapshot whose fetch is not a 200, or raises, is still staged. Its record has empty text and the discovered timestamp (lines 59-79, `Retriever.FailedFetchStaged`).
- **The conflict key is the URL alone.** The upsert's conflict target is `original_url` (`db/connector.py`, line 61), so a later snapshot of a URL replaces the earlier one (`ArchiveStore.LaterSnapshotReplaces`). `fix_db_constraints.py` drops the unique constraint on `original_url` and adds a unique index on (`original_url`, `archive_timestamp`) instead, meant to allow several snapshots per URL. Once that script has run, no unique constraint matches `ON CONFLICT (original_url)`, and PostgreSQL rejects every insertion. The model keeps the schema from before that script, with `original_url` unique.

A run that archives nothing still counts as a failure. The insertion returns `False` for an empty JSON list. So a run in which no dead URL has a snapshot, for instance because every seed URL is alive, exits with status 1 (`Pipeline.NothingArchivedFails`).

## Model

| member | source | states |
|---|---|---|
| `UrlList.Strip` | archivist/retriever.py:20 | `line.strip()` neither starts nor ends with Python whitespace |
| `UrlList.StripSlice` | archivist/retriever.py:20 | the stripped line is a slice of the line with only whitespace cut off either end |
| `UrlList.StripStripped` | archivist/retriever.py:20 | stripping an already stripped string changes nothing |
| `UrlList.Lines` | archivist/retriever.py:19-20 | the text split at every "\n" or "\r" into at least one piece, none containing a line break; the pieces are not Python's file lines (those keep their terminator, and an empty file has none), but after stripping and dropping blanks (`UrlList.NonBlankStripped`) they give what the comprehension gives |
| `UrlList.NonBlankStripped` | archivist/retriever.py:20 | the comprehension yields at most one URL per line, each non-empty and stripped |
| `UrlList.ReadUrls` | archivist/retriever.py:19-20 | the comprehension over a file's lines: a clean URL list (`UrlList.ReadUrlsIsUrlList`) that reads back what `WriteLines` wrote (`UrlList.ReadWriteRoundTrip`) |
| `UrlList.ReadUrlsIsUrlList` | archivist/collector.py:15 | the URLs read from any file are non-empty, stripped and free of line breaks |
| `UrlList.WriteLines` | archivist/collector.py:91-93 | one `url + "\n"` per dead URL; its partner is `UrlList.ReadWriteRoundTrip` |
| `UrlList.NonBlankStrippedAppend` | archivist/retriever.py:20 | the comprehension over two runs of lines is the concatenation of the two results (order kept) |
| `UrlList.LinesAround` | archivist/retriever.py:19-20 | the lines of `a + "\n" + b` are the lines of `a` followed by those of `b` |
| `UrlList.ReadWriteRoundTrip` | archivist/collector.py:92-93 | writing each URL followed by `"\n"` and reading the file back gives the same list |
| `UrlList.Join` | main.py:47 | `"\n".join(pending_urls)`; `UrlList.ReadJoin` and `UrlList.AppendedUrls` say what reading it back gives |
| `UrlList.ReadJoin` | main.py:47 | `"\n".join(parts)` reads back as the parts, stripped, blank ones dropped |
| `UrlList.AppendedUrls` | main.py:46-47 | appending `"\n" + "\n".join(parts)` adds the parts' URLs after the file's own, existing URLs unchanged |
| `UrlList.NonBlankStrippedOfUrlList` | archivist/retriever.py:20 | a list of clean URLs is read back unchanged |
| `IsoDate.Search` | db/connector.py:24 | a match captures one string per directive and ends within the input |
| `IsoDate.Strptime` | db/connector.py:24 | whatever `strptime` returns is a valid `datetime` (year 1..9999, a real day of the month, seconds up to 59) |
| `IsoDate.ParseIsoDate` | db/connector.py:21-26 | `None` for `None` and `""`; every result is a valid date and time; no error escapes |
| `IsoDate.ParseFormatted` | db/connector.py:24 | formatting fields as zero-padded `YYYYMMDDhhmmss` then parsing returns exactly those fields when they are a valid date and time, and `None` when they are not (30 February, year 0, second 60) |
| `IsoDate.TwelveDigitsAccepted` | db/connector.py:24 | `"202111111111"` parses as 2021-11-11 11:01:01: the regular expression's shorter alternatives accept short fields |
| `IsoDate.MonthThirteenRejected` | db/connector.py:24-26 | `"20211301000000"` is `None`: month `1` then day `30`, then the remaining digits fail the minute group |
| `Retriever.Discover` | archivist/retriever.py:43-51 | a snapshot URL is found iff the reply is JSON with `archived_snapshots` holding `closest` holding `url`, and it is `closest["url"]`; a timestamp comes iff the URL came and `closest` has `timestamp`, and it is `closest["timestamp"]` |
| `Retriever.FetchedText` | archivist/retriever.py:53-72 | `cleaned_text`: the extracted text on status 200, `""` otherwise; `Retriever.FailedFetchStaged` and `Retriever.StagedExactly` state where it ends up |
| `Retriever.StageAll` | archivist/retriever.py:29-79 | the loop's `results` and its requests (availability query, then snapshot fetch when found) are exactly `Staged` and `Requests` of the input |
| `Retriever.Run` | archivist/retriever.py:12-91 | a missing input gives `False`, no output and no requests; otherwise the result is whether the write succeeded and the written records are the staged ones |
| `Retriever.StagedExactly` | archivist/retriever.py:74-79 | the records are one per URL whose snapshot was found, in input order, each carrying that URL verbatim, its timestamp and fetched text |
| `Retriever.StagedBound` | archivist/retriever.py:29 | there are never more records than input URLs |
| `Retriever.NotFoundStagesNothing` | archivist/retriever.py:48-51 | URLs whose discovery raised or found nothing stage no records |
| `Retriever.FailedFetchStaged` | archivist/retriever.py:59-72 | a found snapshot whose fetch is not a 200 is still staged, with `""` as text and the discovered timestamp |
| `Retriever.RequestCount` | archivist/retriever.py:39-57 | one availability request per URL plus one fetch per staged record |
| `Collector.TargetUrl` | archivist/collector.py:38-40 | `http://` is prefixed iff the URL starts with neither `http://` nor `https://`; the result always has a scheme |
| `Collector.TargetUrlIdempotent` | archivist/collector.py:38-40 | normalising a normalised URL changes nothing |
| `Collector.IsDead` | archivist/collector.py:47-62 | dead iff the probe raised or answered 404; `Collector.DeadUrlsExactly` states the dead list in terms of it |
| `Collector.Apply` | archivist/collector.py:72-80 | the committed `UPDATE ... CONFIRMED_DEAD` or `DELETE` of one URL; `Collector.SyncedOnlyConfirmsOrDeletes`, `Collector.SyncedOtherRowsUnchanged` and `Collector.PresenceUnchangedByDead` state its effect |
| `Collector.SyncOne` | archivist/collector.py:71-82 | one URL's statement, with the aborted transaction making every later statement fail; `Collector.FailureFreezesTable` and `Collector.SyncedLastVerdict` state the result |
| `Collector.CheckAll` | archivist/collector.py:37-87 | the loop yields `DeadUrls`, the probed targets in order, and the table after `Synced` (untouched without a connection) |
| `Collector.Run` | archivist/collector.py:10-98 | missing input gives `False` with the table untouched; otherwise the output file is each dead URL followed by `"\n"` and the result is whether the write succeeded |
| `Collector.DeadUrlsExactly` | archivist/collector.py:48-66 | the dead list is the sub-sequence of the input URLs (unnormalised) whose probe raised or returned 404, in input order |
| `Collector.DeadUrlsAreUrlList` | archivist/collector.py:64-66 | the dead list is a clean URL list, so its file reads back as itself |
| `Collector.SyncedOnlyConfirmsOrDeletes` | archivist/collector.py:71-80 | no row is inserted; a remaining row keeps its status or becomes `CONFIRMED_DEAD` |
| `Collector.SyncedOtherRowsUnchanged` | archivist/collector.py:71-80 | rows for URLs not in the input are unchanged |
| `Collector.SyncedSettlesEveryUrl` | archivist/collector.py:71-80 | with no failing statement, every input URL ends `CONFIRMED_DEAD` or without a row |
| `Collector.SyncedSettlesListedUrl` | archivist/collector.py:71-80 | the same for one given URL of the input |
| `Collector.SyncedLastVerdict` | archivist/collector.py:71-80 | a URL's last occurrence decides its row: alive deletes it, dead keeps it exactly when it existed just before |
| `Collector.PresenceUnchangedByDead` | archivist/collector.py:73-75 | a URL only ever judged dead has a row afterwards iff it had one before |
| `Collector.FailureFreezesTable` | archivist/collector.py:81-82 | once a statement fails, nothing later takes effect: the final table is the table before that statement |
| `ArchiveStore.Timestamp` | db/connector.py:48-52 | a missing or `null` timestamp stores `NULL`; a parsed one is valid |
| `ArchiveStore.Text` | db/connector.py:49 | missing text defaults to `""`, `null` stays `NULL`, a string is kept |
| `ArchiveStore.CollectRecords` | db/connector.py:45-52 | the loop builds exactly `Records` of the items |
| `ArchiveStore.InsertArchiveData` | db/connector.py:28-78 | missing file, no connection or unreadable JSON: `False`, table unchanged; empty list: `False`; no valid record: `True`, unchanged; a database error or a page repeating a URL: `False`, unchanged; otherwise `True` with all records upserted |
| `ArchiveStore.RecordsExactly` | db/connector.py:46-52 | the records are the items with a non-empty `original_url`, in order, each converted field by field |
| `ArchiveStore.RecordsWellFormed` | db/connector.py:51-52 | every record has a non-empty URL and a valid timestamp when it has one |
| `ArchiveStore.UpsertAll` | db/connector.py:58-68 | the `INSERT ... ON CONFLICT (original_url) DO UPDATE` batch, committed; `ArchiveStore.UpsertLastWins`, `ArchiveStore.UpsertOthersUnchanged`, `ArchiveStore.UpsertKeys` and `ArchiveStore.UpsertIdempotent` state its effect |
| `ArchiveStore.PageRepeatsUrl` | db/connector.py:61-67 | two records for one URL within one 100-record page of `execute_values`; `ArchiveStore.SameUrlInOnePageRejects`, `ArchiveStore.DistinctUrlsPass` and `ArchiveStore.RepeatAcrossPagesPasses` state when it holds |
| `ArchiveStore.UpsertLastWins` | db/connector.py:58-64 | after the upsert a URL's row holds its last record's timestamp and text |
| `ArchiveStore.UpsertOthersUnchanged` | db/connector.py:58-64 | rows of URLs outside the batch are unchanged |
| `ArchiveStore.UpsertKeys` | db/connector.py:58-64 | the upsert never deletes: the keys are the old ones plus the batch's URLs |
| `ArchiveStore.UpsertAppend` | db/connector.py:58-68 | two batches in a row commit what their concatenation would |
| `ArchiveStore.UpsertIdempotent` | db/connector.py:58-68 | upserting the same batch twice gives the table after once |
| `ArchiveStore.LaterSnapshotReplaces` | db/connector.py:61-63 | a second record for the same URL overwrites the first one's timestamp and text |
| `ArchiveStore.SameUrlInOnePageRejects` | db/connector.py:67 | two records for one URL among the first 100 make the batch fail |
| `ArchiveStore.DistinctUrlsPass` | db/connector.py:67 | a batch of distinct URLs passes the per-page check |
| `ArchiveStore.RepeatAcrossPagesPasses` | db/connector.py:61-67 | a URL repeated only at positions 0 and 100 lies on two pages: the batch passes the per-page check, and the record at position 100 is what the upsert stores |
| `Background.ApiUrl` | extension/background.js:8 | the endpoint is `CONFIG.API_URL` when `CONFIG` is defined, otherwise the localhost default; `OnMessage` and `OnCompletedCorrected` post only there |
| `Background.Lower` | extension/background.js:34-35 | lower-casing acts character by character and keeps the length |
| `Background.DetectDeadPage` | extension/background.js:54-79 | a report is posted iff the page looks dead, only ever to the endpoint with payload `{url: currentUrl, source: 'extension'}`; a notification follows iff the reply decoded |
| `Background.DetectDeadPageAsWritten` | extension/background.js:33-81 | a live page does nothing; a dead-looking page with no `API_URL` in scope throws before posting |
| `Background.Is404` | extension/background.js:34-52 | the verdict; `Background.Is404Iff`, `Background.Is404Monotone` and `Background.Is404IgnoresCase` state what it means |
| `Background.OnCompleted` | extension/background.js:11-30 | sub-frame navigations, a failed tab query and navigations outside the active tab do nothing; otherwise the script is injected with the URL as its only argument and its as-written effects follow, so the listener never posts anything |
| `Background.OnCompletedCorrected` | extension/background.js:11-30 | the same guards, with the endpoint `ApiUrl(config)` handed to the script: a report goes to that endpoint iff the navigation is a main-frame one in the active tab and the page looks dead |
| `Background.OnMessage` | extension/background.js:84-106 | only `submitUrl` posts, to `ApiUrl(config)` with `{url, source: 'extension'}`, and keeps the channel open; the answer is `{success: true, data}` or `{success: false, error}` |
| `Background.IncludesIff` | extension/background.js:51 | `includes` holds iff the substring occurs at some position |
| `Background.IncludesTransitive` | extension/background.js:38-47 | a substring of a substring is a substring |
| `Background.IncludesExtended` | extension/background.js:50-52 | text around a string keeps its substrings |
| `Background.AnyIndicatorIff` | extension/background.js:50-52 | `some` over the indicators holds iff one indicator occurs in the title or the text |
| `Background.Is404Iff` | extension/background.js:34-52 | the page looks dead iff one of the eight indicators occurs in the lower-cased title or lower-cased text |
| `Background.LowerAppend` | extension/background.js:34-35 | lower-casing distributes over concatenation |
| `Background.Is404Monotone` | extension/background.js:50-52 | adding text before or after the title or text never turns a dead verdict into a live one |
| `Background.LowerUpper` | extension/background.js:34-35 | lower-casing forgets upper-casing and is idempotent |
| `Background.Is404IgnoresCase` | extension/background.js:34-35 | changing the case of any letters of the title or text does not change the verdict (whole-string upper- and lower-casing are such changes, `Background.CaseChangesOnly`) |
| `Background.RedundantIndicators` | extension/background.js:38-47 | "page not found", "halaman tidak ditemukan" and "error 404" contain other indicators |
| `Background.EssentialIndicatorsSuffice` | extension/background.js:38-52 | the verdict is the same with the five indicators that contain no other |
| `Background.AsWrittenNeverReports` | extension/background.js:22-26 | as written, the injected script never posts anything |
| `Background.TitleStarting404` | extension/background.js:34-52 | a title starting with "404" makes the page look dead |
| `Background.AsWrittenMissesNotFoundPage` | extension/background.js:56 | a page titled "404 Not Found" looks dead, yet the as-written script throws before `fetch` |
| `Background.CorrectedMatchesIntent` | extension/background.js:33-81 | with `API_URL` in scope, the as-written script does exactly what `DetectDeadPage` does |
| `Pipeline.MarkProcessing` | main.py:51 | the status update keeps every row |
| `Pipeline.SeedAfterSync` | main.py:39-57 | the seed file after the sync; `Pipeline.SeedKeepsContent` and `Pipeline.SeedUrlsAfterSync` state what it holds |
| `Pipeline.ReportedAfterSync` | main.py:50-57 | `reported_urls` after the sync, committed only when nothing raised; `Pipeline.MarkProcessingMovesPending` and `Pipeline.NoReportLeftPending` state its effect |
| `Pipeline.SyncReports` | main.py:34-57 | the seed file gets `"\n" + "\n".join(pending)` only with a connection, pending reports and a successful query; the status update sticks only when nothing raised |
| `Pipeline.StoreStage` | main.py:73-78 | the insertion of the retriever's file succeeds iff it is non-empty, connected, error-free and repeats no URL on a page, and then upserts the converted records |
| `Pipeline.CollectStage` | main.py:28-64 | the collector runs on the existing seed file or the dummy, with the pending reports appended; its table and output are those of `Collector` |
| `Pipeline.RunPipeline` | main.py:12-80 | stages run in order; exit status 0 iff all three succeed; a failing stage skips the later ones (no archive requests, no writes); the archive table changes only on success |
| `Pipeline.DeadListRoundTrip` | main.py:61-71 | the retriever reads exactly the collector's dead list from the file between them |
| `Pipeline.StagedUrlsFromInput` | main.py:66-71 | every staged record's URL is one of the retriever's input URLs |
| `Pipeline.StagedUrlsNonEmpty` | main.py:66-76 | every record in the archive file has a non-empty URL from the dead list |
| `Pipeline.RecordsOfItems` | main.py:73-76 | the insertion keeps every record of the retriever's file, converted field by field |
| `Pipeline.SeedKeepsContent` | main.py:29-47 | the existing seed file, or the dummy when missing, is kept as a prefix: the sync only appends |
| `Pipeline.SeedUrlsAfterSync` | main.py:44-47 | the collector sees the seed's URLs, then those of the pending reports when they were appended |
| `Pipeline.PendingUrlsScanned` | main.py:44-47 | clean pending URLs reach the collector verbatim, after the seed's own |
| `Pipeline.MarkProcessingMovesPending` | main.py:51 | every pending report becomes `PROCESSING`, others are unchanged, none stays `PENDING` |
| `Pipeline.NoReportLeftPending` | main.py:51 | after a sync that went through, no report is `PENDING` at the end of the run |
| `Pipeline.PendingReportsSettle` | main.py:44-62 | with a clean sync and no failing statement, every report that was `PENDING` ends `CONFIRMED_DEAD` or deleted |
| `Pipeline.PaddedReportStaysProcessing` | main.py:46-51 | a pending URL with surrounding whitespace is moved to `PROCESSING` and never settled |
| `Pipeline.NothingArchivedFails` | main.py:73-78 | when no dead URL has a snapshot the archive file is empty and the run exits with status 1 |
| `Pipeline.SuccessStoresStagedUrls` | main.py:73-80 | after a successful run every staged URL has a row with its last record's timestamp and text |

## Left out

- HTTP requests, their timeouts and the `time.sleep` pacing: modelled only by the oracles' replies; no time passes.
- BeautifulSoup parsing and tag removal: the cleaned text is part of the content reply.
- JSON encoding and parsing: the retriever's file is its record list, read back field by field.
- JSON values other than strings and `null`, and items that are not objects: the model's fields are only absent, `null` or a string. The retriever writes `closest.get('timestamp')` as the service returned it; the model types the availability reply's `closest` fields as strings (`map<string, map<string, string>>`), so it assumes the service sends a string there, and under that assumption the retriever only ever writes strings and `null` and these values cannot reach the insertion within a pipeline run. In `insert_archive_data` they behave as follows, and none of it is modelled:
  - `if url:` (`db/connector.py`, line 51) skips a falsy non-string `original_url` (`0`, `false`, `[]`, `{}`);
  - `if not date_str` (line 22) turns a falsy non-string timestamp into `NULL`;
  - a truthy non-string timestamp raises `TypeError` in `strptime`, and a non-object item raises `AttributeError`; both end in the rollback and `False` (lines 73-76);
  - other non-string URLs and texts are passed to `execute_values` as they are.
- The console output (`print`, `console.log`) and the order in which output interleaves.
- Unicode: `toLowerCase` is ASCII-only, and `strptime`'s `\d` is ASCII digits only (Python's `\d` also matches other Unicode digits).
- psycopg2 connection handling, cursors, and statements outside those named: connection success and statement failures are parameters.
- `Retriever.Run`: reading an existing input file is assumed to succeed or be `None`; decoding errors are folded into `None`.
- `Pipeline.RunPipeline`: creating the data directory and the dummy seed file is assumed to succeed, and exceptions outside the `try` blocks (which would crash the program) are not modelled.
- `Pipeline.CollectStage`: the seed file, existing or just created, is assumed readable, so the collector always gets its text. `Collector.Run` models the collector's `False` for an input it cannot read (`archivist/collector.py`, lines 16-21) through its `None` input, but the pipeline never passes `None`.
- `Pipeline.SyncReports`: `SELECT` order is a parameter. When pending URLs contain line breaks, the appended lines are not the URLs; the lifecycle lemmas assume clean URLs.
- `Background`: `chrome.notifications` is also unavailable inside an injected script; the corrected `DetectDeadPage` keeps the notification as the intended effect. Messages without `url`, and `sendResponse` after the channel closed, are not modelled.
- `web/app.py` (search front end), `extension/popup.js` (UI), `extension/config.js` (a constant) and the schema scripts `fix_db_constraints.py`, `fix_schema.py`, `upgrade_db_multilang.py` are not part of this model.
- `reported_urls` is assumed to hold one row per URL, since the model keys it by URL.

## Findings

| source | as written | input that shows it | evidently intended | confidence | as-written member | corrected member |
|---|---|---|---|---|---|---|
| extension/background.js:22-26 | `detectDeadPage` is injected with `chrome.scripting.executeScript({func})`, whose function runs in the page's isolated world without the service worker's scope, so `API_URL` at line 56 is unbound and throws | a page titled "404 Not Found" in the active tab: `is404` holds, then `fetch(API_URL, …)` raises `ReferenceError` and nothing is reported | pass the endpoint into the script (`args: [details.url, API_URL]`) so the report is posted | not executed; follows from the documented serialisation of `func` | `Background.AsWrittenMissesNotFoundPage` | `Background.OnCompletedCorrected` |
