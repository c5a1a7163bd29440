# Figma exporter — a verified model

The exporter is a small Node service. A `POST /run` request, guarded by a bearer
secret, starts one export run. The run launches a headless browser, opens the design file in it,
clicks the "Re-sync Google Sheets Data" plugin control (polling for up to 30 s), and
waits up to 90 s until no visible element still shows "Fetching images". It then
settles for 15 s and reads the file's current version. Next it asks the rendering API
for a PNG of every configured node at that version. Each image is downloaded, written
to the export directory as `<nodeId with first ':' → '_'>_<time>.png`, and uploaded
to the storage bucket under `figma/<fileName>`, replacing any earlier object. The run
answers with the cache-busted public URLs, in entry order.

The model replaces the browser, the HTTP APIs, the storage client, the MIME table and
the clock with an `Oracle` value: total functions from time, URL or key to what the
outside world answers. The file's version, for instance, is a function of the time the
metadata request is sent. The deployment's `Config` holds `FILE_KEY` and the `NODE_IDS`
variable as it is set (or unset), and the node-id list is parsed from it. The run's state is a `World`:

- the clock;
- whether the browser is open;
- the clicks made on the page;
- the HTTP requests sent, in order;
- the bucket (key → bytes and content type);
- the export directory.

Every awaited external call advances the clock by `Oracle.latency`, and every sleep
advances it by its exact duration. `Date.now()` reads the clock.

The project has these modules:

- `JsText`: the JavaScript string built-ins the script relies on (`trim`, `includes`,
  `split`, `join`, single-character `replace`, and the decimal rendering of a number).
- `Naming`: node-id parsing, file names, storage keys, content types and
  cache-busted URLs.
- `Dom`: the two scans run inside the page, over a page modelled as a sequence of
  (text, visible) element records.
- `Polling`: the bounded polling loop both waits follow.
- `Pipeline`: the whole run as functions of the oracle and the starting world, and
  the properties of those functions.
- `Exporter`: the script as imperative code. `Runtime` is a class whose fields are the
  world. Its methods are `uploadToSupabase`, the export loop, the two polling
  `while` loops, the settle and version fetch, and `runFigmaExport`. Each method is
  proved to leave exactly the state and return exactly the result that the matching
  `Pipeline` function describes.
- `Server`: the `POST /run` handler, a pure function from the configured secret, the
  Authorization header and the run to a response.

Where the source and its documentation disagree, the model follows the code. The
browser is closed only after a successful export (export.js:131). A browser that fails
to launch was never opened. Once it has launched, a failed navigation, a missing
control, a sync timeout, or any API, download or storage failure leaves it open.
`Pipeline.RunClosesBrowserOnlyOnSuccess` states this.

## Model

| member | source | states |
|---|---|---|
| JsText.TrimStartDropsLeadingWhitespace | export.js:92 | `trimStart` keeps a suffix of the text that does not start with whitespace and drops only whitespace |
| JsText.TrimEndDropsTrailingWhitespace | export.js:92 | `trimEnd` keeps a prefix of the text that does not end with whitespace and drops only whitespace |
| JsText.TrimPadded | export.js:92 | trimming a text surrounded only by whitespace gives back the text, when it neither starts nor ends with whitespace |
| JsText.TrimStartPadded | export.js:92 | leading whitespace before a text that does not start with whitespace is removed exactly |
| JsText.TrimEndPadded | export.js:92 | trailing whitespace after a text that does not end with whitespace is removed exactly |
| JsText.IncludesOccurs | export.js:113 | `includes` is true exactly when the substring occurs at some position |
| JsText.Split | export.js:17 | `split(',')` yields at least one segment, and no segment contains the separator |
| JsText.JoinSplit | export.js:17 | joining the segments of a split with the same separator gives back the original string |
| JsText.SplitJoin | export.js:44 | splitting a join of separator-free segments gives back the segments |
| JsText.ReplaceFirst | export.js:57 | `replace(':', '_')` keeps the length; it changes only the first occurrence of ':' and keeps every other character |
| JsText.NumberToString | export.js:57 | the decimal rendering of a time is non-empty, digits only, with no leading zero |
| JsText.DecimalRoundTrip | export.js:40 | reading back the decimal rendering of a number gives that number |
| JsText.NumberToStringInjective | export.js:57 | distinct numbers have distinct decimal renderings |
| Naming.ParseNodeIds | export.js:17 | with `NODE_IDS` unset or empty the list is exactly `["0:1"]`; otherwise it is the comma split, empty segments included, and joining it with ',' gives back the variable |
| Naming.NodeIdsParam | export.js:44 | the `ids` parameter is the configured string itself, or "0:1" when unset or empty, and splitting it gives back the parsed list |
| Naming.FileNameLayout | export.js:57 | a file name is the node id with its first ':' replaced, then '_', then the decimal time, then ".png"; a node id without ':' appears verbatim |
| Naming.FileNameDeterminesStamp | export.js:57 | two file names for the same node are equal only when their timestamps are |
| Naming.DistinctNodesMayShareFileName | export.js:57 | node ids "1:2" and "1_2" get the same file name at the same time, because ':' is turned into '_', a character a node id may already contain |
| Naming.StorageKeyInjective | export.js:30-39 | the key is "figma/" followed by the file name, the file name reads back from it, and distinct files get distinct keys |
| Naming.ContentType | export.js:28 | the content type is the lookup's answer when it is a non-empty string, else "application/octet-stream"; it is never empty |
| Naming.CacheBustedUrlLayout | export.js:39-40 | the URL is the public URL, then "?t=", then digits that read back as the publish time |
| Naming.CacheBustingChangesUrl | export.js:40 | publishing at two different times yields two different URLs |
| Dom.FindControlFirstMatch | export.js:89-98 | the scan returns the first element whose trimmed text equals the label, or none exactly when no element's trimmed text equals it |
| Dom.PaddedLabelIsFound | export.js:92 | an element whose text is the label padded with whitespace is the one found, when no earlier element matches |
| Dom.VisibleElementsKeepsVisible | export.js:112 | the `offsetParent` filter keeps exactly the visible elements |
| Dom.AnyIncludesSome | export.js:113 | `some(... includes ...)` holds exactly when some element's text contains the text |
| Dom.SyncDoneMeans | export.js:110-114 | over the page's (text, visible) records, the sync counts as done exactly when no record marked visible has a text containing "Fetching images"; a record marked hidden never holds it up by its own text |
| Polling.PollFacts | export.js:88-100 | a wait stops at the first poll that sees its goal; every poll begins within the budget; a wait that fails has seen the goal at no poll and has spent its budget |
| Polling.PollSpacing | export.js:99 | consecutive polls are separated by the previous poll's evaluation time plus the 1000 ms sleep |
| Polling.PollCountBound | export.js:85-100 | a wait makes at most one poll per second of its budget |
| Pipeline.ActivateFacts | export.js:84-102 | the control wait clicks once exactly when a poll within 30000 ms found the label, and clicks the first matching element; otherwise nothing is clicked, every poll missed and the budget was spent; only the clock and clicks change |
| Pipeline.AwaitSyncFacts | export.js:105-118 | the sync wait succeeds exactly when a poll within 90000 ms saw no visible busy element; otherwise every poll saw one and the budget was spent; only the clock changes |
| Pipeline.PublishFacts | export.js:26-41 | publishing changes only the file's key; it succeeds exactly when the file exists and the upload has no error; on success the key holds the file's bytes and content type and the URL is the key's public URL with the time; an upload error yields no URL and leaves the key as it was or removed |
| Pipeline.PublishIsIdempotent | export.js:30-35 | publishing the same file again succeeds (upsert) and leaves the same bucket |
| Pipeline.PublishIgnoresExistingObject | export.js:32-35 | the upload is an upsert: whatever the bucket already holds changes neither the result nor the clock, and a success leaves the key holding the same object |
| Pipeline.PublishIgnoresRemoval | export.js:30 | whether the removal took effect changes neither the result nor the timing |
| Pipeline.ExportEntryFacts | export.js:55-64 | one pass logs exactly its download; a success publishes its entry's downloaded bytes under the key built from the node id and writes only that key; a failure is a download or storage error and at most removes that key |
| Pipeline.ExportEntryWritesFile | export.js:56-59 | a pass writes the downloaded bytes under the file name built from the node id and the download's return time, and keeps every earlier file of the reused directory; a failed download writes nothing |
| Pipeline.ExportLoopCount | export.js:55-66 | the loop publishes at most one object per entry, and finishes without failure exactly when it published one for every entry |
| Pipeline.ExportLoopFailure | export.js:55-64 | the loop stops only on a failed download or upload |
| Pipeline.ExportLoopFrame | export.js:55-64 | the loop neither clicks nor closes the browser |
| Pipeline.ExportLoopPublishesInOrder | export.js:55-64 | the j-th object published records the j-th entry, with the bytes downloaded for it |
| Pipeline.ExportLoopRequests | export.js:55-56 | the loop downloads each entry once, in order, up to and including the one that failed |
| Pipeline.ExportLoopStoresInOrder | export.js:59-61 | after a loop without failure the bucket is the starting bucket with every published object written in order |
| Pipeline.ExportLoopFailsAfterPrefix | export.js:55-64 | a failed loop is its successful prefix followed by one failing pass |
| Pipeline.OverlayKeepsLastWrite | export.js:32-35 | a key holds the last object written to it |
| Pipeline.OverlayKeepsUntouched | export.js:32-35 | a key no upload touches keeps its object |
| Pipeline.ExportLoopFailureKeepsEarlier | export.js:55-64 | a failure aborts the run with every earlier upload still in the bucket, except that the failing pass may have removed its own key |
| Pipeline.ExportKeepsPage | export.js:43-67 | the export neither clicks nor opens or closes the browser |
| Pipeline.ExportFailures | export.js:45-64 | a failed rendering request fails with an API error before any download, with the bucket untouched; otherwise the export fails only on a download or upload |
| Pipeline.ExportRequests | export.js:44-66 | a successful export sent one batched rendering request for the configured nodes, then one download per entry in order, and returns one URL per entry |
| Pipeline.ExportPublishesEveryEntry | export.js:43-67 | a successful export published every returned entry, in order, with its URL, and the bucket holds them written in order |
| Pipeline.FetchKeepsPage | export.js:121-132 | after the sync nothing is clicked; the browser is closed after a successful export and left as it was after a failure |
| Pipeline.FetchFailures | export.js:123-129 | a failed metadata request stops the run before any rendering request, with the bucket untouched; otherwise the run fails only on rendering, download or upload |
| Pipeline.FetchAndExportSends | export.js:121-129 | a successful export sent the metadata request 15000 ms after the sync ended, then the rendering request with the version that request returned, stamped with the time its response arrived and carrying the `NODE_IDS` string (or "0:1" when unset or empty), then the downloads |
| Pipeline.RunClosesBrowserOnlyOnSuccess | export.js:70-131 | a launch failure fails the run with its message and changes nothing but the clock; once the browser has launched, it is left open exactly when the run fails |
| Pipeline.RunControlNotFound | export.js:84-102 | the run fails for want of the control exactly when the browser launched, the page opened and no poll within 30000 ms found it; then nothing is clicked or sent, the bucket is untouched and the browser is open |
| Pipeline.RunSyncTimeout | export.js:105-118 | a run that times out on the sync clicked once, sent nothing, saw a visible busy element at every poll and spent the 90000 ms budget |
| Pipeline.RunSuccess | export.js:69-133 | a successful run launched the browser, opened the page, clicked once and saw the sync finish; 15000 ms after the sync wait ended it sent one metadata request, then one rendering request at the version that request returned, stamped when its response arrived, for the `NODE_IDS` nodes (or "0:1"), then one download per entry; it returns one URL per entry and closed the browser |
| Exporter.Runtime.Sleep | export.js:99 | sleeping advances the clock by the duration and changes nothing else |
| Exporter.Runtime.UploadToSupabase | export.js:26-41 | the method leaves the world and returns the result `Pipeline.PublishSpec` describes |
| Exporter.Runtime.ExportImage | export.js:56-62 | one pass of the loop body leaves the world and returns the result `Pipeline.ExportEntry` describes |
| Exporter.Runtime.ExportFromFigmaApi | export.js:43-67 | the rendering request and the `for` loop leave the world and return the URLs `Pipeline.ExportSpec` describes |
| Exporter.Runtime.PollControl | export.js:88-100 | the control `while` loop ends as the control wait `Polling.Poll` describes, at its clock, and when it found the control it clicks the first matching element of the last poll |
| Exporter.Runtime.ActivateControl | export.js:84-100 | the control wait returns whether it clicked and leaves the world `Pipeline.ActivateSpec` describes |
| Exporter.Runtime.PollSync | export.js:109-116 | the sync `while` loop ends as the sync wait `Polling.Poll` describes, at its clock |
| Exporter.Runtime.AwaitSync | export.js:105-116 | the sync wait returns whether the sync finished and leaves the world `Pipeline.AwaitSyncSpec` describes |
| Exporter.Runtime.FinishExport | export.js:120-132 | the settle, version fetch, export and close leave the world and return the result `Pipeline.FetchAndExport` describes |
| Exporter.Runtime.RunFigmaExport | export.js:69-133 | the whole run leaves the world and returns the result `Pipeline.RunSpec` describes |
| Server.BearerComparison | server.js:10 | the header equals "Bearer " followed by the secret exactly when it is "Bearer", one space, and the secret with nothing after it |
| Server.HandleRun | server.js:8-21 | with the secret set, a header other than "Bearer " followed by the secret gets 401 "Unauthorized" and nothing runs; otherwise the run happens exactly once, and its URLs come back unchanged with 200, or its error message with 500 |
| Server.ControlNotFoundAnswer | server.js:14-20 | an accepted request whose run never finds the control gets 500 with "❌ Plugin button not found.", and leaves the browser open and the bucket untouched |

The loops are proved one iteration at a time with step lemmas that have no row of their
own: `Polling.PollStep` and `Polling.PollExhausted` (export.js:88-100),
`Pipeline.ControlPollStep` and `Pipeline.SyncPollStep` (the two scans inside one poll),
and `Pipeline.EntryLoopStep` and `Pipeline.UrlsAppend` (one pass of the `for` loop and
the `push` of its URL). The loop lemmas are stated for any pass with the properties
`LogsDownload`, `KeepsPage`, `Records`, `StoresItem` and `FailsInTransfer`; the lemmas
`Pipeline.EntryStepLogsDownload`, `EntryStepKeepsPage`, `EntryStepRecords`,
`EntryStepStoresItem`, `EntryStepFailsInTransfer`, `EntryStepFailureRemovesAtMost` and
`EntryStepBehaves` carry `Pipeline.ExportEntryFacts` over to the script's own pass.

## Left out

- Launching Chromium (export.js:70-75) may fail with a message (`Oracle.launch`). Opening a tab, loading `cookies.json`, `setCookie` and `page.goto` (export.js:77-82) may then fail with a message (`Oracle.navigation`); a failure to parse `cookies.json` is one such message. Together the two steps take one awaited call's latency.
- Dom.SyncDoneMeans: an element's text stands for its `textContent`, which includes hidden descendants. The model does not relate a parent's text to its children's, so it does not show that a hidden busy node inside a visible container still holds up the wait.
- `page.evaluate` never fails: each poll of either wait (export.js:89, export.js:110) returns an answer computed from the oracle's elements. The model does not capture a rejected evaluation, which in the script ends the run at once with the browser open and the budget unspent.
- `browser.close()` (export.js:131) never fails: after a successful export the browser is closed and the run succeeds. A rejected close, which the script reports as a failed run, is not modelled.
- `fs.writeFileSync` and `fs.readFileSync` (export.js:59, export.js:27) never fail, so a full disk or a denied permission does not end a pass; within the model a pass fails only on the download or the upload.
- Browsers across requests: `World.browserOpen` is one flag for the run's own browser. The model does not count browsers across requests, so it does not show that every failed run leaks its Chromium while a later successful run closes only its own.
- Pipeline.PublishIsIdempotent: upload errors are fixed per key for all time (`Oracle.uploadError` depends on the key only), so the second publish succeeds because the first did; a transient upload failure is not modelled. What upsert itself promises is `Pipeline.PublishIgnoresExistingObject`.
- CSS selectors and `page.evaluate`: the panel's and the page's elements at each time are oracle inputs, and a visible element is one with a layout parent.
- `String.prototype.trim` is modelled with the ECMAScript whitespace and line-terminator code points listed out. Unicode category lookup is not modelled.
- The Figma REST calls and the image downloads (axios) are oracle answers: the version, the rendering response per request, and the bytes or error per URL. Headers and tokens are not modelled.
- The storage client: removal success, upload error and public URL per key are oracle functions. The bucket itself is a map in the world.
- `mime.lookup` is an oracle function from file name to an optional type.
- `Date.now()` and `setTimeout`: time is the world's clock, advanced by each awaited call's latency and by each sleep's exact duration.
- `fs.existsSync`/`mkdirSync` (export.js:53) and the real directory path: the export directory is a map from file name to bytes.
- `console.log` and `console.error` output.
- Express routing, `GET /` and `app.listen` (server.js:23-29); the JSON serialisation of the bodies.
- Concurrent runs sharing the cookie file and the export directory.
- `Object.entries` order: the rendering response is a sequence, and the model keeps its order.
- Exporter.Runtime.ActivateControl: the wait (`PollControl`) follows the clock and the click in local variables, and `ActivateControl` stores them when it ends. No one observes the runtime during a wait, so the end state is the same.
- Exporter.Runtime.AwaitSync: the wait (`PollSync`) follows the clock in a local variable, and `AwaitSync` stores it when it ends.
- Error messages from axios and the storage client are the oracle's strings. The missing-file message is written in the `ENOENT` form, and it cannot occur, because the file is always written first.
