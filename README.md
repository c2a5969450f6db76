# Docling SLR converter: job registry, poll controller and server tables

This project models the two pieces of sequential logic in the PDF-to-Markdown
conversion web application, and proves properties of them.

1. **The browser controller** (`docling_app/static/script.js`). It keeps
   three pieces of state:
   - the job registry `uploadedFiles` (id → record);
   - the poll timers `pollIntervals` (id → interval handle);
   - the viewed file `activeFileId`.

   The model is the class `Client.Controller`. Its fields are these three
   fields plus the browser's own table of armed intervals, `liveIntervals`
   (handle → the id its callback polls). Keeping that table lets the
   invariant say that no interval is left armed after it has been forgotten.
   Network replies, fetch outcomes and interval ticks are method inputs, and
   each event is handled whole, one at a time. A method returns the request
   it issues, such as the id whose status it asks for, or whether it fetches
   a result. The pure parts are functions in `Records` (which files are
   sent, the name match, the status merge, the markdown a fetch leaves) and
   in `View` (the name order, the button state, the selection).
2. **The server** (`docling_app/main.py`). The `files` table is a
   `map<string, FileRow>` and `conversion_jobs` is a `seq<JobRow>` in
   insertion order, both in the class `Server.Store`. Upload, convert and
   the worker's final write are methods that change the store. The result
   lookup, the combined download and the chunk plan are read-only. The
   chunk plan and its lemmas are in `Chunking`.

Values that the source draws from outside are passed in as inputs:
`uuid4()` ids, `datetime.now()` readings (`Timestamp`, a `nat` standing for
the ISO string, whose order it keeps), browser interval handles, and the
converter's output. Ids and handles are required to be fresh.

Behaviour of the code worth noting, which the model keeps:
- Re-converting a file does not clear its `markdown`.
- A later status reply can change a completed file's status and leave its
  markdown in place, so a record may hold markdown while it is not
  completed. What holds, and is proved (`Records.Viewed`), is that
  markdown is written only while the file's status is `completed`.
- Status is copied as received, with no monotonicity: any reply may move a
  record to any status.
- There is no client-side chunk-size check, and the client never calls
  `/download-chunked`. The only check is the server's 400 for
  `chunk_size < 1`.
- The client never sends a `mode`, so the server's default `balanced`
  applies (`Server.EffectiveMode` with `None`).

## Model

| member | source | states |
|---|---|---|
| `Records.PdfFiles` | docling_app/static/script.js:144 | exactly the picked files whose type is `application/pdf`: every kept file is such a file and every such file is kept |
| `Records.PdfFilesAppend` | docling_app/static/script.js:144 | the filter keeps picking order: filtering two lists back to back gives the two filtered lists back to back |
| `Records.UploadRequest` | docling_app/static/script.js:141-152 | no request at all when no picked file is a PDF; otherwise the request carries exactly the PDFs, and it is non-empty |
| `Records.FirstNamed` | docling_app/static/script.js:425-430 | returns a sent file with the given name that no earlier sent file shares, and returns nothing exactly when no sent file has that name |
| `Client.FindFileBlob` | docling_app/static/script.js:425-430 | the search loop returns the first sent file with that name (`FirstNamed`) |
| `Records.RegisteredKeys` | docling_app/static/script.js:169-177 | after the upload reply, an id is registered exactly when it was registered before or a returned record with that id matches a sent file by name |
| `Records.RegisteredUntouched` | docling_app/static/script.js:171-176 | an id that no matching returned record carries keeps its old entry, or stays absent |
| `Records.RegisteredLastMatch` | docling_app/static/script.js:171-176 | the entry under a returned id is the server record spread out with the first sent file of its name as `blob`; a later matching record with the same id wins |
| `Client.Controller.OnUploadReply` | docling_app/static/script.js:169-178 | the registration loop leaves the registry as `Registered` describes, asks for conversion of the matched ids in reply order, leaves the timers alone and keeps the controller invariant |
| `Client.Controller.constructor` | docling_app/static/script.js:42-44 | starts with an empty registry, no timers and no viewed file, and the invariant holds |
| `Client.Controller.AtMostOneTimerPerId` | docling_app/static/script.js:207-219 | under the invariant, two armed intervals that poll the same id are the same interval |
| `Client.Controller.PollFileStatus` | docling_app/static/script.js:207-220 | clears the id's old interval if any, polls once at once, and records one new interval; afterwards the new interval is the only armed one for that id |
| `Client.Controller.OnConvertReply` | docling_app/static/script.js:188-205 | an accepted conversion starts polling as `PollFileStatus` does; a rejected one changes nothing |
| `Client.Controller.Tick` | docling_app/static/script.js:217-219 | a tick polls something exactly when its interval is armed, and the id it polls is the one whose recorded timer is that interval |
| `Records.Merged` | docling_app/static/script.js:236-239 | a status reply overwrites `status`, `started_at` and `completed_at`; `name`, `blob` and `markdown` keep their values |
| `Client.Controller.OnStatusReply` | docling_app/static/script.js:222-253 | a reply for an unknown id changes nothing. Otherwise the status fields are merged. A `completed` or `failed` reply removes the id's timer, leaves no armed interval for it, and re-views the file when it is the active one (fetching its result when completed) |
| `Client.Controller.OnStatusFailure` | docling_app/static/script.js:254-258 | a failed status request removes the id's timer and leaves no armed interval for it; the recorded status and the rest of the registry are unchanged |
| `Client.Controller.StopPolling` | docling_app/static/script.js:246-247 | clearing and deleting the id's interval removes exactly that id from `pollIntervals` and its handle from the armed intervals |
| `Records.MarkdownFrom` | docling_app/static/script.js:383-393 | the stored markdown is the fetched content when it is present and non-empty; the no-content error text when it is missing or empty; the load-error prefix followed by the failure message when the fetch fails |
| `Records.Viewed` | docling_app/static/script.js:372-398 | markdown is written only when the status is `completed`; any other status leaves the entry unchanged; no field other than `markdown` changes |
| `Client.Controller.ViewFile` | docling_app/static/script.js:353-398 | an unknown id changes nothing. A registered id becomes the viewed file, its entry becomes `Viewed`, and a result is fetched exactly when it is completed |
| `View.CheckedCount` | docling_app/static/script.js:346 | the count is zero exactly when no box is checked, and equals the number of boxes exactly when every box is checked |
| `View.CheckedCountIsSize` | docling_app/static/script.js:346 | the count is the number of checked positions |
| `View.ButtonState` | docling_app/static/script.js:345-351 | the download button is disabled exactly when no checkbox is checked; select-all is checked exactly when there is a checkbox and every one is checked |
| `View.SelectedIdsLength` | docling_app/static/script.js:83-84 | one id is sent per checked box |
| `View.SelectedIdsExactly` | docling_app/static/script.js:83-84 | an id is sent exactly when some checked row carries it |
| `View.SelectedIdsSingle` | docling_app/static/script.js:83-84 | a single row sends its id exactly when its box is checked |
| `View.SelectedIdsLast` | docling_app/static/script.js:83-84 | adding a row at the end of the list adds its id at the end of the selection exactly when it is checked |
| `View.SelectedIdsAppend` | docling_app/static/script.js:83-84 | the selection keeps row order: two runs of rows back to back select their two selections back to back |
| `View.DownloadMatchesButton` | docling_app/static/script.js:86-89 | a click sends nothing exactly when the button is disabled |
| `View.NameLeqTotal` | docling_app/static/script.js:264 | any two names are comparable in the name order |
| `View.NameLeqTrans` | docling_app/static/script.js:264 | the name order is transitive |
| `View.InsertByName` | docling_app/static/script.js:264 | inserting into a name-sorted list keeps it sorted and adds exactly that entry |
| `View.SortByName` | docling_app/static/script.js:264 | the sorted list is ordered by name and is a permutation of its input |
| `Client.Controller.FileList` | docling_app/static/script.js:262-266 | the drawn rows are every registry entry exactly once, ordered by name |
| `Server.Store.UploadFiles` | docling_app/main.py:84-114 | one `files` row per uploaded part, in input order. Each row has its fresh id, the part's filename as name and original filename, status `uploaded` and its creation time. The reply lists the same records in the same order, and earlier rows and the jobs are unchanged |
| `Server.EffectiveMode` | docling_app/main.py:135-145 | an absent mode means `balanced`; a mode is accepted exactly when it is `fast`, `balanced` or `accurate`, and any other is a 400 |
| `Server.Store.ConvertFile` | docling_app/main.py:134-165 | a bad mode is a 400 before any lookup and an unknown id a 404, both with no change. Otherwise only the file's status (now `processing`) and `started_at` change, and the accepted mode goes to the worker. The job table, and so the store invariant, is untouched |
| `Server.WorkerStatus` | docling_app/main.py:51-56 | the worker's verdict is terminal, and is `completed` exactly when the markdown is non-empty |
| `Server.FinalStatus` | docling_app/main.py:51-69 | the status written to `files` is `completed` exactly when the converter returned non-empty markdown; an empty result or an exception gives `failed` |
| `Server.Store.RunConversion` | docling_app/main.py:42-73 | when the converter returns, one job row is appended with that status, result and error text; an exception appends none. The file's status and `completed_at` are set when the file exists, and "completed exactly when the result is non-empty" stays true of every job row |
| `Server.LatestCompleted` | docling_app/main.py:171 | finds nothing exactly when the file has no completed job. Otherwise it gives a completed job of the file with the greatest creation time, and no later-inserted job of the file ties with it |
| `Server.GetResult` | docling_app/main.py:167-176 | a 404 exactly when the file has no completed job; otherwise the result of a completed job of the file that no other completed job of it postdates |
| `Server.Store.ResultFor` | docling_app/main.py:167-176 | the endpoint on the store answers as `GetResult` on its job table, and under the store invariant a result it returns is never empty |
| `Server.ResultNonEmpty` | docling_app/main.py:51-62 | in a job table the worker wrote, a result the endpoint returns is never empty |
| `Server.ResultAfterCompletion` | docling_app/main.py:58-62 | after the worker inserts a completed job no older than any other, the result endpoint returns exactly its markdown |
| `Server.CombinedEmptyIff` | docling_app/main.py:194-211 | the combined download is empty, hence a 404, exactly when no requested id has a non-empty completed result |
| `Server.CombinedAppend` | docling_app/main.py:194-206 | the combined text is built in request order, one section per id: the text for two requests back to back is the two texts back to back |
| `Server.Store.DownloadChunk` | docling_app/main.py:185-220 | the loop's output is the sections in request order (separator with the original filename, then the latest completed result), or a 404 exactly when no id contributes |
| `Server.FileInfo` | docling_app/main.py:232-243 | the names dictionary has exactly the requested ids as keys |
| `Server.BuildFileInfo` | docling_app/main.py:231-243 | the loop builds that dictionary: a known file's original name without a trailing `.pdf`, `unknown-` and the id otherwise |
| `Server.ChunkEntries` | docling_app/main.py:257-263 | one entry per id of the chunk, in order, with its name and `number_in_chunk` running from 1 |
| `Server.Store.DownloadChunked` | docling_app/main.py:222-279 | a chunk size below 1 is a 400 before any table is read; otherwise the reply is the chunk plan of the requested ids with their display names |
| `Server.PlanNames` | docling_app/main.py:256-263 | every entry of the plan carries its own file's display name |
| `Chunking.ChunkCount` | docling_app/main.py:246-247 | the ceiling-division count is the ceiling of n/k: its chunks can hold all n ids, and one chunk fewer could not |
| `Chunking.ChunkStartInRange` | docling_app/main.py:251-254 | every chunk index below the count starts inside the id list |
| `Chunking.PlanChunkCount` | docling_app/main.py:245-247 | `total_chunks` equals the number of chunks and is the ceiling of `total_files / chunk_size`; it is zero exactly when no ids are requested |
| `Chunking.PlanChunkShape` | docling_app/main.py:251-270 | each chunk holds between 1 and `chunk_size` ids, exactly `chunk_size` except possibly the last. `file_count` is its length and `chunk_number` is its index plus one. Its entries list its ids in order, with `number_in_chunk` from 1 to `file_count` |
| `Chunking.JoinPrefix` | docling_app/main.py:251-254 | the first m chunks joined are the first min(m·k, n) ids |
| `Chunking.PlanCoversInOrder` | docling_app/main.py:250-254 | joining every chunk's `file_ids` in chunk order gives back the request's `file_ids` exactly: every id once, in order |
| `Chunking.StripPdf` | docling_app/main.py:237-241 | a name ending in `.pdf` in any letter case loses exactly its last four characters; any other name is kept whole; the result is always a prefix of the name |

## Left out

- DOM construction, CSS classes, the log panel, the loading overlay, the
  PDF iframe, object URLs and the save button are UI with no state of the
  model.
- `renderMarkdown` and the showdown library are not modelled. The raw or
  rendered toggle only changes what is drawn.
- Real `fetch`, FastAPI routing, `FileResponse`, `get_pdf`, `get_status`
  and the file writes of `upload_files` are I/O. Their replies are method
  inputs: `StatusReply`, `ResultFetch`, the `accepted` flag of
  `OnConvertReply` and the upload reply of `OnUploadReply`.
- The failed-upload branch only logs and changes nothing, so no member
  stands for it.
- `setInterval` timing and `updateTimers` are not modelled. Elapsed
  seconds come from `Date` and `Math.round` and change no state. Ticks are
  abstract events (`Controller.Tick`).
- Requests in flight are not modelled. Each event is handled whole, in the
  order given. `viewFile`'s `await` is collapsed: `ViewFile` takes the
  fetch outcome as an input. So the stale-reply interleavings of the
  browser, and the worker pool's concurrency, are outside the model.
- `viewFile`'s `forceRender` flag is only logged, so `ViewFile` has no such
  parameter.
- The converter (`docling_app/core/converter.py`) is opaque. Its output,
  or an exception escaping it, is the `ConversionOutcome` input of
  `RunConversion`. The worker's `mode` only reaches the converter, so
  `RunConversion` does not take it.
- `docling_app/db/database.py` (table creation and connections) is not
  part of this model. `Server.Store.constructor` starts with empty tables.
  An `original_filename` that is NULL (possible only in a database migrated
  from an older schema) is not modelled: `upload_files` always writes it.
- `Server.Store.RunConversion`: the worker reads the clock twice, once for
  the job's `created_at` and once for the file's `completed_at`. The model
  uses one reading for both.
- `Server.LatestCompleted`: SQLite's order among completed jobs with equal
  `created_at` is unspecified. The model picks the last inserted.
- `Chunking.HasPdfSuffix` tests the last four characters with ASCII case
  folding where the source uses `str.lower()`. The two agree: only `.`,
  `p`/`P`, `d`/`D` and `f`/`F` lower-case to `.`, `p`, `d` and `f`, and the
  one character whose lower case is longer (U+0130) ends in a combining
  mark. So the lowered name ends in `.pdf` exactly when the last four
  original characters do.
- `View.NameLeq` orders names by code point. `localeCompare` follows the
  browser's locale collation, which is not modelled. The registry's
  iteration order (`Object.values`) is not modelled either: `FileList`
  takes the entries in any order before sorting.
- `Client.Controller.PollFileStatus` and `OnConvertReply` require the id
  to be registered. Their only callers (`startConversion` right after
  registration, and a listed file's Convert button) guarantee it. They
  also require a fresh interval handle.
- `Server.Store.UploadFiles` requires fresh, distinct ids, as `uuid4()`
  provides.
