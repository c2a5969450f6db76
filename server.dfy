/** The server side: the `files` and `conversion_jobs` tables held as a map
    and a sequence, the endpoints that change them (upload, convert, the
    conversion worker's final write) and the read-only endpoints (latest
    result, combined download, chunk plan). */
module Server {
  import opened Api
  import opened Chunking

  /** A row of the `files` table, keyed by its id. */
  datatype FileRow = FileRow(
    name: string,
    originalFilename: string,
    status: Status,
    createdAt: Timestamp,
    startedAt: Option<Timestamp>,
    completedAt: Option<Timestamp>)

  /** A row of the `conversion_jobs` table, in insertion order. */
  datatype JobRow = JobRow(
    id: string,
    fileId: string,
    status: Status,
    result: string,
    errorMessage: Option<string>,
    createdAt: Timestamp)

  /** One part of the multipart upload; only its filename is modelled. */
  datatype Upload = Upload(filename: string)

  /** What the worker gets from the converter: the markdown it returned, or
      an exception that escaped it. */
  datatype ConversionOutcome = Produced(markdown: string) | Raised

  /** The acknowledgement of `/convert`: the mode handed to the worker and the
      reply message. */
  datatype ConvertAck = ConvertAck(mode: string, message: string)

  const DefaultMode: string := "balanced"
  const ValidModes: seq<string> := ["fast", "balanced", "accurate"]
  const WorkerError: string := "Failed to convert PDF with Docling."

  /** The mode a `/convert` request runs with: the query parameter, or
      `balanced` when it is absent; any other value than the three known
      modes is a 400. */
  function EffectiveMode(mode: Option<string>): (r: Result<string>)
    ensures r.Ok? <==> (mode.None? || mode.value in ValidModes)
    ensures r.Ok? ==> r.value in ValidModes && r.value == (if mode.Some? then mode.value else DefaultMode)
    ensures r.Err? ==> r.error.code == 400
  {
    var m := if mode.Some? then mode.value else DefaultMode;
    if m in ValidModes then Ok(m)
    else Err(HttpError(400, "Invalid mode. Must be one of: ['fast', 'balanced', 'accurate']"))
  }

  /** The worker's verdict on the converter's markdown. */
  function WorkerStatus(markdown: string): (s: Status)
    ensures s.IsTerminal()
    ensures s == Completed <==> markdown != ""
  {
    if markdown != "" then Completed else Failed
  }

  /** The status the worker writes into the `files` row: an escaping
      exception counts as a failure. */
  function FinalStatus(outcome: ConversionOutcome): (s: Status)
    ensures s.IsTerminal()
    ensures s == Completed <==> outcome.Produced? && outcome.markdown != ""
  {
    match outcome
    case Produced(md) => WorkerStatus(md)
    case Raised => Failed
  }

  /** The `conversion_jobs` row the worker inserts for a converter result. */
  function JobFor(jobId: string, fileId: string, markdown: string, now: Timestamp): JobRow {
    JobRow(jobId, fileId, WorkerStatus(markdown), markdown,
           if markdown != "" then None else Some(WorkerError), now)
  }

  predicate IsCompletedJobOf(j: JobRow, fileId: string) {
    j.fileId == fileId && j.status == Completed
  }

  /** The job the result lookup picks: among the file's completed jobs, one
      with the greatest creation time; of several with that time, the last
      inserted. */
  function LatestCompleted(jobs: seq<JobRow>, fileId: string): (r: Option<nat>)
    ensures r.None? <==> forall j :: 0 <= j < |jobs| ==> !IsCompletedJobOf(jobs[j], fileId)
    ensures r.Some? ==> r.value < |jobs| && IsCompletedJobOf(jobs[r.value], fileId)
    ensures r.Some? ==> forall j :: 0 <= j < |jobs| && IsCompletedJobOf(jobs[j], fileId) ==>
      jobs[j].createdAt <= jobs[r.value].createdAt
    ensures r.Some? ==> forall j :: r.value < j < |jobs| && IsCompletedJobOf(jobs[j], fileId) ==>
      jobs[j].createdAt < jobs[r.value].createdAt
  {
    if jobs == [] then None
    else
      var prev := LatestCompleted(jobs[..|jobs| - 1], fileId);
      var last := |jobs| - 1;
      if IsCompletedJobOf(jobs[last], fileId) && (prev.None? || jobs[prev.value].createdAt <= jobs[last].createdAt)
      then Some(last)
      else prev
  }

  /** The `/result/{file_id}` endpoint. */
  function GetResult(jobs: seq<JobRow>, fileId: string): (r: Result<string>)
    ensures r.Err? <==> forall j :: 0 <= j < |jobs| ==> !IsCompletedJobOf(jobs[j], fileId)
    ensures r.Err? ==> r.error.code == 404
    ensures r.Ok? ==> exists i :: (0 <= i < |jobs| && IsCompletedJobOf(jobs[i], fileId) && r.value == jobs[i].result
      && forall j :: 0 <= j < |jobs| && IsCompletedJobOf(jobs[j], fileId) ==> jobs[j].createdAt <= jobs[i].createdAt)
  {
    match LatestCompleted(jobs, fileId)
    case None => Err(HttpError(404, "Conversion not found or not completed."))
    case Some(i) => Ok(jobs[i].result)
  }

  /** Every job row is the worker's: completed exactly when its result is
      non-empty. */
  ghost predicate JobsWellFormed(jobs: seq<JobRow>) {
    forall j :: 0 <= j < |jobs| ==> jobs[j].status == WorkerStatus(jobs[j].result)
  }

  /** In a table the worker wrote, a result the endpoint returns is never
      empty. */
  lemma ResultNonEmpty(jobs: seq<JobRow>, fileId: string)
    requires JobsWellFormed(jobs)
    ensures GetResult(jobs, fileId).Ok? ==> GetResult(jobs, fileId).value != ""
  {
  }

  /** Once the worker inserts a completed job later than every earlier one,
      the result endpoint returns exactly its markdown. */
  lemma {:induction false} ResultAfterCompletion(jobs: seq<JobRow>, jobId: string, fileId: string, markdown: string, now: Timestamp)
    requires markdown != ""
    requires forall j :: 0 <= j < |jobs| ==> jobs[j].createdAt <= now
    ensures GetResult(jobs + [JobFor(jobId, fileId, markdown, now)], fileId) == Ok(markdown)
  {
    var all := jobs + [JobFor(jobId, fileId, markdown, now)];
    assert all[..|all| - 1] == jobs;
  }

  /** The heading `download_chunk` writes before each document. */
  function Separator(filename: string): string {
    "\n\n--- DOCUMENT: " + filename + " ---\n\n"
  }

  /** The original filename of a known file, `Unknown File` otherwise. */
  function FileLabel(files: map<string, FileRow>, fileId: string): string {
    if fileId in files then files[fileId].originalFilename else "Unknown File"
  }

  /** Whether an id adds a section to the combined download: it has a latest
      completed job whose result is non-empty. */
  predicate Contributes(jobs: seq<JobRow>, fileId: string) {
    var latest := LatestCompleted(jobs, fileId);
    latest.Some? && jobs[latest.value].result != ""
  }

  /** The section one id adds to the combined download. */
  function Section(files: map<string, FileRow>, jobs: seq<JobRow>, fileId: string): string {
    var latest := LatestCompleted(jobs, fileId);
    if Contributes(jobs, fileId) then Separator(FileLabel(files, fileId)) + jobs[latest.value].result else ""
  }

  /** The pieces of the ids, joined in id order. */
  function JoinMap(piece: string -> string, ids: seq<string>): string {
    if ids == [] then "" else JoinMap(piece, ids[..|ids| - 1]) + piece(ids[|ids| - 1])
  }

  /** The joined text is empty exactly when every piece is. */
  lemma {:induction false} JoinMapEmptyIff(piece: string -> string, ids: seq<string>)
    ensures JoinMap(piece, ids) == "" <==> forall i :: 0 <= i < |ids| ==> piece(ids[i]) == ""
  {
    if ids != [] {
      var init := ids[..|ids| - 1];
      JoinMapEmptyIff(piece, init);
      assert forall i :: 0 <= i < |init| ==> init[i] == ids[i];
    }
  }

  /** Joining two id lists back to back is joining each and concatenating. */
  lemma {:induction false} JoinMapAppend(piece: string -> string, ids1: seq<string>, ids2: seq<string>)
    ensures JoinMap(piece, ids1 + ids2) == JoinMap(piece, ids1) + JoinMap(piece, ids2)
  {
    var both := ids1 + ids2;
    if ids2 == [] {
      assert both == ids1;
    } else {
      var init := ids2[..|ids2| - 1];
      assert both[..|both| - 1] == ids1 + init && both[|both| - 1] == ids2[|ids2| - 1];
      JoinMapAppend(piece, ids1, init);
    }
  }

  /** The sections of the requested ids, in request order. */
  function Combined(files: map<string, FileRow>, jobs: seq<JobRow>, ids: seq<string>): string {
    JoinMap(id => Section(files, jobs, id), ids)
  }

  /** Extending the request by its next id appends that id's section. */
  lemma CombinedStep(files: map<string, FileRow>, jobs: seq<JobRow>, ids: seq<string>, n: nat)
    requires n < |ids|
    ensures Combined(files, jobs, ids[..n + 1]) == Combined(files, jobs, ids[..n]) + Section(files, jobs, ids[n])
  {
    assert ids[..n + 1][..n] == ids[..n];
  }

  /** The combined download is empty exactly when no requested id has a
      non-empty completed result. */
  lemma CombinedEmptyIff(files: map<string, FileRow>, jobs: seq<JobRow>, ids: seq<string>)
    ensures Combined(files, jobs, ids) == "" <==> forall i :: 0 <= i < |ids| ==> !Contributes(jobs, ids[i])
  {
    var piece := id => Section(files, jobs, id);
    JoinMapEmptyIff(piece, ids);
    forall i | 0 <= i < |ids|
      ensures piece(ids[i]) == "" <==> !Contributes(jobs, ids[i])
    {
      assert Contributes(jobs, ids[i]) ==> |Section(files, jobs, ids[i])| > 0;
    }
  }

  /** The combined download of two requests back to back is the two
      downloads back to back: each id's section depends on that id alone. */
  lemma CombinedAppend(files: map<string, FileRow>, jobs: seq<JobRow>, ids1: seq<string>, ids2: seq<string>)
    ensures Combined(files, jobs, ids1 + ids2) == Combined(files, jobs, ids1) + Combined(files, jobs, ids2)
  {
    JoinMapAppend(id => Section(files, jobs, id), ids1, ids2);
  }

  /** The `/download-chunk` reply: the combined text, or 404 when it is
      empty. */
  function DownloadText(files: map<string, FileRow>, jobs: seq<JobRow>, ids: seq<string>): Result<string> {
    var text := Combined(files, jobs, ids);
    if text == "" then Err(HttpError(404, "No completed conversions found for the selected files.")) else Ok(text)
  }

  /** The display name `download_chunked` gives a file: its original filename
      without a trailing `.pdf`, or `unknown-` and the id when it has no row. */
  function DisplayName(files: map<string, FileRow>, fileId: string): string {
    if fileId in files then StripPdf(files[fileId].originalFilename) else "unknown-" + fileId
  }

  /** The `file_info` dictionary built for the requested ids. */
  function FileInfo(files: map<string, FileRow>, ids: seq<string>): (info: map<string, string>)
    ensures info.Keys == set i | 0 <= i < |ids| :: ids[i]
  {
    map id | id in ids :: DisplayName(files, id)
  }

  /** Each entry of the chunk plan carries its file's display name. */
  lemma PlanNames(files: map<string, FileRow>, ids: seq<string>, k: nat, i: nat, j: nat)
    requires k >= 1 && i < |Plan(ids, k, FileInfo(files, ids)).chunks|
    requires j < |Plan(ids, k, FileInfo(files, ids)).chunks[i].files|
    ensures var e := Plan(ids, k, FileInfo(files, ids)).chunks[i].files[j];
      e.originalFilename == DisplayName(files, e.fileId)
  {
    var info := FileInfo(files, ids);
    PlanChunkShape(ids, k, info, i);
    ChunkStartInRange(|ids|, k, i);
    var c := Plan(ids, k, info).chunks[i];
    assert c.fileIds[j] == ids[i * k + j];
  }

  /** Extending the request by its next id adds that id's display name. */
  lemma FileInfoStep(files: map<string, FileRow>, ids: seq<string>, n: nat)
    requires n < |ids|
    ensures FileInfo(files, ids[..n + 1]) == FileInfo(files, ids[..n])[ids[n] := DisplayName(files, ids[n])]
  {
    assert ids[..n + 1] == ids[..n] + [ids[n]];
    assert forall x :: x in ids[..n + 1] <==> x in ids[..n] || x == ids[n];
  }

  /** The first loop of `download_chunked`: the display name of every
      requested id. */
  method BuildFileInfo(files: map<string, FileRow>, fileIds: seq<string>) returns (info: map<string, string>)
    ensures info == FileInfo(files, fileIds)
  {
    info := map[];
    var n := 0;
    while n < |fileIds|
      invariant 0 <= n <= |fileIds|
      invariant info == FileInfo(files, fileIds[..n])
    {
      var fileId := fileIds[n];
      FileInfoStep(files, fileIds, n);
      if fileId in files {
        var originalName := files[fileId].originalFilename;
        if HasPdfSuffix(originalName) {
          originalName := originalName[..|originalName| - 4];
        }
        info := info[fileId := originalName];
      } else {
        info := info[fileId := "unknown-" + fileId];
      }
      n := n + 1;
    }
    assert fileIds[..n] == fileIds;
  }

  /** The inner loop of `download_chunked`: one entry per id of a chunk, with
      its name and its 1-based place. */
  method ChunkEntries(part: seq<string>, info: map<string, string>) returns (entries: seq<ChunkFile>)
    ensures |entries| == |part|
    ensures forall e :: 0 <= e < |part| ==> entries[e] == ChunkFile(part[e], EntryName(info, part[e]), e + 1)
  {
    entries := [];
    var j := 0;
    while j < |part|
      invariant 0 <= j <= |part|
      invariant |entries| == j
      invariant forall e :: 0 <= e < j ==> entries[e] == ChunkFile(part[e], EntryName(info, part[e]), e + 1)
    {
      var name := if part[j] in info then info[part[j]] else "unknown-" + part[j];
      entries := entries + [ChunkFile(part[j], name, j + 1)];
      j := j + 1;
    }
  }

  class Store {
    var files: map<string, FileRow>
    var jobs: seq<JobRow>

    ghost predicate Valid()
      reads this
    {
      JobsWellFormed(jobs)
    }

    constructor ()
      ensures Valid() && files == map[] && jobs == []
    {
      files := map[];
      jobs := [];
    }

    /** `POST /upload`: one `files` row per uploaded part, in input order,
        each under a fresh id (`ids`, standing for `uuid4()`) with status
        `uploaded` and its own creation time (`clock`). */
    method UploadFiles(uploads: seq<Upload>, ids: seq<string>, clock: seq<Timestamp>) returns (uploaded: seq<UploadedFile>)
      requires |ids| == |uploads| == |clock|
      requires forall i, j :: 0 <= i < j < |ids| ==> ids[i] != ids[j]
      requires forall i :: 0 <= i < |ids| ==> ids[i] !in files
      requires Valid()
      modifies this
      ensures Valid() && jobs == old(jobs)
      ensures |uploaded| == |uploads|
      ensures forall i :: 0 <= i < |uploads| ==>
        uploaded[i] == UploadedFile(ids[i], uploads[i].filename, Uploaded, clock[i])
      ensures files.Keys == old(files).Keys + set i | 0 <= i < |ids| :: ids[i]
      ensures forall k :: k in old(files) ==> files[k] == old(files)[k]
      ensures forall i :: 0 <= i < |ids| ==>
        files[ids[i]] == FileRow(uploads[i].filename, uploads[i].filename, Uploaded, clock[i], None, None)
    {
      uploaded := [];
      var n := 0;
      while n < |uploads|
        invariant 0 <= n <= |uploads|
        invariant jobs == old(jobs)
        invariant |uploaded| == n
        invariant forall i :: 0 <= i < n ==>
          uploaded[i] == UploadedFile(ids[i], uploads[i].filename, Uploaded, clock[i])
        invariant files.Keys == old(files).Keys + set i | 0 <= i < n :: ids[i]
        invariant forall k :: k in old(files) ==> files[k] == old(files)[k]
        invariant forall i :: 0 <= i < n ==>
          files[ids[i]] == FileRow(uploads[i].filename, uploads[i].filename, Uploaded, clock[i], None, None)
      {
        var name := uploads[n].filename;
        files := files[ids[n] := FileRow(name, name, Uploaded, clock[n], None, None)];
        uploaded := uploaded + [UploadedFile(ids[n], name, Uploaded, clock[n])];
        n := n + 1;
      }
    }

    /** `POST /convert/{file_id}`: the mode is checked before the file is
        looked up; a known file is set to `processing` with its start time,
        and nothing else in its row (not its completion time) changes. */
    method ConvertFile(fileId: string, mode: Option<string>, now: Timestamp) returns (r: Result<ConvertAck>)
      requires Valid()
      modifies this
      ensures Valid() && jobs == old(jobs)
      ensures EffectiveMode(mode).Err? ==> r == Err(EffectiveMode(mode).error) && files == old(files)
      ensures EffectiveMode(mode).Ok? && fileId !in old(files) ==>
        r == Err(HttpError(404, "File not found")) && files == old(files)
      ensures EffectiveMode(mode).Ok? && fileId in old(files) ==>
        && r.Ok? && r.value.mode == EffectiveMode(mode).value
        && files == old(files)[fileId := old(files)[fileId].(status := Processing, startedAt := Some(now))]
    {
      var m := EffectiveMode(mode);
      if m.Err? {
        return Err(m.error);
      }
      if fileId !in files {
        return Err(HttpError(404, "File not found"));
      }
      files := files[fileId := files[fileId].(status := Processing, startedAt := Some(now))];
      r := Ok(ConvertAck(m.value, "Conversion queued for " + fileId + " with mode=" + m.value));
    }

    /** `GET /result/{file_id}` on the store: a 404 when the file has no
        completed job, otherwise the latest completed result, which in a
        table only the worker has written is never empty. */
    method ResultFor(fileId: string) returns (r: Result<string>)
      requires Valid()
      ensures r == GetResult(jobs, fileId)
      ensures r.Ok? ==> r.value != ""
    {
      ResultNonEmpty(jobs, fileId);
      r := GetResult(jobs, fileId);
    }

    /** The worker's final write: a job row (`jobId` for `uuid4()`) when the
        converter returned, and the file's final status with its completion
        time; an escaping exception writes `failed` and no job row. An
        unknown id leaves `files` alone, as an UPDATE matching no row does. */
    method RunConversion(fileId: string, outcome: ConversionOutcome, jobId: string, now: Timestamp)
      requires Valid()
      modifies this
      ensures Valid()
      ensures jobs == match outcome
        case Produced(md) => old(jobs) + [JobFor(jobId, fileId, md, now)]
        case Raised => old(jobs)
      ensures files == if fileId in old(files)
        then old(files)[fileId := old(files)[fileId].(status := FinalStatus(outcome), completedAt := Some(now))]
        else old(files)
    {
      match outcome {
        case Produced(md) =>
          jobs := jobs + [JobFor(jobId, fileId, md, now)];
        case Raised =>
      }
      if fileId in files {
        files := files[fileId := files[fileId].(status := FinalStatus(outcome), completedAt := Some(now))];
      }
    }

    /** `POST /download-chunk`: the sections of the requested ids in request
        order; 404 when no id has a non-empty completed result. */
    method DownloadChunk(fileIds: seq<string>) returns (r: Result<string>)
      ensures r == DownloadText(files, jobs, fileIds)
      ensures r.Err? <==> forall i :: 0 <= i < |fileIds| ==> !Contributes(jobs, fileIds[i])
    {
      var combined := "";
      var n := 0;
      while n < |fileIds|
        invariant 0 <= n <= |fileIds|
        invariant combined == Combined(files, jobs, fileIds[..n])
      {
        var fileId := fileIds[n];
        var filename := if fileId in files then files[fileId].originalFilename else "Unknown File";
        var latest := LatestCompleted(jobs, fileId);
        CombinedStep(files, jobs, fileIds, n);
        if latest.Some? && jobs[latest.value].result != "" {
          combined := combined + Separator(filename);
          combined := combined + jobs[latest.value].result;
        }
        n := n + 1;
      }
      assert fileIds[..n] == fileIds;
      CombinedEmptyIff(files, jobs, fileIds);
      if combined == "" {
        r := Err(HttpError(404, "No completed conversions found for the selected files."));
      } else {
        r := Ok(combined);
      }
    }

    /** `POST /download-chunked`: a chunk size below 1 is a 400 before any
        table is read; otherwise the plan of the requested ids with their
        display names. */
    method DownloadChunked(fileIds: seq<string>, chunkSize: int) returns (r: Result<ChunkPlan>)
      ensures chunkSize < 1 ==> r == Err(HttpError(400, "Chunk size must be at least 1."))
      ensures chunkSize >= 1 ==> r == Ok(Plan(fileIds, chunkSize, FileInfo(files, fileIds)))
    {
      if chunkSize < 1 {
        return Err(HttpError(400, "Chunk size must be at least 1."));
      }
      var info := BuildFileInfo(files, fileIds);

      var total := |fileIds|;
      var totalChunks := (total + chunkSize - 1) / chunkSize;
      assert totalChunks == ChunkCount(total, chunkSize);
      var chunks: seq<Chunk> := [];
      var i := 0;
      while i < totalChunks
        invariant 0 <= i <= totalChunks
        invariant |chunks| == i
        invariant forall c :: 0 <= c < i ==> chunks[c] == ChunkAt(fileIds, chunkSize, info, c)
      {
        ChunkStartInRange(total, chunkSize, i);
        var startIdx := i * chunkSize;
        var endIdx := Min(startIdx + chunkSize, total);
        var part := fileIds[startIdx..endIdx];
        var entries := ChunkEntries(part, info);
        chunks := chunks + [Chunk(i + 1, part, entries, |part|)];
        i := i + 1;
      }
      assert chunks == Plan(fileIds, chunkSize, info).chunks;
      r := Ok(ChunkPlan(total, chunkSize, totalChunks, chunks));
    }
  }
}
