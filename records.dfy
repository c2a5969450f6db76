/** The browser controller's job records and the pure steps it applies to
    them: choosing which picked files to send, matching the server's reply to
    the sent files, merging a status reply, and the markdown a result fetch
    leaves behind. */
module Records {
  import opened Api

  /** A file the user picked: its name, its declared MIME type, and which
      browser file object it is. */
  datatype LocalFile = LocalFile(name: string, mimeType: string, handle: nat)

  /** An entry of `uploadedFiles`: the server's upload record spread out, the
      sent file object (`blob`), the status fields the poller copies, and the
      markdown once viewed. */
  datatype FileRecord = FileRecord(
    id: string,
    name: string,
    status: Status,
    createdAt: Timestamp,
    startedAt: Option<Timestamp>,
    completedAt: Option<Timestamp>,
    blob: LocalFile,
    markdown: Option<string>)

  /** The fields of a `/status/{id}` reply the controller reads. */
  datatype StatusReply = StatusReply(status: Status, startedAt: Option<Timestamp>, completedAt: Option<Timestamp>)

  /** How a `/result/{id}` fetch ended: a reply whose `content` may be missing
      or empty, or a failure (non-OK status, network or parse error) with its
      message. */
  datatype ResultFetch = Fetched(content: Option<string>) | FetchFailed(message: string)

  const PdfType: string := "application/pdf"
  const NoContentError: string := "Error: No content returned from server."
  const LoadErrorPrefix: string := "Error loading Markdown content: "

  /** The picked files whose declared type is exactly `application/pdf`, in
      picking order. */
  function PdfFiles(files: seq<LocalFile>): (r: seq<LocalFile>)
    ensures |r| <= |files|
    ensures forall f :: f in r ==> f.mimeType == PdfType && f in files
    ensures forall f :: f in files && f.mimeType == PdfType ==> f in r
  {
    if files == [] then []
    else (if files[0].mimeType == PdfType then [files[0]] else []) + PdfFiles(files[1..])
  }

  /** Filtering keeps the picking order: the PDFs of two lists back to back
      are the two filtered lists back to back. */
  lemma {:induction false} PdfFilesAppend(a: seq<LocalFile>, b: seq<LocalFile>)
    ensures PdfFiles(a + b) == PdfFiles(a) + PdfFiles(b)
  {
    if a == [] {
      assert a + b == b;
    } else {
      var head := if a[0].mimeType == PdfType then [a[0]] else [];
      PdfFilesAppend(a[1..], b);
      assert (a + b)[0] == a[0];
      assert (a + b)[1..] == a[1..] + b;
      calc {
        PdfFiles(a + b);
        head + PdfFiles(a[1..] + b);
        head + (PdfFiles(a[1..]) + PdfFiles(b));
        (head + PdfFiles(a[1..])) + PdfFiles(b);
      }
    }
  }

  /** What `handleFileUpload` sends: nothing at all (no overlay, no request)
      when no picked file is a PDF, otherwise exactly the PDFs. */
  function UploadRequest(files: seq<LocalFile>): (r: Option<seq<LocalFile>>)
    ensures r.None? <==> forall f :: f in files ==> f.mimeType != PdfType
    ensures r.Some? ==> r.value == PdfFiles(files) && r.value != []
  {
    var pdfs := PdfFiles(files);
    if pdfs == [] then None
    else
      assert pdfs[0] in pdfs;
      Some(pdfs)
  }

  /** The first sent file with the given name (`findFileBlob`). */
  function FirstNamed(sent: seq<LocalFile>, name: string): (r: Option<LocalFile>)
    ensures r.None? <==> forall i :: 0 <= i < |sent| ==> sent[i].name != name
    ensures r.Some? ==> exists i :: (0 <= i < |sent| && sent[i] == r.value && r.value.name == name
      && forall j :: 0 <= j < i ==> sent[j].name != name)
  {
    if sent == [] then None
    else if sent[0].name == name then Some(sent[0])
    else
      var rest := FirstNamed(sent[1..], name);
      assert rest.Some? ==> exists i :: (0 <= i < |sent| - 1 && sent[1..][i] == rest.value
        && forall j :: 0 <= j < i ==> sent[1..][j].name != name);
      rest
  }

  /** The registry entry made from a server upload record: its fields, the
      sent file object, and no status times or markdown yet. */
  function NewRecord(f: UploadedFile, blob: LocalFile): FileRecord {
    FileRecord(f.id, f.name, f.status, f.createdAt, None, None, blob, None)
  }

  /** The registry after the upload reply: each returned record whose name
      matches a sent file is stored under its id, later ones overwriting
      earlier ones with the same id. */
  function Registered(reg: map<string, FileRecord>, sent: seq<LocalFile>, reply: seq<UploadedFile>): map<string, FileRecord> {
    if reply == [] then reg
    else
      var prev := Registered(reg, sent, reply[..|reply| - 1]);
      var f := reply[|reply| - 1];
      match FirstNamed(sent, f.name)
      case Some(blob) => prev[f.id := NewRecord(f, blob)]
      case None => prev
  }

  /** The ids for which the upload handler starts a conversion, in reply
      order. */
  function MatchedIds(sent: seq<LocalFile>, reply: seq<UploadedFile>): seq<string> {
    if reply == [] then []
    else
      var f := reply[|reply| - 1];
      MatchedIds(sent, reply[..|reply| - 1]) + (if FirstNamed(sent, f.name).Some? then [f.id] else [])
  }

  predicate Matches(sent: seq<LocalFile>, f: UploadedFile) {
    FirstNamed(sent, f.name).Some?
  }

  /** An id is in the registry after the upload reply exactly when it was
      there before or a returned record with that id matches a sent file. */
  lemma {:induction false} RegisteredKeys(reg: map<string, FileRecord>, sent: seq<LocalFile>, reply: seq<UploadedFile>)
    ensures Registered(reg, sent, reply).Keys ==
      reg.Keys + set i | 0 <= i < |reply| && Matches(sent, reply[i]) :: reply[i].id
  {
    if reply != [] {
      var init := reply[..|reply| - 1];
      RegisteredKeys(reg, sent, init);
      assert forall i :: 0 <= i < |init| ==> init[i] == reply[i];
      assert (set i | 0 <= i < |reply| && Matches(sent, reply[i]) :: reply[i].id)
          == (set i | 0 <= i < |init| && Matches(sent, init[i]) :: init[i].id)
             + (if Matches(sent, reply[|reply| - 1]) then {reply[|reply| - 1].id} else {});
    }
  }

  /** An id that no matching returned record carries keeps its old entry,
      or stays absent. */
  lemma {:induction false} RegisteredUntouched(reg: map<string, FileRecord>, sent: seq<LocalFile>, reply: seq<UploadedFile>, id: string)
    requires forall i :: 0 <= i < |reply| && reply[i].id == id ==> !Matches(sent, reply[i])
    ensures id in Registered(reg, sent, reply) <==> id in reg
    ensures id in reg ==> Registered(reg, sent, reply)[id] == reg[id]
  {
    if reply != [] {
      var init := reply[..|reply| - 1];
      assert forall i :: 0 <= i < |init| ==> init[i] == reply[i];
      RegisteredUntouched(reg, sent, init, id);
    }
  }

  /** The entry stored under a returned id is built from the last matching
      returned record with that id and the first sent file of its name. */
  lemma {:induction false} RegisteredLastMatch(reg: map<string, FileRecord>, sent: seq<LocalFile>, reply: seq<UploadedFile>, i: nat)
    requires i < |reply| && Matches(sent, reply[i])
    requires forall j :: i < j < |reply| && reply[j].id == reply[i].id ==> !Matches(sent, reply[j])
    ensures reply[i].id in Registered(reg, sent, reply)
    ensures Registered(reg, sent, reply)[reply[i].id] == NewRecord(reply[i], FirstNamed(sent, reply[i].name).value)
  {
    var init := reply[..|reply| - 1];
    if i < |reply| - 1 {
      assert init[i] == reply[i];
      assert forall j :: i < j < |init| ==> init[j] == reply[j];
      RegisteredLastMatch(reg, sent, init, i);
    }
  }

  /** A status reply overwrites `status`, `started_at` and `completed_at`
      and nothing else. */
  function Merged(f: FileRecord, reply: StatusReply): (r: FileRecord)
    ensures r.status == reply.status && r.startedAt == reply.startedAt && r.completedAt == reply.completedAt
    ensures r.id == f.id && r.name == f.name && r.createdAt == f.createdAt
    ensures r.blob == f.blob && r.markdown == f.markdown
  {
    f.(status := reply.status, startedAt := reply.startedAt, completedAt := reply.completedAt)
  }

  predicate HasPrefix(s: string, p: string) {
    |p| <= |s| && s[..|p|] == p
  }

  /** The markdown `viewFile` stores after fetching the result: the fetched
      content when it is present and non-empty, an error text otherwise. */
  function MarkdownFrom(fetched: ResultFetch): (md: string)
    ensures fetched.Fetched? && fetched.content.Some? && fetched.content.value != "" ==> md == fetched.content.value
    ensures fetched.Fetched? && (fetched.content.None? || fetched.content.value == "") ==> md == NoContentError
    ensures fetched.FetchFailed? ==> HasPrefix(md, LoadErrorPrefix) && md[|LoadErrorPrefix|..] == fetched.message
  {
    match fetched
    case Fetched(content) =>
      if content.Some? && content.value != "" then content.value else NoContentError
    case FetchFailed(message) => LoadErrorPrefix + message
  }

  /** The entry after `viewFile`: the markdown is written only when the file
      is completed; any other status leaves the entry as it was. */
  function Viewed(f: FileRecord, fetched: ResultFetch): (r: FileRecord)
    ensures r == f.(markdown := r.markdown)
    ensures f.status == Completed ==> r.markdown == Some(MarkdownFrom(fetched))
    ensures f.status != Completed ==> r == f
  {
    if f.status == Completed then f.(markdown := Some(MarkdownFrom(fetched))) else f
  }
}
