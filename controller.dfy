/** The browser controller: the job registry `uploadedFiles`, the poll timers
    `pollIntervals`, the viewed file `activeFileId`, and the events that
    change them. Network replies and interval ticks arrive as method inputs,
    one event at a time; what a method returns is the request it issues. */
module Client {
  import opened Api
  import opened Records
  import opened View

  /** A browser interval handle, as `setInterval` returns it. */
  type Timer = nat

  /** The browser's interval table after clearing the interval `polls` keeps
      for `id` (clearing no interval when it keeps none). */
  function WithoutTimerOf(live: map<Timer, string>, polls: map<string, Timer>, id: string): map<Timer, string> {
    if id in polls then live - {polls[id]} else live
  }

  /** `findFileBlob`: the first sent file with the given name. */
  method FindFileBlob(fileList: seq<LocalFile>, fileName: string) returns (r: Option<LocalFile>)
    ensures r == FirstNamed(fileList, fileName)
  {
    var i := 0;
    while i < |fileList|
      invariant 0 <= i <= |fileList|
      invariant FirstNamed(fileList[i..], fileName) == FirstNamed(fileList, fileName)
    {
      if fileList[i].name == fileName {
        return Some(fileList[i]);
      }
      assert fileList[i..][1..] == fileList[i + 1..];
      i := i + 1;
    }
    return None;
  }

  class Controller {
    var uploadedFiles: map<string, FileRecord>
    var pollIntervals: map<string, Timer>
    var activeFileId: Option<string>
    /** The browser's armed intervals: each handle with the id its callback
        polls. */
    var liveIntervals: map<Timer, string>

    /** Every entry is stored under its own id; only registered files are
        polled; and `pollIntervals` and the armed intervals are inverse to
        each other, so no armed interval is unrecorded and none polls an id
        whose recorded timer is another. */
    ghost predicate Valid()
      reads this
    {
      && (forall id :: id in uploadedFiles ==> uploadedFiles[id].id == id)
      && pollIntervals.Keys <= uploadedFiles.Keys
      && (forall id :: id in pollIntervals ==> pollIntervals[id] in liveIntervals && liveIntervals[pollIntervals[id]] == id)
      && (forall t :: t in liveIntervals ==> liveIntervals[t] in pollIntervals && pollIntervals[liveIntervals[t]] == t)
    }

    constructor ()
      ensures Valid()
      ensures uploadedFiles == map[] && pollIntervals == map[] && liveIntervals == map[] && activeFileId == None
    {
      uploadedFiles := map[];
      pollIntervals := map[];
      liveIntervals := map[];
      activeFileId := None;
    }

    /** At most one armed interval polls any id. */
    lemma AtMostOneTimerPerId(t1: Timer, t2: Timer)
      requires Valid()
      requires t1 in liveIntervals && t2 in liveIntervals && liveIntervals[t1] == liveIntervals[t2]
      ensures t1 == t2
    {
      assert pollIntervals[liveIntervals[t1]] == t1;
    }

    /** The upload reply handler: registers each returned record whose name
        matches a sent file, and asks for its conversion. */
    method OnUploadReply(sent: seq<LocalFile>, reply: seq<UploadedFile>) returns (convertRequests: seq<string>)
      requires Valid()
      modifies this
      ensures Valid()
      ensures uploadedFiles == Registered(old(uploadedFiles), sent, reply)
      ensures convertRequests == MatchedIds(sent, reply)
      ensures pollIntervals == old(pollIntervals) && liveIntervals == old(liveIntervals)
      ensures activeFileId == old(activeFileId)
    {
      convertRequests := [];
      var n := 0;
      while n < |reply|
        invariant 0 <= n <= |reply|
        invariant Valid()
        invariant uploadedFiles == Registered(old(uploadedFiles), sent, reply[..n])
        invariant convertRequests == MatchedIds(sent, reply[..n])
        invariant pollIntervals == old(pollIntervals) && liveIntervals == old(liveIntervals)
        invariant activeFileId == old(activeFileId)
      {
        var file := reply[n];
        var blob := FindFileBlob(sent, file.name);
        if blob.Some? {
          uploadedFiles := uploadedFiles[file.id := NewRecord(file, blob.value)];
          convertRequests := convertRequests + [file.id];
        }
        assert reply[..n + 1][..n] == reply[..n];
        n := n + 1;
      }
      assert reply[..n] == reply;
    }

    /** `pollFileStatus`: clears the id's interval if it has one, polls once
        at once, and arms one new interval `h` (a handle the browser has not
        handed out before) for the id. */
    method PollFileStatus(fileId: string, h: Timer) returns (statusRequest: string)
      requires Valid()
      requires fileId in uploadedFiles && h !in liveIntervals
      modifies this
      ensures Valid()
      ensures statusRequest == fileId
      ensures pollIntervals == old(pollIntervals)[fileId := h]
      ensures liveIntervals == WithoutTimerOf(old(liveIntervals), old(pollIntervals), fileId)[h := fileId]
      ensures forall t :: t in liveIntervals && liveIntervals[t] == fileId ==> t == h
      ensures uploadedFiles == old(uploadedFiles) && activeFileId == old(activeFileId)
    {
      if fileId in pollIntervals {
        liveIntervals := liveIntervals - {pollIntervals[fileId]};
      }
      statusRequest := fileId;
      liveIntervals := liveIntervals[h := fileId];
      pollIntervals := pollIntervals[fileId := h];
    }

    /** `startConversion` once the server answers: an accepted request starts
        polling with the fresh handle `h`; a rejected one changes nothing. */
    method OnConvertReply(fileId: string, accepted: bool, h: Timer) returns (statusRequest: Option<string>)
      requires Valid()
      requires fileId in uploadedFiles && h !in liveIntervals
      modifies this
      ensures Valid()
      ensures statusRequest == if accepted then Some(fileId) else None
      ensures accepted ==>
        && pollIntervals == old(pollIntervals)[fileId := h]
        && liveIntervals == WithoutTimerOf(old(liveIntervals), old(pollIntervals), fileId)[h := fileId]
      ensures !accepted ==> pollIntervals == old(pollIntervals) && liveIntervals == old(liveIntervals)
      ensures uploadedFiles == old(uploadedFiles) && activeFileId == old(activeFileId)
    {
      if accepted {
        var id := PollFileStatus(fileId, h);
        statusRequest := Some(id);
      } else {
        statusRequest := None;
      }
    }

    /** An interval tick: an armed interval polls the id it was armed for,
        which is the id whose recorded timer it is; a cleared one never
        fires. */
    method Tick(h: Timer) returns (statusRequest: Option<string>)
      requires Valid()
      ensures statusRequest.Some? <==> h in liveIntervals
      ensures statusRequest.Some? ==> statusRequest.value in pollIntervals && pollIntervals[statusRequest.value] == h
    {
      if h in liveIntervals {
        statusRequest := Some(liveIntervals[h]);
      } else {
        statusRequest := None;
      }
    }

    /** `viewFile`: for a registered file, makes it the viewed one and, when
        it is completed, stores the markdown the result fetch `fetched`
        gives; an unknown id changes nothing. */
    method ViewFile(fileId: string, fetched: ResultFetch) returns (resultRequested: bool)
      requires Valid()
      modifies this
      ensures Valid()
      ensures pollIntervals == old(pollIntervals) && liveIntervals == old(liveIntervals)
      ensures fileId !in old(uploadedFiles) ==>
        uploadedFiles == old(uploadedFiles) && activeFileId == old(activeFileId) && !resultRequested
      ensures fileId in old(uploadedFiles) ==>
        && activeFileId == Some(fileId)
        && uploadedFiles == old(uploadedFiles)[fileId := Viewed(old(uploadedFiles)[fileId], fetched)]
        && resultRequested == (old(uploadedFiles)[fileId].status == Completed)
    {
      if fileId !in uploadedFiles {
        return false;
      }
      var fileData := uploadedFiles[fileId];
      activeFileId := Some(fileId);
      if fileData.status == Completed {
        resultRequested := true;
        uploadedFiles := uploadedFiles[fileId := fileData.(markdown := Some(MarkdownFrom(fetched)))];
      } else {
        resultRequested := false;
      }
    }

    /** A `/status/{id}` reply: ignored for an unknown id; otherwise the
        status fields are copied, and a terminal status clears and forgets
        the id's interval and, if the id is the viewed file, views it again
        (fetching its result when completed, with outcome `fetched`). */
    method OnStatusReply(fileId: string, reply: StatusReply, fetched: ResultFetch) returns (resultRequested: bool)
      requires Valid()
      modifies this
      ensures Valid()
      ensures activeFileId == old(activeFileId)
      ensures fileId !in old(uploadedFiles) ==>
        && uploadedFiles == old(uploadedFiles) && pollIntervals == old(pollIntervals)
        && liveIntervals == old(liveIntervals) && !resultRequested
      ensures fileId in old(uploadedFiles) && !reply.status.IsTerminal() ==>
        && uploadedFiles == old(uploadedFiles)[fileId := Merged(old(uploadedFiles)[fileId], reply)]
        && pollIntervals == old(pollIntervals) && liveIntervals == old(liveIntervals)
        && !resultRequested
      ensures fileId in old(uploadedFiles) && reply.status.IsTerminal() ==>
        && pollIntervals == old(pollIntervals) - {fileId}
        && liveIntervals == WithoutTimerOf(old(liveIntervals), old(pollIntervals), fileId)
        && (forall t :: t in liveIntervals ==> liveIntervals[t] != fileId)
        && uploadedFiles == old(uploadedFiles)[fileId :=
             if old(activeFileId) == Some(fileId)
             then Viewed(Merged(old(uploadedFiles)[fileId], reply), fetched)
             else Merged(old(uploadedFiles)[fileId], reply)]
        && resultRequested == (old(activeFileId) == Some(fileId) && reply.status == Completed)
    {
      if fileId !in uploadedFiles {
        return false;
      }
      var file := uploadedFiles[fileId];
      uploadedFiles := uploadedFiles[fileId := Merged(file, reply)];
      resultRequested := false;
      if reply.status.IsTerminal() {
        StopPolling(fileId);
        if activeFileId == Some(fileId) {
          resultRequested := ViewFile(fileId, fetched);
        }
      }
    }

    /** A failed `/status/{id}` request: the id's interval is cleared and
        forgotten; the recorded status stays as it was. */
    method OnStatusFailure(fileId: string)
      requires Valid()
      modifies this
      ensures Valid()
      ensures pollIntervals == old(pollIntervals) - {fileId}
      ensures liveIntervals == WithoutTimerOf(old(liveIntervals), old(pollIntervals), fileId)
      ensures forall t :: t in liveIntervals ==> liveIntervals[t] != fileId
      ensures uploadedFiles == old(uploadedFiles) && activeFileId == old(activeFileId)
    {
      StopPolling(fileId);
    }

    /** Cancels the id's interval, if one is recorded, and forgets it. */
    method StopPolling(fileId: string)
      requires Valid()
      modifies this
      ensures Valid()
      ensures pollIntervals == old(pollIntervals) - {fileId}
      ensures liveIntervals == WithoutTimerOf(old(liveIntervals), old(pollIntervals), fileId)
      ensures forall t :: t in liveIntervals ==> liveIntervals[t] != fileId
      ensures uploadedFiles == old(uploadedFiles) && activeFileId == old(activeFileId)
    {
      if fileId in pollIntervals {
        liveIntervals := liveIntervals - {pollIntervals[fileId]};
      }
      pollIntervals := pollIntervals - {fileId};
    }

    /** The rows `updateFileList` draws: every registry entry once, ordered
        by name. */
    method FileList() returns (rows: seq<FileRecord>)
      requires Valid()
      ensures SortedByName(rows)
      ensures |rows| == |uploadedFiles|
      ensures forall r :: r in rows <==> r.id in uploadedFiles && uploadedFiles[r.id] == r
    {
      var remaining := uploadedFiles.Keys;
      var values: seq<FileRecord> := [];
      while remaining != {}
        invariant remaining <= uploadedFiles.Keys
        invariant |values| + |remaining| == |uploadedFiles|
        invariant forall r :: r in values <==> r.id in uploadedFiles.Keys - remaining && uploadedFiles[r.id] == r
        decreases remaining
      {
        var k :| k in remaining;
        values := values + [uploadedFiles[k]];
        remaining := remaining - {k};
      }
      rows := SortByName(values);
      assert forall r :: r in rows <==> r in multiset(values);
    }
  }
}
