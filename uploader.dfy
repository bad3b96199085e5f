/**
 * The upload scheduler. Every file to upload becomes an `Uploader` task with
 * an id from a global counter. `upload` appends the task to a global FIFO
 * queue, and `runQueue` starts the head of the queue when the counter
 * `runnings` (admissions by `runQueue` minus finishes, retried transfers'
 * finishes included) is below `maxUploadings`. Retries make the counter
 * undercount, so more transfers than that can run at once
 * (`Scenarios.RetryExceedsLimit`). The first start probes the server's
 * authentication once. A transfer is a `PUT` of the whole file, or, after a
 * failure, a `PATCH` with `X-Update-Range: append` that resumes at the length
 * a `HEAD` request reports. A finished transfer frees its slot and starts the
 * next task; a failed one is kept in a registry, by id, for its retry button.
 *
 * The static fields of the source's class (`globalIdx`, `runnings`, `auth`,
 * `queues`) and the global `failUploaders` map are the state of one
 * `UploadSession` object. The network and the browser are parameters: the
 * outcome of the authentication probe, the status the transfer ends with,
 * the answer to `HEAD`. A method that starts a transfer returns the request it
 * sends.
 */
module Upload {
  import opened Wrappers
  import opened Text
  import Url

  /** A byte of a file, in the sense the URL encoder uses. */
  type byte = b: nat | Url.IsByte(b)

  /** A file picked or dropped by the user: its name and its bytes
      (`file.size` is `|data|`). */
  datatype File = File(name: string, data: seq<byte>)

  /** The request `ajax` sends: a `PUT` of a body, or a `PATCH` with one
      header and a body (RFC 5789). */
  datatype Request =
    | Put(url: string, body: seq<byte>)
    | Patch(url: string, header: (string, string), body: seq<byte>)

  const AppendHeader: (string, string) := ("X-Update-Range", "append")

  /** `file.slice(offset)`: the bytes from `offset` on, none when `offset` is
      past the end. */
  function SliceFrom(data: seq<byte>, offset: nat): (r: seq<byte>)
    ensures offset <= |data| ==> r == data[offset..]
    ensures offset >= |data| ==> r == []
  {
    if offset <= |data| then data[offset..] else []
  }

  /** The request of `ajax` for a task whose `uploadOffset` is `offset`. */
  function RequestFor(url: string, file: File, offset: int): (r: Request)
    ensures r.url == url
    ensures r.Put? <==> offset <= 0
    ensures r.Put? ==> r.body == file.data
    ensures r.Patch? ==> r.header == AppendHeader && r.body == SliceFrom(file.data, offset)
  {
    if offset > 0 then Patch(url, AppendHeader, SliceFrom(file.data, offset)) else Put(url, file.data)
  }

  /** The answer to `HEAD`: its status and its `Content-Length` header, if
      any. */
  datatype HeadReply = HeadReply(status: int, contentLength: Option<string>)

  /** The offset `retry` resumes at: `parseInt` of the `Content-Length` of a
      200 answer, 0 when that is not a number; 0 for any other status. */
  function ResumeOffset(head: HeadReply): (offset: int)
    ensures head.status != 200 ==> offset == 0
    ensures head.status == 200 && head.contentLength.None? ==> offset == 0
    ensures head.status == 200 && head.contentLength.Some? && ParseInt(head.contentLength.value).None? ==>
      offset == 0
    ensures head.status == 200 && head.contentLength.Some? && ParseInt(head.contentLength.value).Some? ==>
      offset == ParseInt(head.contentLength.value).value
  {
    if head.status != 200 then 0
    else match head.contentLength
      case None => 0
      case Some(value) => ParseInt(value).GetOr(0)
  }

  // ---------------------------------------------------------------------------
  // What the server makes of the requests
  // ---------------------------------------------------------------------------

  /** The bytes the server holds for the URL after a request: a `PUT`
      replaces them (section 9.3.4 of RFC 9110), a `PATCH` with
      `X-Update-Range: append` appends its body. */
  function ServerAfter(held: seq<byte>, request: Request): (after: seq<byte>)
    ensures request.Put? ==> after == request.body
    ensures request.Patch? ==> after == held + request.body
  {
    match request
    case Put(_, body) => body
    case Patch(_, _, body) => held + body
  }

  /** Resuming completes the file: when the server holds the first `n` bytes of
      it and answers `HEAD` with status 200 and `Content-Length: n`, the request
      of the retry leaves the server holding the whole file. */
  lemma ResumeRestoresFile(url: string, file: File, n: nat)
    requires n <= |file.data|
    ensures var offset := ResumeOffset(HeadReply(200, Some(NatToString(n))));
      offset == n &&
      ServerAfter(file.data[..n], RequestFor(url, file, offset)) == file.data
  {
    ParseIntOfNatToString(n);
    assert file.data[..n] + file.data[n..] == file.data;
  }

  /** Any other answer restarts the upload from scratch with a `PUT` of the
      whole file, whatever the server held. */
  lemma RestartSendsWholeFile(url: string, file: File, held: seq<byte>, head: HeadReply)
    requires head.status != 200
    ensures RequestFor(url, file, ResumeOffset(head)) == Put(url, file.data)
    ensures ServerAfter(held, RequestFor(url, file, ResumeOffset(head))) == file.data
  {
  }

  // ---------------------------------------------------------------------------
  // The retry button
  // ---------------------------------------------------------------------------

  /** The id in the `id` attribute of a clicked element, when it matches
      `/^retry(\d+)$/`: `parseInt` of the digits. */
  function ParseRetryId(nodeId: string): (id: Option<int>)
    ensures id.Some? ==> |nodeId| > 5 && nodeId[..5] == "retry" && AllDigitsIn(nodeId[5..], 10)
  {
    if |nodeId| > 5 && nodeId[..5] == "retry" && AllDigitsIn(nodeId[5..], 10) then ParseInt(nodeId[5..])
    else None
  }

  /** The retry button of a failed task carries `retry` and the task's id, and
      a click on it finds that id again. */
  lemma ParseRetryIdOfButton(idx: nat)
    ensures ParseRetryId("retry" + NatToString(idx)) == Some(idx)
  {
    var nodeId := "retry" + NatToString(idx);
    assert nodeId[..5] == "retry";
    assert nodeId[5..] == NatToString(idx);
    ParseIntOfNatToString(idx);
  }

  /** An element whose id does not start with `retry` is not a retry button. */
  lemma ParseRetryIdNeedsPrefix(nodeId: string)
    requires |nodeId| < 5 || nodeId[..5] != "retry"
    ensures ParseRetryId(nodeId) == None
  {
  }

  // ---------------------------------------------------------------------------
  // The scheduler
  // ---------------------------------------------------------------------------

  /** A transfer `runQueue` started: the task, the request `ajax` sent, and
      whether the authentication probe ran first. */
  datatype Start = Start(task: Uploader, request: Request, probed: bool)

  class UploadSession {
    /** `DUFS_MAX_UPLOADINGS`: how many transfers `runQueue` lets run. */
    const maxUploadings: nat
    /** `Uploader.globalIdx`: the id of the next task. */
    var globalIdx: nat
    /** `Uploader.runnings`: admissions by `runQueue` minus finishes (a
        retried transfer finishes without having been admitted). */
    var runnings: int
    /** `Uploader.auth`: whether the authentication probe has been made. */
    var auth: bool
    /** `Uploader.queues`: tasks waiting for a slot, oldest first. */
    var queues: seq<Uploader>
    /** `failUploaders`: failed tasks by id. */
    var failUploaders: map<nat, Uploader>

    /** What every operation keeps: the counter never exceeds the limit (its
        only increment is guarded by it), and a failed task is filed under its
        own id. There is no lower bound: see `Scenarios.RetryUnderflows`. */
    ghost predicate Valid()
      reads this
    {
      runnings <= maxUploadings &&
      forall id :: id in failUploaders ==> failUploaders[id].idx == id
    }

    /** Whether `runQueue` starts a task now. */
    ghost predicate Admits()
      reads this
    {
      runnings < maxUploadings && |queues| > 0
    }

    /** The state when the page loads. */
    constructor(maxUploadings: nat)
      ensures this.maxUploadings == maxUploadings
      ensures globalIdx == 0 && runnings == 0 && !auth && queues == [] && failUploaders == map[]
      ensures Valid()
    {
      this.maxUploadings := maxUploadings;
      globalIdx := 0;
      runnings := 0;
      auth := false;
      queues := [];
      failUploaders := map[];
    }

    /** `Uploader.runQueue`. Nothing happens when all slots are taken or no
        task waits. Otherwise the head of the queue takes a slot, the
        authentication probe runs if it never has (its failure re-arms it),
        and the task's transfer starts. `authProbeOk` is the probe's outcome;
        the wait for it is one step here. */
    method RunQueue(authProbeOk: bool) returns (started: Option<Start>)
      requires Valid()
      modifies this, queues
      ensures Valid()
      ensures globalIdx == old(globalIdx) && failUploaders == old(failUploaders)
      ensures !old(Admits()) ==>
        started == None && runnings == old(runnings) && queues == old(queues) && auth == old(auth)
      ensures old(Admits()) ==>
        runnings == old(runnings) + 1 && queues == old(queues[1..]) &&
        auth == (old(auth) || authProbeOk) &&
        started == Some(Start(old(queues[0]), old(queues[0].PendingRequest()), !old(auth))) &&
        old(queues[0]).uploaded == 0
      ensures forall u :: u in old(queues) ==> u.uploadOffset == old(u.uploadOffset)
      ensures forall u :: u in old(queues) && (!old(Admits()) || u != old(queues[0])) ==>
        u.uploaded == old(u.uploaded)
      ensures forall u :: u in old(queues) ==> u.hasStatusCell == old(u.hasStatusCell)
    {
      if runnings >= maxUploadings {
        return None;
      }
      if |queues| == 0 {
        return None;
      }
      runnings := runnings + 1;
      var uploader := queues[0];
      queues := queues[1..];
      var probed := !auth;
      if !auth {
        auth := true;
        if !authProbeOk {
          auth := false;
        }
      }
      var request := uploader.Ajax();
      started := Some(Start(uploader, request, probed));
    }

    /** The click handler of the retry buttons: a click on `retry<id>` retries
        the failed task filed under `id`, if any; `head` is the answer to its
        `HEAD` request (`None`: the request failed). */
    method RetryClicked(nodeId: string, head: Option<HeadReply>) returns (request: Option<Request>)
      modifies failUploaders.Values
      ensures var id := ParseRetryId(nodeId);
        if id.Some? && id.value >= 0 && id.value in failUploaders && head.Some? then
          var u := failUploaders[id.value];
          u.uploadOffset == ResumeOffset(head.value) && u.uploaded == 0 &&
          request == Some(RequestFor(u.url, u.file, u.uploadOffset)) &&
          forall v :: v in old(failUploaders.Values) && v != u ==> unchanged(v)
        else request == None && forall u :: u in old(failUploaders.Values) ==> unchanged(u)
      ensures forall u :: u in old(failUploaders.Values) ==> u.hasStatusCell == old(u.hasStatusCell)
    {
      request := None;
      var id := ParseRetryId(nodeId);
      if id.Some? && id.value >= 0 && id.value in failUploaders {
        var uploader := failUploaders[id.value];
        request := uploader.Retry(head);
      }
    }
  }

  class Uploader {
    const session: UploadSession
    /** The task's id, from `Uploader.globalIdx`. */
    const idx: nat
    const file: File
    /** The path of the file below the current directory. */
    const name: string
    const url: string
    /** Bytes of the current transfer acknowledged so far. */
    var uploaded: nat
    /** Where the next transfer starts in the file. */
    var uploadOffset: int
    /** Whether `$uploadStatus` holds the task's status cell: `upload` sets
        it, `complete` replaces the cell by a copy and sets it to `null`, and
        `complete` and `fail` dereference it before anything else, so on
        `null` they throw a `TypeError` and change nothing. */
    var hasStatusCell: bool

    /** `new Uploader(file, pathParts)` on the page at `href`: the next id,
        the path `pathParts/file.name`, and its URL. */
    constructor(session: UploadSession, file: File, pathParts: seq<string>, href: string)
      modifies session
      ensures this.session == session && this.file == file
      ensures idx == old(session.globalIdx) && session.globalIdx == old(session.globalIdx) + 1
      ensures name == Join(pathParts + [file.name], '/') && url == Url.NewUrl(href, name)
      ensures uploaded == 0 && uploadOffset == 0 && !hasStatusCell
      ensures session.runnings == old(session.runnings) && session.auth == old(session.auth)
      ensures session.queues == old(session.queues) && session.failUploaders == old(session.failUploaders)
    {
      this.session := session;
      this.file := file;
      var name := Join(pathParts + [file.name], '/');
      this.name := name;
      this.url := Url.NewUrl(href, name);
      idx := session.globalIdx;
      uploaded := 0;
      uploadOffset := 0;
      hasStatusCell := false;
      new;
      session.globalIdx := session.globalIdx + 1;
    }

    /** The request the next `ajax` sends. */
    function PendingRequest(): Request
      reads this
    {
      RequestFor(url, file, uploadOffset)
    }

    /** `upload`: find the task's status cell, queue the task and run the queue. */
    method Upload(authProbeOk: bool) returns (started: Option<Start>)
      requires session.Valid()
      modifies session, session.queues, this
      ensures session.Valid()
      ensures session.globalIdx == old(session.globalIdx) && session.failUploaders == old(session.failUploaders)
      ensures var q := old(session.queues) + [this];
        if old(session.runnings) < session.maxUploadings then
          session.runnings == old(session.runnings) + 1 && session.queues == q[1..] &&
          session.auth == (old(session.auth) || authProbeOk) &&
          started == Some(Start(q[0], old(q[0].PendingRequest()), !old(session.auth)))
        else
          started == None && session.runnings == old(session.runnings) && session.queues == q &&
          session.auth == old(session.auth)
      ensures forall u :: u in old(session.queues) + [this] ==> u.uploadOffset == old(u.uploadOffset)
      ensures var q := old(session.queues) + [this];
        old(session.runnings) < session.maxUploadings ==> q[0].uploaded == 0
      ensures var q := old(session.queues) + [this];
        forall u :: u in q && (old(session.runnings) >= session.maxUploadings || u != q[0]) ==>
          u.uploaded == old(u.uploaded)
      ensures hasStatusCell
      ensures forall u :: u in old(session.queues) && u != this ==> u.hasStatusCell == old(u.hasStatusCell)
    {
      hasStatusCell := true;
      session.queues := session.queues + [this];
      started := session.RunQueue(authProbeOk);
    }

    /** `ajax`: reset the progress and send the pending request. */
    method Ajax() returns (request: Request)
      modifies this`uploaded
      ensures uploaded == 0 && request == PendingRequest()
    {
      uploaded := 0;
      request := RequestFor(url, file, uploadOffset);
    }

    /** `retry`: ask the server with `HEAD` how much of the file it holds
        (`head`; `None` when the request fails, which ends the retry), resume
        there, and send. The queue and the counter are not involved. */
    method Retry(head: Option<HeadReply>) returns (request: Option<Request>)
      modifies this`uploadOffset, this`uploaded
      ensures head.None? ==> request == None && unchanged(this)
      ensures head.Some? ==>
        uploadOffset == ResumeOffset(head.value) && uploaded == 0 && request == Some(PendingRequest())
    {
      if head.None? {
        return None;
      }
      uploadOffset := ResumeOffset(head.value);
      var r := Ajax();
      request := Some(r);
    }

    /** `complete`: replace the status cell, take the task off the failed
        registry, free its slot, and run the queue; since the counter was
        within the limit, the freed slot goes to the head of the queue if a
        task waits. Without a status cell (the task already completed) the
        first step throws and nothing changes. */
    method Complete(authProbeOk: bool) returns (started: Option<Start>)
      requires session.Valid()
      modifies session, session.queues, this`hasStatusCell
      ensures session.Valid()
      ensures !hasStatusCell
      ensures !old(hasStatusCell) ==> started == None && unchanged(session)
      ensures old(hasStatusCell) ==>
        session.failUploaders == old(session.failUploaders) - {idx} &&
        FreedSlotRefilled(old(session.runnings), old(session.queues), old(session.auth), authProbeOk, started)
      ensures session.globalIdx == old(session.globalIdx)
      ensures old(hasStatusCell) && old(session.queues) != [] ==>
        started == Some(Start(old(session.queues[0]), old(session.queues[0].PendingRequest()), !old(session.auth)))
      ensures forall u :: u in old(session.queues) ==> u.uploadOffset == old(u.uploadOffset)
      ensures forall u :: u in old(session.queues) && (!old(hasStatusCell) || u != old(session.queues[0])) ==>
        u.uploaded == old(u.uploaded)
      ensures old(hasStatusCell) && old(session.queues) != [] ==> old(session.queues[0]).uploaded == 0
      ensures forall u :: u in old(session.queues) && u != this ==> u.hasStatusCell == old(u.hasStatusCell)
    {
      if !hasStatusCell {
        return None;
      }
      hasStatusCell := false;
      session.failUploaders := session.failUploaders - {idx};
      session.runnings := session.runnings - 1;
      started := session.RunQueue(authProbeOk);
    }

    /** `fail`: mark the status cell failed with a retry button, file the task
        under its id for that button, free its slot, and run the queue, like
        `complete`. Without a status cell the first step throws and nothing
        changes. */
    method Fail(authProbeOk: bool) returns (started: Option<Start>)
      requires session.Valid()
      modifies session, session.queues
      ensures session.Valid()
      ensures hasStatusCell == old(hasStatusCell)
      ensures !old(hasStatusCell) ==> started == None && unchanged(session)
      ensures old(hasStatusCell) ==>
        session.failUploaders == old(session.failUploaders)[idx := this] &&
        FreedSlotRefilled(old(session.runnings), old(session.queues), old(session.auth), authProbeOk, started)
      ensures session.globalIdx == old(session.globalIdx)
      ensures old(hasStatusCell) && old(session.queues) != [] ==>
        started == Some(Start(old(session.queues[0]), old(session.queues[0].PendingRequest()), !old(session.auth)))
      ensures forall u :: u in old(session.queues) ==> u.uploadOffset == old(u.uploadOffset)
      ensures forall u :: u in old(session.queues) && (!old(hasStatusCell) || u != old(session.queues[0])) ==>
        u.uploaded == old(u.uploaded)
      ensures old(hasStatusCell) && old(session.queues) != [] ==> old(session.queues[0]).uploaded == 0
      ensures forall u :: u in old(session.queues) ==> u.hasStatusCell == old(u.hasStatusCell)
    {
      if !hasStatusCell {
        return None;
      }
      session.failUploaders := session.failUploaders[idx := this];
      session.runnings := session.runnings - 1;
      started := session.RunQueue(authProbeOk);
    }

    /** After a slot is freed: with a task waiting, it takes the slot
        (the counter ends where it was); without one, the counter is one
        lower. */
    ghost predicate FreedSlotRefilled(runnings0: int, queues0: seq<Uploader>, auth0: bool, authProbeOk: bool,
                                      started: Option<Start>)
      reads session
    {
      if queues0 == [] then
        started == None && session.runnings == runnings0 - 1 && session.queues == [] && session.auth == auth0
      else
        started.Some? && started.value.task == queues0[0] && started.value.probed == !auth0 &&
        session.runnings == runnings0 && session.queues == queues0[1..] &&
        session.auth == (auth0 || authProbeOk)
    }

    /** The `readystatechange` handler at `readyState` 4: a 2xx status
        completes the task, any other status but 0 fails it, and status 0
        (a request that never got an answer) changes nothing. */
    method OnDone(status: int, authProbeOk: bool) returns (started: Option<Start>)
      requires session.Valid()
      modifies session, session.queues, this`hasStatusCell
      ensures session.Valid()
      ensures hasStatusCell == (old(hasStatusCell) && !(200 <= status < 300))
      ensures (status == 0 || !old(hasStatusCell)) ==> started == None && unchanged(session)
      ensures old(hasStatusCell) && 200 <= status < 300 ==>
        session.failUploaders == old(session.failUploaders) - {idx}
      ensures old(hasStatusCell) && (status < 200 || status >= 300) && status != 0 ==>
        session.failUploaders == old(session.failUploaders)[idx := this]
      ensures old(hasStatusCell) && status != 0 ==>
        FreedSlotRefilled(old(session.runnings), old(session.queues), old(session.auth), authProbeOk, started)
      ensures old(hasStatusCell) && status != 0 && old(session.queues) != [] ==>
        started == Some(Start(old(session.queues[0]), old(session.queues[0].PendingRequest()), !old(session.auth)))
      ensures status == 0 ==> unchanged(old(session.queues))
      ensures session.globalIdx == old(session.globalIdx)
      ensures forall u :: u in old(session.queues) ==> u.uploadOffset == old(u.uploadOffset)
      ensures forall u :: u in old(session.queues) && (status == 0 || !old(hasStatusCell) || u != old(session.queues[0])) ==>
        u.uploaded == old(u.uploaded)
      ensures old(hasStatusCell) && status != 0 && old(session.queues) != [] ==> old(session.queues[0]).uploaded == 0
      ensures forall u :: u in old(session.queues) && u != this ==> u.hasStatusCell == old(u.hasStatusCell)
    {
      if 200 <= status < 300 {
        started := Complete(authProbeOk);
      } else if status != 0 {
        started := Fail(authProbeOk);
      } else {
        started := None;
      }
    }

    /** The `error` and `abort` handlers: the task fails, whatever the status. */
    method OnErrorOrAbort(authProbeOk: bool) returns (started: Option<Start>)
      requires session.Valid()
      modifies session, session.queues
      ensures session.Valid()
      ensures hasStatusCell == old(hasStatusCell)
      ensures !old(hasStatusCell) ==> started == None && unchanged(session)
      ensures old(hasStatusCell) ==>
        session.failUploaders == old(session.failUploaders)[idx := this] &&
        FreedSlotRefilled(old(session.runnings), old(session.queues), old(session.auth), authProbeOk, started)
      ensures session.globalIdx == old(session.globalIdx)
      ensures old(hasStatusCell) && old(session.queues) != [] ==>
        started == Some(Start(old(session.queues[0]), old(session.queues[0].PendingRequest()), !old(session.auth)))
      ensures forall u :: u in old(session.queues) ==> u.uploadOffset == old(u.uploadOffset)
      ensures forall u :: u in old(session.queues) && (!old(hasStatusCell) || u != old(session.queues[0])) ==>
        u.uploaded == old(u.uploaded)
      ensures old(hasStatusCell) && old(session.queues) != [] ==> old(session.queues[0]).uploaded == 0
      ensures forall u :: u in old(session.queues) ==> u.hasStatusCell == old(u.hasStatusCell)
    {
      started := Fail(authProbeOk);
    }
  }
}
