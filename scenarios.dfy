/**
 * Runs of the upload scheduler on a session with one slot (the default
 * `DUFS_MAX_UPLOADINGS`) on the page `href`, each stated as what the
 * methods' contracts imply.
 */
module Scenarios {
  import opened Wrappers
  import opened Text
  import opened Upload

  /** Two uploads with one slot: the first starts with the authentication
      probe and a `PUT`, the second waits, and the first one's completion
      starts the second without a second probe. */
  method FifoWithOneSlot(href: string, fileA: File, fileB: File)
    returns (first: Option<Start>, second: Option<Start>, afterComplete: Option<Start>)
    ensures first.Some? && first.value.probed && first.value.request.Put?
    ensures first.value.request.body == fileA.data
    ensures second == None
    ensures afterComplete.Some? && !afterComplete.value.probed
    ensures afterComplete.value.request.Put? && afterComplete.value.request.body == fileB.data
  {
    var s := new UploadSession(1);
    var a := new Uploader(s, fileA, [], href);
    var b := new Uploader(s, fileB, [], href);
    first := a.Upload(true);
    second := b.Upload(true);
    afterComplete := a.OnDone(200, true);
  }

  /** Ids come from the counter in creation order. */
  method IdsIncrease(href: string, fileA: File, fileB: File) returns (idA: nat, idB: nat)
    ensures idA == 0 && idB == 1
  {
    var s := new UploadSession(1);
    var a := new Uploader(s, fileA, [], href);
    var b := new Uploader(s, fileB, [], href);
    idA, idB := a.idx, b.idx;
  }

  /** A failed probe re-arms it: the next start probes again. */
  method FailedProbeRetried(href: string, fileA: File, fileB: File) returns (first: Option<Start>, next: Option<Start>)
    ensures first.Some? && first.value.probed
    ensures next.Some? && next.value.probed
  {
    var s := new UploadSession(1);
    var a := new Uploader(s, fileA, [], href);
    var b := new Uploader(s, fileB, [], href);
    first := a.Upload(false);
    var none := b.Upload(true);
    next := a.OnDone(201, true);
  }

  /** A request that gets no answer reaches `readyState` 4 with status 0, and
      the `readystatechange` handler alone then frees no slot: the queued task
      still waits. The `error` (or `abort`) event that follows fails the task,
      and its freed slot starts the queued one. */
  method StatusZeroThenError(href: string, fileA: File, fileB: File)
    returns (waiting: nat, runnings: int, afterError: Option<Start>)
    ensures waiting == 1 && runnings == 1
    ensures afterError.Some? && afterError.value.request.Put? && afterError.value.request.body == fileB.data
  {
    var s := new UploadSession(1);
    var a := new Uploader(s, fileA, [], href);
    var b := new Uploader(s, fileB, [], href);
    var first := a.Upload(true);
    var second := b.Upload(true);
    var none := a.OnDone(0, true);
    waiting, runnings := |s.queues|, s.runnings;
    afterError := a.OnErrorOrAbort(true);
  }

  /** A session with one slot whose only task, uploading `file` at the top of
      the page's directory, started and failed: it is filed under its id, no
      transfer runs and nothing waits. */
  method FailedUpload(href: string, file: File) returns (s: UploadSession, a: Uploader)
    ensures fresh(s) && fresh(a) && a.session == s && s.Valid()
    ensures s.maxUploadings == 1 && s.runnings == 0 && s.queues == []
    ensures s.failUploaders == map[a.idx := a]
    ensures a.file == file && a.url == Url.NewUrl(href, Join([] + [file.name], '/'))
    ensures a.hasStatusCell
  {
    s := new UploadSession(1);
    a := new Uploader(s, file, [], href);
    var started := a.Upload(true);
    var none := a.OnErrorOrAbort(true);
  }

  /** A transfer fails while the server holds its first `held` bytes; the
      retry button's `HEAD` reports them, and the retry sends a `PATCH` with
      the rest, after which the server holds the whole file. */
  method ResumeAfterFailure(href: string, file: File, held: nat) returns (request: Option<Request>)
    requires 0 < held <= |file.data|
    ensures request.Some? && request.value.Patch?
    ensures request.value.header == ("X-Update-Range", "append")
    ensures request.value.body == file.data[held..]
    ensures ServerAfter(file.data[..held], request.value) == file.data
  {
    var s, a := FailedUpload(href, file);
    ParseRetryIdOfButton(a.idx);
    var head := HeadReply(200, Some(NatToString(held)));
    ResumeRestoresFile(a.url, file, held);
    request := s.RetryClicked("retry" + NatToString(a.idx), Some(head));
  }

  /** A retry sends without taking a slot, but its end still frees one: after
      fail, retry and fail again, the counter is below zero. */
  method RetryUnderflows(href: string, file: File) returns (runnings: int)
    ensures runnings == -1
  {
    var s, a := FailedUpload(href, file);
    ParseRetryIdOfButton(a.idx);
    var request := s.RetryClicked("retry" + NatToString(a.idx), Some(HeadReply(404, None)));
    var none := a.OnDone(500, true);
    runnings := s.runnings;
  }

  /** The retry button stays in the status cell and a retry leaves the task
      filed, so two clicks send the task twice. The first transfer to finish
      completes the task and frees a slot; the second one's `complete` (or
      `fail`) then throws on the cleared status cell, so it frees no slot and
      files nothing: the counter ends at -1, not -2. */
  method CompletedTwice(href: string, file: File, secondStatus: int)
    returns (first: Option<Request>, second: Option<Request>, runnings: int, filed: bool)
    requires secondStatus != 0
    ensures first.Some? && second.Some? && first == second
    ensures runnings == -1 && !filed
  {
    var s, a := FailedUpload(href, file);
    ParseRetryIdOfButton(a.idx);
    var button := "retry" + NatToString(a.idx);
    first := s.RetryClicked(button, Some(HeadReply(404, None)));
    second := s.RetryClicked(button, Some(HeadReply(404, None)));
    var none := a.OnDone(200, true);
    none := a.OnDone(secondStatus, true);
    runnings, filed := s.runnings, a.idx in s.failUploaders;
  }

  /** While a retried transfer is in flight, the single slot is free, so a
      new upload starts beside it: two transfers run with one slot, to the
      URLs of the two files. */
  method RetryExceedsLimit(href: string, fileA: File, fileB: File) returns (retried: Option<Request>, started: Option<Start>)
    ensures retried.Some? && started.Some?
    ensures started.value.request.url == retried.value.url ==> fileA.name == fileB.name
  {
    var s, a := FailedUpload(href, fileA);
    ghost var urlA := Url.NewUrl(href, Join([] + [fileA.name], '/'));
    ParseRetryIdOfButton(a.idx);
    retried := s.RetryClicked("retry" + NatToString(a.idx), Some(HeadReply(404, None)));
    assert retried.value.url == urlA;
    var b := new Uploader(s, fileB, [], href);
    assert b.url == Url.NewUrl(href, Join([] + [fileB.name], '/'));
    started := b.Upload(true);
    assert started.value.request.url == Url.NewUrl(href, Join([] + [fileB.name], '/'));
    SameUrlSameName(href, fileA.name, fileB.name);
  }

  /** Two files picked at the top of the same directory get the same URL only
      when they have the same name. */
  lemma SameUrlSameName(href: string, x: string, y: string)
    ensures Url.NewUrl(href, Join([] + [x], '/')) == Url.NewUrl(href, Join([] + [y], '/')) ==> x == y
  {
    assert [] + [x] == [x] && [] + [y] == [y];
    if Url.NewUrl(href, Join([x], '/')) == Url.NewUrl(href, Join([y], '/')) {
      Url.NewUrlInjective(href, Join([x], '/'), Join([y], '/'));
    }
  }
}
