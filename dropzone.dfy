/**
 * The scanned-PDF drop zone shared by the committee forms: a one-entry slot of
 * preview files, each shown through a revocable `blob:` URL, filled either by
 * dragging a file in or by fetching the scanner's `book.pdf` from the server.
 *
 * The browser's object-URL store is a set of live URL strings with a handle
 * counter; the move service and each GET attempt are oracles; waits and
 * requests go to an ordered log; the calls the component makes to its parent
 * form (`onFilesAccepted`, `onFileRemoved`, `onBookPdfLoaded`) go to an event log.
 */
module Dropzone {
  import opened Wrappers
  import opened Text
  import PosixPath

  const PdfType := "application/pdf"
  const BookPdfName := "book.pdf"
  /** react-dropzone's `maxSize` for a dropped file, in bytes. */
  const MaxDropSize := 10 * 1024 * 1024
  /** react-dropzone's `maxFiles`. */
  const MaxDropFiles := 1
  /** The settle wait after a successful move, in milliseconds. */
  const SettleDelayMs := 2000
  /** The arguments `fetchBookPdf` passes to `fetchWithRetry`. */
  const BookFetchRetries := 3
  const BookFetchInitialDelayMs := 1500
  const SourceDirVariable := "NEXT_PUBLIC_BASE_CLIENT_UPLOAD_PDF_FILES_SOURCE"
  const DestinationDirVariable := "NEXT_PUBLIC_BASE_SERVER_UPLOAD_PDF_FILES_DESTINATION"

  /** A browser `File`: its name, MIME type and size in bytes. */
  datatype File = File(name: string, mime: string, size: nat)

  /** The body of a successful GET with `responseType: 'blob'`. */
  datatype Blob = Blob(mime: string, size: nat)

  /** One slot entry: `{file?, name, preview, size?, isFromBackend?}`. */
  datatype PreviewFile = PreviewFile(
    file: Option<File>, name: string, preview: string, size: Option<nat>, isFromBackend: Option<bool>)

  datatype MoveParams = MoveParams(fileName: string, sourceDir: string, destinationDir: string)

  /** The JSON the move service sends: `message` is "" when absent. */
  datatype MoveBody = MoveBody(success: bool, message: string)

  /** What `fetch('/api/move-book-cmd')` yields: a rejection, or a response whose body
    * parses as JSON (Ok) or fails to parse (Err with the parser's message). */
  datatype MoveReply =
    | FetchRejected(reason: string)
    | Replied(ok: bool, status: nat, json: Result<MoveBody, string>)

  datatype MoveResult = MoveResult(success: bool, message: string)

  /** One `axios.get` attempt: a response with its body, an HTTP error status, or an
    * error without a response (network failure, timeout). */
  datatype GetOutcome = Response(data: Option<Blob>) | HttpError(status: nat) | NoResponse

  /** How `fetchWithRetry` ends: it returns a response, throws an attempt's error, or
    * falls off the loop (when `maxRetries <= 0`) and returns undefined. */
  datatype Attempt = Fetched(data: Option<Blob>) | Threw(error: GetOutcome) | FellThrough

  /** The externally visible steps, in order. */
  datatype Io = MoveRequest(params: MoveParams) | Wait(ms: nat) | Get(attempt: nat)

  /** Calls from the drop zone to its parent form. */
  datatype Event =
    | FilesAccepted(files: seq<File>)
    | FileRemoved(name: string)
    | BookPdfLoaded(success: bool, file: Option<File>)

  /** How `fetchBookPdf` ends: the file was loaded, the failure was caught, or a missing
    * environment variable made it throw before the guarded part. */
  datatype Acquisition = Loaded(file: File) | LoadFailed | ConfigMissing(variable: string)

  // ---------------------------------------------------------------------------
  // Object URLs

  function BlobUrl(handle: nat): string {
    "blob:" + NatToDecimal(handle)
  }

  /** The handle named by a URL of the form `blob:<digits>`. */
  function BlobHandle(url: string): Option<nat> {
    if |url| > 5 && url[..5] == "blob:" && AllDigits(url[5..]) then Some(DecimalValue(url[5..])) else None
  }

  lemma BlobHandleOfUrl(handle: nat)
    ensures BlobHandle(BlobUrl(handle)) == Some(handle)
    ensures StartsWith(BlobUrl(handle), "blob:")
  {
    var u := BlobUrl(handle);
    assert u[..5] == "blob:";
    assert u[5..] == NatToDecimal(handle);
    DecimalRoundTrip(handle);
  }

  predicate IsBlobPreview(f: PreviewFile) {
    StartsWith(f.preview, "blob:")
  }

  /** The previews `revokePreviousUrls(fs)` revokes, in order: those starting with `blob:`. */
  function BlobPreviews(fs: seq<PreviewFile>): (r: seq<string>)
    ensures |r| <= |fs|
  {
    if fs == [] then []
    else
      var init := fs[..|fs| - 1];
      var last := fs[|fs| - 1];
      BlobPreviews(init) + (if IsBlobPreview(last) then [last.preview] else [])
  }

  /** Exactly the `blob:` previews of `fs` are revoked. */
  lemma {:induction false} BlobPreviewsMembers(fs: seq<PreviewFile>)
    ensures forall u :: u in BlobPreviews(fs) ==> StartsWith(u, "blob:") && exists f :: f in fs && f.preview == u
    ensures forall f :: f in fs && IsBlobPreview(f) ==> f.preview in BlobPreviews(fs)
  {
    if fs != [] {
      var init, last := fs[..|fs| - 1], fs[|fs| - 1];
      BlobPreviewsMembers(init);
      assert fs == init + [last];
    }
  }

  lemma BlobPreviewsStep(fs: seq<PreviewFile>, i: nat)
    requires i < |fs|
    ensures BlobPreviews(fs[..i + 1]) == BlobPreviews(fs[..i]) + (if IsBlobPreview(fs[i]) then [fs[i].preview] else [])
  {
    assert fs[..i + 1][..i] == fs[..i];
  }

  /** The preview URLs held in a slot. */
  function PreviewSet(fs: seq<PreviewFile>): set<string> {
    set i | 0 <= i < |fs| :: fs[i].preview
  }

  // ---------------------------------------------------------------------------
  // The move request

  /** `moveBookPdfCmd`: every failure, thrown or reported, becomes `success: false`. */
  function MoveBookPdfCmd(reply: MoveReply): (r: MoveResult)
    ensures r.success <==> reply.Replied? && reply.ok && reply.json.Ok? && reply.json.value.success
    ensures !(reply.Replied? && reply.ok && reply.json.Ok?) ==> StartsWith(r.message, "Network error: ")
  {
    match reply
    case FetchRejected(reason) => MoveResult(false, "Network error: " + reason)
    case Replied(ok, status, json) =>
      match json
      case Err(parseError) => MoveResult(false, "Network error: " + parseError)
      case Ok(body) =>
        if ok then MoveResult(body.success, body.message)
        else
          var detail := if body.message == "" then "Unknown error" else body.message;
          MoveResult(false, "Network error: " + NatToDecimal(status) + ": " + detail)
  }

  /** The move request `fetchBookPdf` sends for `username`. */
  function BookMoveParams(sourceDir: string, destinationDir: string, username: string): (p: MoveParams)
    ensures p.fileName == BookPdfName && p.sourceDir == sourceDir
    ensures PosixPath.PlainRelative(destinationDir) && PosixPath.PlainSegment(username) ==>
              p.destinationDir == destinationDir + "/" + username
  {
    var p := MoveParams(BookPdfName, sourceDir, PosixPath.PathJoin(destinationDir, username));
    if PosixPath.PlainRelative(destinationDir) && PosixPath.PlainSegment(username) then
      PosixPath.PathJoinPlain(destinationDir, username);
      p
    else p
  }

  // ---------------------------------------------------------------------------
  // Retry with exponential backoff

  function Pow2(k: nat): (p: nat)
    ensures p >= 1
  {
    if k == 0 then 1 else 2 * Pow2(k - 1)
  }

  /** The wait after a 404 on attempt `attempt`: `initialDelay * 2^(attempt-1)`. */
  function Backoff(initialDelay: nat, attempt: nat): nat
    requires attempt >= 1
  {
    initialDelay * Pow2(attempt - 1)
  }

  predicate IsNotFound(o: GetOutcome) {
    o.HttpError? && o.status == 404
  }

  datatype RetryRun = RetryRun(trace: seq<Io>, outcome: Attempt)

  /** What `fetchWithRetry(maxRetries, initialDelay)` does from attempt `attempt` on. */
  function RetryFrom(maxRetries: int, initialDelay: nat, server: nat -> GetOutcome, attempt: nat): RetryRun
    requires attempt >= 1
    decreases if attempt <= maxRetries then maxRetries - attempt + 1 else 0
  {
    if attempt > maxRetries then RetryRun([], FellThrough)
    else
      var o := server(attempt);
      if o.Response? then RetryRun([Get(attempt)], Fetched(o.data))
      else if IsNotFound(o) && attempt < maxRetries then
        var rest := RetryFrom(maxRetries, initialDelay, server, attempt + 1);
        RetryRun([Get(attempt), Wait(Backoff(initialDelay, attempt))] + rest.trace, rest.outcome)
      else RetryRun([Get(attempt)], Threw(o))
  }

  /** The loop of `fetchWithRetry`: the GETs and waits it performs, in order, and how it
    * ends. */
  method RetryLoop(maxRetries: int, initialDelay: nat, server: nat -> GetOutcome) returns (trace: seq<Io>, result: Attempt)
    ensures RetryRun(trace, result) == RetryFrom(maxRetries, initialDelay, server, 1)
  {
    var attempt := 1;
    trace := [];
    while attempt <= maxRetries
      invariant 1 <= attempt
      invariant RetryFrom(maxRetries, initialDelay, server, 1)
             == RetryRun(trace + RetryFrom(maxRetries, initialDelay, server, attempt).trace,
                         RetryFrom(maxRetries, initialDelay, server, attempt).outcome)
      decreases maxRetries - attempt
    {
      var o := server(attempt);
      if o.Response? {
        assert RetryFrom(maxRetries, initialDelay, server, attempt) == RetryRun([Get(attempt)], Fetched(o.data));
        return trace + [Get(attempt)], Fetched(o.data);
      }
      if IsNotFound(o) && attempt < maxRetries {
        var ms := Backoff(initialDelay, attempt);
        var rest := RetryFrom(maxRetries, initialDelay, server, attempt + 1);
        assert RetryFrom(maxRetries, initialDelay, server, attempt)
            == RetryRun([Get(attempt), Wait(ms)] + rest.trace, rest.outcome);
        assert trace + ([Get(attempt), Wait(ms)] + rest.trace) == (trace + [Get(attempt), Wait(ms)]) + rest.trace;
        trace := trace + [Get(attempt), Wait(ms)];
        attempt := attempt + 1;
        continue;
      }
      assert RetryFrom(maxRetries, initialDelay, server, attempt) == RetryRun([Get(attempt)], Threw(o));
      return trace + [Get(attempt)], Threw(o);
    }
    assert trace + [] == trace;
    result := FellThrough;
  }

  /** The attempt number of the last GET in a run from `attempt` that issued `|trace|` steps. */
  function LastAttempt(attempt: nat, trace: seq<Io>): nat {
    attempt + |trace| / 2
  }

  /**
   * The shape of a retry run: GETs numbered consecutively, each but the last
   * followed by its backoff wait; no GET beyond `maxRetries`; every GET but the
   * last answered 404; and the run ends with the last GET's response, or with
   * its error when that is not a 404 or the last permitted attempt.
   */
  lemma {:induction false} RetryShape(maxRetries: int, initialDelay: nat, server: nat -> GetOutcome, attempt: nat)
    requires attempt >= 1
    ensures var run := RetryFrom(maxRetries, initialDelay, server, attempt);
      var t := run.trace;
      var last := LastAttempt(attempt, t);
      && (t == [] <==> attempt > maxRetries)
      && (t == [] ==> run.outcome == FellThrough)
      && (t != [] ==> |t| % 2 == 1 && last <= maxRetries)
      && (forall i :: 0 <= i < |t| && i % 2 == 0 ==> t[i] == Get(attempt + i / 2))
      && (forall i :: 0 <= i < |t| && i % 2 == 1 ==> t[i] == Wait(Backoff(initialDelay, attempt + i / 2)))
      && (forall j :: attempt <= j < last && t != [] ==> IsNotFound(server(j)))
      && (t != [] ==> run.outcome == (if server(last).Response? then Fetched(server(last).data) else Threw(server(last))))
      && (t != [] && run.outcome.Threw? ==> !IsNotFound(server(last)) || last == maxRetries)
  {
    RetryEnds(maxRetries, initialDelay, server, attempt);
    RetryGets(maxRetries, initialDelay, server, attempt);
    RetryWaits(maxRetries, initialDelay, server, attempt);
    RetryMisses(maxRetries, initialDelay, server, attempt);
  }

  /** How a retry run ends: empty exactly when no attempt is left, otherwise an odd
    * number of steps whose last GET decides the outcome. */
  lemma {:induction false} RetryEnds(maxRetries: int, initialDelay: nat, server: nat -> GetOutcome, attempt: nat)
    requires attempt >= 1
    ensures var run := RetryFrom(maxRetries, initialDelay, server, attempt);
      var t := run.trace;
      var last := LastAttempt(attempt, t);
      && (t == [] <==> attempt > maxRetries)
      && (t == [] ==> run.outcome == FellThrough)
      && (t != [] ==> |t| % 2 == 1 && last <= maxRetries)
      && (t != [] ==> run.outcome == (if server(last).Response? then Fetched(server(last).data) else Threw(server(last))))
      && (t != [] && run.outcome.Threw? ==> !IsNotFound(server(last)) || last == maxRetries)
    decreases if attempt <= maxRetries then maxRetries - attempt + 1 else 0
  {
    if attempt <= maxRetries {
      var o := server(attempt);
      if !o.Response? && IsNotFound(o) && attempt < maxRetries {
        RetryEnds(maxRetries, initialDelay, server, attempt + 1);
        var rest := RetryFrom(maxRetries, initialDelay, server, attempt + 1);
        var t := [Get(attempt), Wait(Backoff(initialDelay, attempt))] + rest.trace;
        assert LastAttempt(attempt, t) == LastAttempt(attempt + 1, rest.trace);
      }
    }
  }

  /** The GETs of a retry run are numbered consecutively from `attempt`, at the even steps. */
  lemma {:induction false} RetryGets(maxRetries: int, initialDelay: nat, server: nat -> GetOutcome, attempt: nat)
    requires attempt >= 1
    ensures var t := RetryFrom(maxRetries, initialDelay, server, attempt).trace;
      forall i :: 0 <= i < |t| && i % 2 == 0 ==> t[i] == Get(attempt + i / 2)
    decreases if attempt <= maxRetries then maxRetries - attempt + 1 else 0
  {
    if attempt <= maxRetries {
      var o := server(attempt);
      if !o.Response? && IsNotFound(o) && attempt < maxRetries {
        RetryGets(maxRetries, initialDelay, server, attempt + 1);
        var rest := RetryFrom(maxRetries, initialDelay, server, attempt + 1);
        var t := [Get(attempt), Wait(Backoff(initialDelay, attempt))] + rest.trace;
        assert RetryFrom(maxRetries, initialDelay, server, attempt).trace == t;
        assert var r := RetryFrom(maxRetries, initialDelay, server, attempt + 1).trace;
          forall i :: 0 <= i < |r| && i % 2 == 0 ==> r[i] == Get(attempt + 1 + i / 2);
        forall i | 2 <= i < |t| && i % 2 == 0 ensures t[i] == Get(attempt + i / 2) {
          assert t[i] == rest.trace[i - 2] && (i - 2) % 2 == 0;
          assert attempt + 1 + (i - 2) / 2 == attempt + i / 2;
        }
      }
    }
  }

  /** Each GET of a retry run but the last is followed by the backoff wait for its number. */
  lemma {:induction false} RetryWaits(maxRetries: int, initialDelay: nat, server: nat -> GetOutcome, attempt: nat)
    requires attempt >= 1
    ensures var t := RetryFrom(maxRetries, initialDelay, server, attempt).trace;
      forall i :: 0 <= i < |t| && i % 2 == 1 ==> t[i] == Wait(Backoff(initialDelay, attempt + i / 2))
    decreases if attempt <= maxRetries then maxRetries - attempt + 1 else 0
  {
    if attempt <= maxRetries {
      var o := server(attempt);
      if !o.Response? && IsNotFound(o) && attempt < maxRetries {
        RetryWaits(maxRetries, initialDelay, server, attempt + 1);
        var rest := RetryFrom(maxRetries, initialDelay, server, attempt + 1);
        var t := [Get(attempt), Wait(Backoff(initialDelay, attempt))] + rest.trace;
        assert RetryFrom(maxRetries, initialDelay, server, attempt).trace == t;
        assert var r := RetryFrom(maxRetries, initialDelay, server, attempt + 1).trace;
          forall i :: 0 <= i < |r| && i % 2 == 1 ==> r[i] == Wait(Backoff(initialDelay, attempt + 1 + i / 2));
        forall i | 2 <= i < |t| && i % 2 == 1 ensures t[i] == Wait(Backoff(initialDelay, attempt + i / 2)) {
          assert t[i] == rest.trace[i - 2] && (i - 2) % 2 == 1;
          assert attempt + 1 + (i - 2) / 2 == attempt + i / 2;
        }
      }
    }
  }

  /** Every GET of a retry run before the last one was answered 404. */
  lemma {:induction false} RetryMisses(maxRetries: int, initialDelay: nat, server: nat -> GetOutcome, attempt: nat)
    requires attempt >= 1
    ensures var t := RetryFrom(maxRetries, initialDelay, server, attempt).trace;
      forall j :: attempt <= j < LastAttempt(attempt, t) && t != [] ==> IsNotFound(server(j))
    decreases if attempt <= maxRetries then maxRetries - attempt + 1 else 0
  {
    if attempt <= maxRetries {
      var o := server(attempt);
      if !o.Response? && IsNotFound(o) && attempt < maxRetries {
        RetryMisses(maxRetries, initialDelay, server, attempt + 1);
        var rest := RetryFrom(maxRetries, initialDelay, server, attempt + 1);
        var t := [Get(attempt), Wait(Backoff(initialDelay, attempt))] + rest.trace;
        assert LastAttempt(attempt, t) == LastAttempt(attempt + 1, rest.trace);
        RetryEnds(maxRetries, initialDelay, server, attempt + 1);
      }
    }
  }

  /** `fetchWithRetry` never issues more than `maxRetries` GETs. */
  lemma RetryGetsBounded(maxRetries: int, initialDelay: nat, server: nat -> GetOutcome)
    ensures var t := RetryFrom(maxRetries, initialDelay, server, 1).trace;
      forall i :: 0 <= i < |t| && t[i].Get? ==> 1 <= t[i].attempt <= maxRetries
  {
    RetryShape(maxRetries, initialDelay, server, 1);
  }

  /** With the arguments `fetchBookPdf` uses, a file that never appears costs three GETs
    * separated by waits of exactly 1500 and 3000 ms, and the final 404 is thrown. */
  lemma BookFetchAllNotFound(server: nat -> GetOutcome)
    requires forall j :: 1 <= j <= 3 ==> server(j) == HttpError(404)
    ensures RetryFrom(BookFetchRetries, BookFetchInitialDelayMs, server, 1)
         == RetryRun([Get(1), Wait(1500), Get(2), Wait(3000), Get(3)], Threw(HttpError(404)))
  {
    assert server(1) == HttpError(404) && server(2) == HttpError(404) && server(3) == HttpError(404);
    assert Backoff(1500, 2) == 3000;
  }

  /** Any error other than a 404 ends the loop at once. */
  lemma RetryStopsOnOtherErrors(maxRetries: int, initialDelay: nat, server: nat -> GetOutcome)
    requires maxRetries >= 1 && !server(1).Response? && !IsNotFound(server(1))
    ensures RetryFrom(maxRetries, initialDelay, server, 1) == RetryRun([Get(1)], Threw(server(1)))
  {
  }

  // ---------------------------------------------------------------------------
  // The acquisition as a whole

  /** A JavaScript string variable that may be undefined: truthy iff defined and non-empty. */
  predicate Truthy(v: Option<string>) {
    v.Some? && v.value != ""
  }

  /** The checks `fetchBookPdf` applies to the fetched body, and the File it then makes. */
  function AcceptFetched(a: Attempt): (r: Option<File>)
    ensures r.Some? <==> a.Fetched? && a.data.Some? && a.data.value.size > 0 && a.data.value.mime == PdfType
    ensures r.Some? ==> r.value == File(BookPdfName, PdfType, a.data.value.size)
  {
    if a.Fetched? && a.data.Some? && a.data.value.size != 0 && a.data.value.mime == PdfType then
      Some(File(BookPdfName, PdfType, a.data.value.size))
    else None
  }

  datatype Plan = Plan(trace: seq<Io>, outcome: Acquisition)

  /** Steps and outcome of `fetchBookPdf` given the configuration and the oracles. */
  function Acquire(sourceDir: Option<string>, destinationDir: Option<string>, username: string,
                   reply: MoveReply, server: nat -> GetOutcome): Plan
  {
    if !Truthy(sourceDir) then Plan([], ConfigMissing(SourceDirVariable))
    else if !Truthy(destinationDir) then Plan([], ConfigMissing(DestinationDirVariable))
    else
      var params := BookMoveParams(sourceDir.value, destinationDir.value, username);
      var settle := if MoveBookPdfCmd(reply).success then [Wait(SettleDelayMs)] else [];
      var run := RetryFrom(BookFetchRetries, BookFetchInitialDelayMs, server, 1);
      var outcome := match AcceptFetched(run.outcome)
        case Some(f) => Loaded(f)
        case None => LoadFailed;
      Plan([MoveRequest(params)] + settle + run.trace, outcome)
  }

  /** A missing directory variable stops the acquisition before any request. */
  lemma AcquireConfigFirst(sourceDir: Option<string>, destinationDir: Option<string>, username: string,
                           reply: MoveReply, server: nat -> GetOutcome)
    ensures var p := Acquire(sourceDir, destinationDir, username, reply, server);
      (p.outcome.ConfigMissing? <==> !Truthy(sourceDir) || !Truthy(destinationDir))
      && (p.outcome.ConfigMissing? ==> p.trace == [])
  {
  }

  /**
   * With both variables set: the move request goes first; the 2000 ms settle wait
   * follows it exactly when the move succeeded; the first GET comes next whatever
   * the move's result; and at most three GETs are made.
   */
  lemma AcquireOrder(sourceDir: Option<string>, destinationDir: Option<string>, username: string,
                     reply: MoveReply, server: nat -> GetOutcome)
    requires Truthy(sourceDir) && Truthy(destinationDir)
    ensures var p := Acquire(sourceDir, destinationDir, username, reply, server);
      var moved := MoveBookPdfCmd(reply).success;
      var k := if moved then 2 else 1;
      && |p.trace| > k
      && p.trace[0] == MoveRequest(BookMoveParams(sourceDir.value, destinationDir.value, username))
      && (moved ==> p.trace[1] == Wait(SettleDelayMs))
      && p.trace[k] == Get(1)
      && (forall i :: 0 <= i < |p.trace| && p.trace[i].Get? ==> 1 <= p.trace[i].attempt <= 3)
      && (forall i :: 0 <= i < |p.trace| && p.trace[i].MoveRequest? ==> i == 0)
  {
    RetryEnds(BookFetchRetries, BookFetchInitialDelayMs, server, 1);
    RetryGets(BookFetchRetries, BookFetchInitialDelayMs, server, 1);
    RetryWaits(BookFetchRetries, BookFetchInitialDelayMs, server, 1);
    var p := Acquire(sourceDir, destinationDir, username, reply, server);
    var run := RetryFrom(BookFetchRetries, BookFetchInitialDelayMs, server, 1);
    var k := if MoveBookPdfCmd(reply).success then 2 else 1;
    assert |run.trace| % 2 == 1 && LastAttempt(1, run.trace) <= 3;
    forall i | k <= i < |p.trace| ensures p.trace[i] == run.trace[i - k] && !p.trace[i].MoveRequest?
      ensures p.trace[i].Get? ==> 1 <= p.trace[i].attempt <= 3
    {
      assert (i - k) / 2 <= |run.trace| / 2;
    }
  }

  /** The acquisition loads a file exactly when the fetch returned a non-empty PDF body,
    * and the file is then `book.pdf` of that size. */
  lemma AcquireLoadedIff(sourceDir: Option<string>, destinationDir: Option<string>, username: string,
                         reply: MoveReply, server: nat -> GetOutcome)
    requires Truthy(sourceDir) && Truthy(destinationDir)
    ensures var p := Acquire(sourceDir, destinationDir, username, reply, server);
      var run := RetryFrom(BookFetchRetries, BookFetchInitialDelayMs, server, 1);
      && (p.outcome.Loaded? <==> run.outcome.Fetched? && run.outcome.data.Some?
                                 && run.outcome.data.value.size > 0 && run.outcome.data.value.mime == PdfType)
      && (p.outcome.Loaded? ==> p.outcome.file == File(BookPdfName, PdfType, run.outcome.data.value.size))
      && (!p.outcome.Loaded? ==> p.outcome == LoadFailed)
  {
  }

  // ---------------------------------------------------------------------------
  // The component

  class DropzoneComponent {
    const username: string
    /** The slot (`files` state). */
    var files: seq<PreviewFile>
    var isLoadingBookPdf: bool
    /** Object URLs created and not yet revoked. */
    var live: set<string>
    /** The handle the next `URL.createObjectURL` call will use. */
    var nextHandle: nat
    /** Every `URL.revokeObjectURL` call, in order. */
    var revoked: seq<string>
    var io: seq<Io>
    var events: seq<Event>

    /** Every live URL was created by this component. */
    ghost predicate Fresh()
      reads this
    {
      forall u | u in live :: BlobHandle(u).Some? && BlobHandle(u).value < nextHandle
    }

    /** At most one entry, and the live URLs are exactly the slot's previews. */
    ghost predicate Valid()
      reads this
    {
      |files| <= MaxDropFiles && Fresh() && live == PreviewSet(files)
    }

    constructor (username: string)
      ensures this.username == username
      ensures files == [] && !isLoadingBookPdf && live == {} && nextHandle == 0
      ensures revoked == [] && io == [] && events == []
      ensures Valid()
    {
      this.username := username;
      files := [];
      isLoadingBookPdf := false;
      live := {};
      nextHandle := 0;
      revoked := [];
      io := [];
      events := [];
    }

    /** `URL.createObjectURL`: a URL not live before. */
    method CreateObjectUrl() returns (url: string)
      requires Fresh()
      modifies this
      ensures url == BlobUrl(old(nextHandle)) && url !in old(live)
      ensures live == old(live) + {url} && nextHandle == old(nextHandle) + 1
      ensures files == old(files) && isLoadingBookPdf == old(isLoadingBookPdf)
      ensures revoked == old(revoked) && io == old(io) && events == old(events)
      ensures Fresh()
    {
      url := BlobUrl(nextHandle);
      BlobHandleOfUrl(nextHandle);
      live := live + {url};
      nextHandle := nextHandle + 1;
    }

    /** `revokePreviousUrls(fs)`: revokes each preview of `fs` that starts with `blob:`. */
    method RevokePreviousUrls(fs: seq<PreviewFile>)
      modifies this
      ensures revoked == old(revoked) + BlobPreviews(fs)
      ensures forall u :: u in live <==> u in old(live) && u !in BlobPreviews(fs)
      ensures files == old(files) && isLoadingBookPdf == old(isLoadingBookPdf) && nextHandle == old(nextHandle)
      ensures io == old(io) && events == old(events)
    {
      var i := 0;
      while i < |fs|
        invariant 0 <= i <= |fs|
        invariant revoked == old(revoked) + BlobPreviews(fs[..i])
        invariant forall u :: u in live <==> u in old(live) && u !in BlobPreviews(fs[..i])
        invariant files == old(files) && isLoadingBookPdf == old(isLoadingBookPdf) && nextHandle == old(nextHandle)
        invariant io == old(io) && events == old(events)
      {
        BlobPreviewsStep(fs, i);
        if IsBlobPreview(fs[i]) {
          live := live - {fs[i].preview};
          revoked := revoked + [fs[i].preview];
        }
        i := i + 1;
      }
      assert fs[..i] == fs;
    }

    /**
     * `setFiles(newFiles)` together with the cleanup of the effect that depends on
     * the slot: whenever the slot changes, the previous slot's previews are revoked.
     */
    method CommitFiles(newFiles: seq<PreviewFile>)
      modifies this
      ensures files == newFiles
      ensures revoked == old(revoked) + BlobPreviews(old(files))
      ensures forall u :: u in live <==> u in old(live) && u !in BlobPreviews(old(files))
      ensures isLoadingBookPdf == old(isLoadingBookPdf) && nextHandle == old(nextHandle)
      ensures io == old(io) && events == old(events)
    {
      RevokePreviousUrls(files);
      files := newFiles;
    }

    /** The unmount cleanup: revokes the slot's previews. */
    method Unmount()
      modifies this
      ensures revoked == old(revoked) + BlobPreviews(old(files))
      ensures old(Valid()) ==> live == {}
      ensures files == old(files) && isLoadingBookPdf == old(isLoadingBookPdf) && nextHandle == old(nextHandle)
      ensures io == old(io) && events == old(events)
    {
      SlotPreviewsAreBlobs();
      RevokePreviousUrls(files);
    }

    /** In a valid state every preview held is a `blob:` URL, so revoking the slot
      * revokes all of them. */
    lemma SlotPreviewsAreBlobs()
      ensures Valid() ==> forall u :: u in PreviewSet(files) ==> u in BlobPreviews(files)
    {
      if Valid() {
        forall u | u in PreviewSet(files) ensures u in BlobPreviews(files) {
          var i :| 0 <= i < |files| && files[i].preview == u;
          var h := BlobHandle(u).value;
          assert u[..5] == "blob:";
          assert IsBlobPreview(files[i]);
        }
      }
    }

    /** `moveBookPdfCmd` as the component calls it: records the request, never throws. */
    method MoveBook(params: MoveParams, reply: MoveReply) returns (result: MoveResult)
      modifies this
      ensures result == MoveBookPdfCmd(reply)
      ensures io == old(io) + [MoveRequest(params)]
      ensures files == old(files) && isLoadingBookPdf == old(isLoadingBookPdf) && live == old(live)
      ensures nextHandle == old(nextHandle) && revoked == old(revoked) && events == old(events)
    {
      io := io + [MoveRequest(params)];
      result := MoveBookPdfCmd(reply);
    }

    /** `fetchWithRetry(maxRetries, initialDelay)`. */
    method FetchWithRetry(maxRetries: int, initialDelay: nat, server: nat -> GetOutcome) returns (result: Attempt)
      modifies this
      ensures io == old(io) + RetryFrom(maxRetries, initialDelay, server, 1).trace
      ensures result == RetryFrom(maxRetries, initialDelay, server, 1).outcome
      ensures files == old(files) && isLoadingBookPdf == old(isLoadingBookPdf) && live == old(live)
      ensures nextHandle == old(nextHandle) && revoked == old(revoked) && events == old(events)
    {
      var trace;
      trace, result := RetryLoop(maxRetries, initialDelay, server);
      io := io + trace;
    }

    /** The first lines of `fetchBookPdf`: loading on, held previews revoked, slot emptied. */
    method ClearSlot()
      requires Valid()
      modifies this
      ensures files == [] && live == {} && isLoadingBookPdf && Fresh()
      ensures revoked == old(revoked) + BlobPreviews(old(files)) + BlobPreviews(old(files))
      ensures nextHandle == old(nextHandle) && io == old(io) && events == old(events)
    {
      isLoadingBookPdf := true;
      SlotPreviewsAreBlobs();
      RevokePreviousUrls(files);
      CommitFiles([]);
    }

    /** The guarded tail of `fetchBookPdf`: check the fetched body, publish it into the
      * slot and tell the parent, or empty the slot and report failure; loading off. */
    method Publish(response: Attempt) returns (outcome: Acquisition)
      requires files == [] && live == {} && Fresh()
      modifies this
      ensures AcceptFetched(response).Some? ==> outcome == Loaded(AcceptFetched(response).value)
      ensures AcceptFetched(response).None? ==> outcome == LoadFailed
      ensures outcome.LoadFailed? ==> files == [] && events == old(events) + [BookPdfLoaded(false, None)]
      ensures outcome.Loaded? ==>
                && files == [PreviewFile(Some(outcome.file), BookPdfName, BlobUrl(old(nextHandle)),
                                         Some(outcome.file.size), Some(true))]
                && events == old(events) + [FilesAccepted([outcome.file]), BookPdfLoaded(true, Some(outcome.file))]
      ensures !isLoadingBookPdf && revoked == old(revoked) && io == old(io)
      ensures Valid()
    {
      var accepted := AcceptFetched(response);
      if accepted.Some? {
        var file := accepted.value;
        var previewUrl := CreateObjectUrl();
        var entry := PreviewFile(Some(file), BookPdfName, previewUrl, Some(file.size), Some(true));
        CommitFiles([entry]);
        PreviewSetOne(entry);
        events := events + [FilesAccepted([file]), BookPdfLoaded(true, Some(file))];
        outcome := Loaded(file);
      } else {
        CommitFiles([]);
        assert PreviewSet([]) == {};
        events := events + [BookPdfLoaded(false, None)];
        outcome := LoadFailed;
      }
      isLoadingBookPdf := false;
    }

    /** `fetchBookPdf`. The configuration values are the two environment variables. */
    method FetchBookPdf(sourceDir: Option<string>, destinationDir: Option<string>,
                        reply: MoveReply, server: nat -> GetOutcome) returns (outcome: Acquisition)
      requires Valid()
      modifies this
      ensures outcome == Acquire(sourceDir, destinationDir, username, reply, server).outcome
      ensures io == old(io) + Acquire(sourceDir, destinationDir, username, reply, server).trace
      ensures revoked == old(revoked) + BlobPreviews(old(files)) + BlobPreviews(old(files))
      ensures outcome.ConfigMissing? ==> files == [] && isLoadingBookPdf && events == old(events)
      ensures outcome.LoadFailed? ==> files == [] && !isLoadingBookPdf
                                      && events == old(events) + [BookPdfLoaded(false, None)]
      ensures outcome.Loaded? ==>
                && files == [PreviewFile(Some(outcome.file), BookPdfName, BlobUrl(old(nextHandle)),
                                         Some(outcome.file.size), Some(true))]
                && !isLoadingBookPdf
                && events == old(events) + [FilesAccepted([outcome.file]), BookPdfLoaded(true, Some(outcome.file))]
      ensures Valid()
    {
      ClearSlot();
      assert PreviewSet([]) == {};
      if !Truthy(sourceDir) {
        return ConfigMissing(SourceDirVariable);
      }
      if !Truthy(destinationDir) {
        return ConfigMissing(DestinationDirVariable);
      }
      outcome := MoveAndFetch(sourceDir, destinationDir, reply, server);
    }

    /** `fetchBookPdf` once both variables are set: the move request, the settle wait after a
      * successful move, the retried fetch, and the publication of what it gave. */
    method MoveAndFetch(sourceDir: Option<string>, destinationDir: Option<string>,
                        reply: MoveReply, server: nat -> GetOutcome) returns (outcome: Acquisition)
      requires Truthy(sourceDir) && Truthy(destinationDir)
      requires files == [] && live == {} && Fresh()
      modifies this
      ensures outcome == Acquire(sourceDir, destinationDir, username, reply, server).outcome
      ensures io == old(io) + Acquire(sourceDir, destinationDir, username, reply, server).trace
      ensures revoked == old(revoked) && !isLoadingBookPdf
      ensures outcome.LoadFailed? ==> files == [] && events == old(events) + [BookPdfLoaded(false, None)]
      ensures outcome.Loaded? ==>
                && files == [PreviewFile(Some(outcome.file), BookPdfName, BlobUrl(old(nextHandle)),
                                         Some(outcome.file.size), Some(true))]
                && events == old(events) + [FilesAccepted([outcome.file]), BookPdfLoaded(true, Some(outcome.file))]
      ensures Valid()
    {
      var params := BookMoveParams(sourceDir.value, destinationDir.value, username);
      var moveResult := MoveBook(params, reply);
      var settle: seq<Io> := [];
      if moveResult.success {
        settle := [Wait(SettleDelayMs)];
        io := io + settle;
      }
      var response := FetchWithRetry(BookFetchRetries, BookFetchInitialDelayMs, server);
      ghost var run := RetryFrom(BookFetchRetries, BookFetchInitialDelayMs, server, 1);
      assert io == old(io) + ([MoveRequest(params)] + settle + run.trace);
      outcome := Publish(response);
    }

    /** The `reset(silent)` handle the parent forms call. */
    method Reset(silent: bool)
      requires Valid()
      modifies this
      ensures old(files) == [] ==> files == [] && revoked == old(revoked) && events == old(events)
      ensures old(files) != [] ==>
                && files == []
                && revoked == old(revoked) + BlobPreviews(old(files)) + BlobPreviews(old(files))
                && events == old(events) + (if silent then [] else RemovalEvents(old(files)))
      ensures isLoadingBookPdf == old(isLoadingBookPdf) && io == old(io) && nextHandle == old(nextHandle)
      ensures live == {}
      ensures Valid()
    {
      if |files| > 0 {
        SlotPreviewsAreBlobs();
        RevokePreviousUrls(files);
        var held := files;
        var names := seq(|held|, i requires 0 <= i < |held| => held[i].name);
        CommitFiles([]);
        if !silent {
          var i := 0;
          while i < |names|
            invariant 0 <= i <= |names|
            invariant events == old(events) + RemovalEvents(old(files)[..i])
            invariant files == [] && live == {} && revoked == old(revoked) + BlobPreviews(old(files)) + BlobPreviews(old(files))
            invariant isLoadingBookPdf == old(isLoadingBookPdf) && io == old(io) && nextHandle == old(nextHandle)
          {
            assert old(files)[..i + 1][..i] == old(files)[..i];
            assert RemovalEvents(old(files)[..i + 1]) == RemovalEvents(old(files)[..i]) + [FileRemoved(names[i])];
            events := events + [FileRemoved(names[i])];
            i := i + 1;
          }
          assert old(files)[..i] == old(files);
        }
      }
    }

    /** `onDrop(acceptedFiles)`. react-dropzone passes at most one accepted file
      * (`maxFiles: 1`); the state stays valid exactly in that case. */
    method OnDrop(accepted: seq<File>)
      requires Valid()
      modifies this
      ensures accepted == [] ==> files == old(files) && live == old(live) && revoked == old(revoked)
                                 && events == old(events) && nextHandle == old(nextHandle)
      ensures accepted != [] ==>
                && files == [DropEntry(accepted[0], old(nextHandle))]
                && nextHandle == old(nextHandle) + |accepted|
                && revoked == old(revoked) + BlobPreviews(old(files)) + BlobPreviews(old(files))
                && events == old(events) + [FilesAccepted([accepted[0]])]
                && live == UrlsBetween(old(nextHandle), nextHandle)
      ensures isLoadingBookPdf == old(isLoadingBookPdf) && io == old(io)
      ensures Fresh()
      ensures |accepted| <= MaxDropFiles ==> Valid()
    {
      if |accepted| > 0 {
        SlotPreviewsAreBlobs();
        RevokePreviousUrls(files);
        var start := nextHandle;
        var previews := CreatePreviews(accepted);
        CommitFiles([previews[0]]);
        events := events + [FilesAccepted([accepted[0]])];
        if |accepted| == 1 {
          assert live == {BlobUrl(start)} by {
            assert UrlsBetween(start, start + 1) == UrlsBetween(start, start) + {BlobUrl(start)};
          }
          PreviewSetOne(previews[0]);
        }
      }
    }

    /** `acceptedFiles.map(...)` in `onDrop`: one new object URL per accepted file. */
    method CreatePreviews(accepted: seq<File>) returns (previews: seq<PreviewFile>)
      requires live == {} && Fresh()
      modifies this
      ensures previews == DropEntries(accepted, old(nextHandle))
      ensures nextHandle == old(nextHandle) + |accepted| && Fresh()
      ensures live == UrlsBetween(old(nextHandle), nextHandle)
      ensures files == old(files) && isLoadingBookPdf == old(isLoadingBookPdf)
      ensures revoked == old(revoked) && io == old(io) && events == old(events)
    {
      previews := [];
      var i := 0;
      while i < |accepted|
        invariant 0 <= i <= |accepted|
        invariant nextHandle == old(nextHandle) + i && Fresh()
        invariant live == UrlsBetween(old(nextHandle), nextHandle)
        invariant previews == DropEntries(accepted[..i], old(nextHandle))
        invariant files == old(files) && isLoadingBookPdf == old(isLoadingBookPdf)
        invariant revoked == old(revoked) && io == old(io) && events == old(events)
      {
        ghost var n := nextHandle;
        var url := CreateObjectUrl();
        assert UrlsBetween(old(nextHandle), n + 1) == UrlsBetween(old(nextHandle), n) + {BlobUrl(n)};
        var entry := PreviewFile(Some(accepted[i]), accepted[i].name, url, Some(accepted[i].size), Some(false));
        DropEntriesStep(accepted, old(nextHandle), i);
        previews := previews + [entry];
        i := i + 1;
      }
      assert accepted[..i] == accepted;
    }

    /** `removeFile(name)`: revokes the entry of that name if held, then empties the slot. */
    method RemoveFile(name: string)
      requires Valid()
      modifies this
      ensures files == [] && live == {}
      ensures events == old(events) + [FileRemoved(name)]
      ensures revoked == old(revoked) + BlobPreviews(MatchingEntry(old(files), name)) + BlobPreviews(old(files))
      ensures isLoadingBookPdf == old(isLoadingBookPdf) && io == old(io) && nextHandle == old(nextHandle)
      ensures Valid()
    {
      SlotPreviewsAreBlobs();
      var found := FindByName(files, name);
      if found.Some? {
        RevokePreviousUrls([files[found.value]]);
      }
      CommitFiles([]);
      events := events + [FileRemoved(name)];
    }
  }

  /** The URLs of handles `lo` up to but not including `hi`. */
  function UrlsBetween(lo: nat, hi: nat): (r: set<string>)
    ensures forall u :: u in r ==> BlobHandle(u).Some? && lo <= BlobHandle(u).value < hi
    decreases hi
  {
    if hi <= lo then {}
    else
      BlobHandleOfUrl(hi - 1);
      UrlsBetween(lo, hi - 1) + {BlobUrl(hi - 1)}
  }

  /** The slot entry `onDrop` makes for a dropped file whose URL has handle `handle`. */
  function DropEntry(f: File, handle: nat): PreviewFile {
    PreviewFile(Some(f), f.name, BlobUrl(handle), Some(f.size), Some(false))
  }

  /** The entries `onDrop` builds for `fs`, the `j`-th with handle `first + j`. */
  function DropEntries(fs: seq<File>, first: nat): (r: seq<PreviewFile>)
    ensures |r| == |fs|
    ensures forall j :: 0 <= j < |fs| ==> r[j] == DropEntry(fs[j], first + j)
  {
    seq(|fs|, j requires 0 <= j < |fs| => DropEntry(fs[j], first + j))
  }

  lemma DropEntriesStep(fs: seq<File>, first: nat, i: nat)
    requires i < |fs|
    ensures DropEntries(fs[..i + 1], first) == DropEntries(fs[..i], first) + [DropEntry(fs[i], first + i)]
  {
  }

  lemma PreviewSetOne(f: PreviewFile)
    ensures PreviewSet([f]) == {f.preview}
  {
    assert [f][0] == f;
  }

  /** `onFileRemoved` for each name, in order. */
  function RemovalEvents(fs: seq<PreviewFile>): (r: seq<Event>)
    ensures |r| == |fs|
    ensures forall i :: 0 <= i < |fs| ==> r[i] == FileRemoved(fs[i].name)
  {
    if fs == [] then [] else RemovalEvents(fs[..|fs| - 1]) + [FileRemoved(fs[|fs| - 1].name)]
  }

  /** The index `files.find(f => f.name === name)` stops at. */
  function FindByName(fs: seq<PreviewFile>, name: string): (r: Option<nat>)
    ensures r.Some? ==> r.value < |fs| && fs[r.value].name == name
    ensures r.Some? ==> forall j :: 0 <= j < r.value ==> fs[j].name != name
    ensures r.None? ==> forall j :: 0 <= j < |fs| ==> fs[j].name != name
  {
    if fs == [] then None
    else if fs[0].name == name then Some(0)
    else
      match FindByName(fs[1..], name)
      case None => None
      case Some(i) => Some(i + 1)
  }

  /** The entry `removeFile` revokes explicitly, as a list of zero or one previews. */
  function MatchingEntry(fs: seq<PreviewFile>, name: string): seq<PreviewFile> {
    match FindByName(fs, name)
    case Some(i) => [fs[i]]
    case None => []
  }
}
