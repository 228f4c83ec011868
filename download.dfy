/**
 * `download_to_path`: streams a response body into a file, resuming a
 * partial file with a `Range` request (section 14 of RFC 9110) when the
 * server answers 206, and starting over when it sends the whole body. The
 * file is its content; the client call is a parameter returning the
 * status and the body's chunks.
 */
module Download {
  import opened Common
  import opened Http
  import Utf8

  /** `DownloadError`. */
  datatype DownloadError<E> = Remote(remote: E) | Body(reason: string) | Io(io: string) | Upstream(status: StatusCode)

  /** `HttpError::status` for `DownloadError`, given the status of the client's own errors. */
  function Status<E>(e: DownloadError<E>, remoteStatus: E -> Option<StatusCode>): (r: Option<StatusCode>)
    ensures e.Remote? ==> r == remoteStatus(e.remote)
    ensures e.Body? ==> r == Some(BadGateway)
    ensures e.Io? ==> r == Some(InternalServerError)
    ensures e.Upstream? ==> r == Some(e.status)
    ensures !e.Remote? ==> r.Some?
  {
    match e
    case Remote(err) => remoteStatus(err)
    case Body(_) => Some(BadGateway)
    case Io(_) => Some(InternalServerError)
    case Upstream(s) => Some(s)
  }

  /** `DownloadReport`. */
  datatype Report = Report(path: string, resumedFrom: nat, bytesWritten: nat)

  /** `total_bytes`: what is on disk now: the bytes resumed from and the bytes written. */
  function TotalBytes(r: Report): nat { r.resumedFrom + r.bytesWritten }

  /** `DownloadOptions`. */
  datatype Options = Options(resumeExisting: bool)

  /** `DownloadOptions::default`: resume. */
  function DefaultOptions(): (o: Options)
    ensures o.resumeExisting
  {
    Options(true)
  }

  /** The file at the path before the download: its content if it exists, and the error reading its metadata fails with if that is not "not found". */
  datatype Disk = Disk(content: Option<seq<byte>>, statError: Option<string>)

  /** The response: its status and the chunks its body arrives in, each read or failing. */
  datatype Streamed = Streamed(status: StatusCode, chunks: seq<Result<seq<byte>, string>>)

  /** `existing_len`: the file's length when resuming, else nothing to resume. */
  function ExistingLen(disk: Disk, options: Options): (r: Result<nat, string>)
    ensures !options.resumeExisting ==> r == Ok(0)
    ensures options.resumeExisting && disk.statError.Some? ==> r == Err(disk.statError.value)
    ensures options.resumeExisting && disk.statError.None? ==>
      r == Ok(if disk.content.Some? then |disk.content.value| else 0)
  {
    if options.resumeExisting then
      match disk.statError
      case Some(io) => Err(io)
      case None => Ok(if disk.content.Some? then |disk.content.value| else 0)
    else Ok(0)
  }

  /** `bytes={n}-`: everything from byte `n` on. */
  function RangeText(n: nat): string { "bytes=" + Decimal(n) + "-" }

  /** The request as sent: asking only for the bytes after the existing ones, if there are any. */
  function Ranged(request: Request, existing: nat): (r: Request)
    ensures ContainsKey(r.headers, Range) <==> existing > 0 || ContainsKey(request.headers, Range)
    ensures existing > 0 ==> GetAll(r.headers, Range) == [Utf8.Encode(RangeText(existing))]
    ensures forall name :: name != Range ==> GetAll(r.headers, name) == GetAll(request.headers, name)
    ensures r.verb == request.verb && r.uri == request.uri && r.body == request.body
    ensures existing == 0 ==> r == request
  {
    if existing > 0 then request.(headers := Insert(request.headers, Range, Utf8.Encode(RangeText(existing))))
    else request
  }

  /** The bytes of the chunks up to the first one that fails, and that failure. */
  function Received(chunks: seq<Result<seq<byte>, string>>): (r: (seq<byte>, Option<string>))
    ensures r.1.None? <==> forall i :: 0 <= i < |chunks| ==> chunks[i].Ok?
    decreases |chunks|
  {
    if chunks == [] then ([], None)
    else
      match chunks[0]
      case Err(reason) => ([], Some(reason))
      case Ok(bytes) =>
        var rest := Received(chunks[1..]);
        assert forall i :: 1 <= i < |chunks| ==> chunks[i] == chunks[1..][i - 1];
        (bytes + rest.0, rest.1)
  }

  /**
   * What `download_to_path` returns and what the file holds afterwards.
   * Nothing is written unless the status is a success or 206; the existing
   * bytes are kept exactly when there were some and the answer is 206; the
   * chunks are written in order until one fails; the report's total is the
   * file's length.
   */
  function Outcome<E>(path: string, request: Request, disk: Disk, options: Options, send: Request -> Result<Streamed, E>): (o: (Result<Report, DownloadError<E>>, Option<seq<byte>>))
    ensures ExistingLen(disk, options).Err? ==> o == (Err(Io(ExistingLen(disk, options).error)), disk.content)
    ensures ExistingLen(disk, options).Ok? ==> var n := ExistingLen(disk, options).value;
      var reply := send(Ranged(request, n));
      && (reply.Err? ==> o == (Err(Remote(reply.error)), disk.content))
      && (reply.Ok? && !(IsSuccess(reply.value.status) || reply.value.status == PartialContent) ==>
            o == (Err(Upstream(reply.value.status)), disk.content))
      && (reply.Ok? && (IsSuccess(reply.value.status) || reply.value.status == PartialContent) ==>
            var resume := n > 0 && reply.value.status == PartialContent;
            var kept := if resume then disk.content.value else [];
            var (bytes, failure) := Received(reply.value.chunks);
            && o.1 == Some(kept + bytes)
            && (failure.Some? ==> o.0 == Err(Body(failure.value)))
            && (failure.None? ==> o.0 == Ok(Report(path, if resume then n else 0, |bytes|))
                                  && TotalBytes(o.0.value) == |o.1.value|))
  {
    match ExistingLen(disk, options)
    case Err(io) => (Err(Io(io)), disk.content)
    case Ok(n) =>
      match send(Ranged(request, n))
      case Err(e) => (Err(Remote(e)), disk.content)
      case Ok(reply) =>
        if !(IsSuccess(reply.status) || reply.status == PartialContent) then (Err(Upstream(reply.status)), disk.content)
        else
          var resume := n > 0 && reply.status == PartialContent;
          var kept := if resume then disk.content.value else [];
          var received := Received(reply.chunks);
          match received.1
          case Some(reason) => (Err(Body(reason)), Some(kept + received.0))
          case None => (Ok(Report(path, if resume then n else 0, |received.0|)), Some(kept + received.0))
  }

  /**
   * A partial file that the server completes with a 206 ends up holding the
   * whole payload, after a request for exactly the missing bytes.
   */
  lemma ResumeCompletes<E>(path: string, request: Request, payload: seq<byte>, k: nat, send: Request -> Result<Streamed, E>)
    requires 0 < k <= |payload|
    requires send(Ranged(request, k)).Ok?
    requires send(Ranged(request, k)).value.status == PartialContent
    requires Received(send(Ranged(request, k)).value.chunks) == (payload[k..], None)
    ensures var o := Outcome(path, request, Disk(Some(payload[..k]), None), DefaultOptions(), send);
      && o.1 == Some(payload)
      && o.0 == Ok(Report(path, k, |payload| - k))
    ensures GetAll(Ranged(request, k).headers, Range) == [Utf8.Encode(RangeText(k))]
  {
    assert payload[..k] + payload[k..] == payload;
  }

  /** A server that ignores the range and sends the whole payload with 200 has it rewrite the file from the start. */
  lemma RestartRewrites<E>(path: string, request: Request, disk: Disk, payload: seq<byte>, send: Request -> Result<Streamed, E>)
    requires disk.statError.None?
    requires var n := ExistingLen(disk, DefaultOptions()).value;
      send(Ranged(request, n)).Ok? && send(Ranged(request, n)).value.status == OK
      && Received(send(Ranged(request, n)).value.chunks) == (payload, None)
    ensures var o := Outcome(path, request, disk, DefaultOptions(), send);
      o.1 == Some(payload) && o.0 == Ok(Report(path, 0, |payload|))
  {
    assert [] + payload == payload;
  }

  /** `download_to_path`: returns the outcome and the file's content afterwards. */
  method DownloadToPath<E>(path: string, request: Request, disk: Disk, options: Options, send: Request -> Result<Streamed, E>)
    returns (r: Result<Report, DownloadError<E>>, file: Option<seq<byte>>)
    ensures (r, file) == Outcome(path, request, disk, options, send)
  {
    var existingLen := 0;
    if options.resumeExisting {
      if disk.statError.Some? {
        return Err(Io(disk.statError.value)), disk.content;
      }
      existingLen := if disk.content.Some? then |disk.content.value| else 0;
    }
    var sent := request;
    if existingLen > 0 {
      sent := request.(headers := Insert(request.headers, Range, Utf8.Encode(RangeText(existingLen))));
    }
    var reply := send(sent);
    if reply.Err? {
      return Err(Remote(reply.error)), disk.content;
    }
    var status := reply.value.status;
    var chunks := reply.value.chunks;
    if !(IsSuccess(status) || status == PartialContent) {
      return Err(Upstream(status)), disk.content;
    }
    var resumedFrom := 0;
    var content: seq<byte>;
    if existingLen > 0 && status == PartialContent {
      resumedFrom := existingLen;
      content := disk.content.value;
    } else {
      content := [];
    }
    var written, bytesWritten, failure := WriteChunks(content, chunks);
    if failure.Some? {
      return Err(Body(failure.value)), Some(written);
    }
    return Ok(Report(path, resumedFrom, bytesWritten)), Some(written);
  }

  /**
   * The write loop: each chunk goes after the bytes before it, until one
   * fails; counts the bytes written.
   */
  method WriteChunks(start: seq<byte>, chunks: seq<Result<seq<byte>, string>>)
    returns (content: seq<byte>, bytesWritten: nat, failure: Option<string>)
    ensures content == start + Received(chunks).0 && failure == Received(chunks).1
    ensures bytesWritten == |Received(chunks).0|
  {
    content := start;
    bytesWritten := 0;
    var i := 0;
    while i < |chunks|
      invariant 0 <= i <= |chunks|
      invariant content + Received(chunks[i..]).0 == start + Received(chunks).0
      invariant Received(chunks[i..]).1 == Received(chunks).1
      invariant bytesWritten == |content| - |start| && |start| <= |content|
    {
      ChunksStep(chunks, i);
      if chunks[i].Err? {
        assert content + [] == content;
        return content, bytesWritten, Some(chunks[i].error);
      }
      content := content + chunks[i].value;
      bytesWritten := bytesWritten + |chunks[i].value|;
      i := i + 1;
    }
    assert chunks[i..] == [];
    assert content + [] == content;
    failure := None;
  }

  /** What is received from chunk `i` on: that chunk's bytes, then what follows it, or its failure. */
  lemma ChunksStep(chunks: seq<Result<seq<byte>, string>>, i: nat)
    requires i < |chunks|
    ensures chunks[i].Err? ==> Received(chunks[i..]) == ([], Some(chunks[i].error))
    ensures chunks[i].Ok? ==>
      Received(chunks[i..]) == (chunks[i].value + Received(chunks[i + 1..]).0, Received(chunks[i + 1..]).1)
  {
    assert chunks[i..][0] == chunks[i];
    assert chunks[i..][1..] == chunks[i + 1..];
  }
}
