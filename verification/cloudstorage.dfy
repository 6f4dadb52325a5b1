/**
  The two transfer handlers of the gateway, as decision procedures over the
  outcomes of the steps they take. A run of a handler is the trace of what it
  does: the calls it makes to its collaborator (the uploader or the
  downloader), the one response it writes, and the closing of the resource it
  obtained (the multipart part or the object stream), which Go defers to the
  end of the handler.

  Multipart decoding, `uuid.Parse`, the uploader, the downloader and the
  clock are not modelled; their outcomes are the handlers' parameters.
*/
module CloudStorage {
  import opened Base
  import opened StatusResponder
  import opened Uuids

  /** One thing a handler does, in the order it does them; `A` is what its collaborator is called with. */
  datatype Event<A> =
    | Called(arg: A)                // up.Upload(ctx, part) or d.Download(ctx, id)
    | Responded(response: Response)
    | Closed                        // the deferred part.Close() or rc.Close()

  /** The arguments of the collaborator calls in a trace. */
  function Calls<A>(trace: seq<Event<A>>): (r: seq<A>)
    ensures forall i :: 0 <= i < |r| ==> Called(r[i]) in trace
    ensures forall j :: 0 <= j < |trace| && trace[j].Called? ==> trace[j].arg in r
    decreases |trace|
  {
    if trace == [] then []
    else (if trace[0].Called? then [trace[0].arg] else []) + Calls(trace[1..])
  }

  /** The responses written in a trace. */
  function Responses<A>(trace: seq<Event<A>>): (r: seq<Response>)
    ensures forall i :: 0 <= i < |r| ==> Responded(r[i]) in trace
    ensures forall j :: 0 <= j < |trace| && trace[j].Responded? ==> trace[j].response in r
    decreases |trace|
  {
    if trace == [] then []
    else (if trace[0].Responded? then [trace[0].response] else []) + Responses(trace[1..])
  }

  /** How many times a trace closes its resource. */
  function Closes<A>(trace: seq<Event<A>>): (r: nat)
    ensures r == 0 <==> Closed !in trace
    decreases |trace|
  {
    if trace == [] then 0
    else (if trace[0].Closed? then 1 else 0) + Closes(trace[1..])
  }

  /** A call, its response and the closing of what the call returned. */
  lemma CallRespondClose<A>(a: A, r: Response)
    ensures var t := [Called(a), Responded(r), Closed];
      Calls(t) == [a] && Responses(t) == [r] && Closes(t) == 1
  {
    var t3: seq<Event<A>> := [Closed];
    var t2 := [Responded(r)] + t3;
    var t := [Called(a)] + t2;
    assert t3[1..] == [];
    assert t2[1..] == t3;
    assert t[1..] == t2;
    assert Calls(t3) == [] && Responses(t3) == [] && Closes(t3) == 1;
    assert Calls(t2) == [] && Responses(t2) == [r] && Closes(t2) == 1;
    assert [Called(a), Responded(r), Closed] == t;
  }

  /** A call and its response. */
  lemma CallRespond<A>(a: A, r: Response)
    ensures var t := [Called(a), Responded(r)];
      Calls(t) == [a] && Responses(t) == [r] && Closes(t) == 0
  {
    var t2: seq<Event<A>> := [Responded(r)];
    var t := [Called(a)] + t2;
    assert t2[1..] == [];
    assert t[1..] == t2;
    assert Calls(t2) == [] && Responses(t2) == [r] && Closes(t2) == 0;
    assert [Called(a), Responded(r)] == t;
  }

  // ---- upload ----

  /** The status handler for a request that is not multipart (the misspelling is the Go code's own). */
  const UnsupportedMediaType := StatusHandler(415, "request is not a mulitpart/form")

  /** What the 422 message starts with, before the decoding error. */
  const DecodeFailurePrefix := "failed to decode part: "

  /** The status handler for a part that cannot be decoded: `fmt.Sprintf("failed to decode part: %v", err)`. */
  function UnprocessableEntity(err: string): (sh: StatusHandler)
    ensures sh.code == 422
    ensures |sh.s| >= |DecodeFailurePrefix| && sh.s[..|DecodeFailurePrefix|] == DecodeFailurePrefix
    ensures sh.s[|DecodeFailurePrefix|..] == err
  {
    StatusHandler(422, DecodeFailurePrefix + err)
  }

  /** What a successful upload reports: the object's id and the bytes written. */
  datatype Uploaded<K> = Uploaded(id: K, size: int)

  /**
    `handleUploadCloudStorage` for one request. `multipart` says whether the
    request has a multipart body, `nextPart` is the outcome of reading its
    first part, `upload` is the uploader, `show` is the id's `String` method
    and `elapsed` is the rendered time since the request arrived.
  */
  function HandleUpload<P, K, E>(multipart: bool, nextPart: Result<P, string>, upload: P -> Result<Uploaded<K>, E>,
                                 show: K -> string, elapsed: string, statusText: int -> string): (trace: seq<Event<P>>)
    ensures |Responses(trace)| == 1
    ensures Calls(trace) == (if multipart && nextPart.Success? then [nextPart.value] else [])
    ensures Closes(trace) == |Calls(trace)|
    ensures Closes(trace) > 0 ==> trace[|trace| - 1] == Closed
  {
    if !multipart then
      [Responded(ServeHTTP(UnsupportedMediaType, statusText))]
    else if nextPart.Failure? then
      [Responded(ServeHTTP(UnprocessableEntity(nextPart.error), statusText))]
    else
      var part := nextPart.value;
      var response := match upload(part)
        case Failure(err) => Error(err)
        case Success(up) => JsonCompleted(show(up.id), up.size, elapsed);
      CallRespondClose(part, response);
      [Called(part), Responded(response), Closed]
  }

  /** The response of the upload handler in each case. */
  lemma UploadResponse<P, K, E>(multipart: bool, nextPart: Result<P, string>, upload: P -> Result<Uploaded<K>, E>,
                                show: K -> string, elapsed: string, statusText: int -> string)
    ensures var r := Responses(HandleUpload(multipart, nextPart, upload, show, elapsed, statusText))[0];
      && (!multipart ==> r == HttpError(415, statusText(415)))
      && (multipart && nextPart.Failure? ==> r == HttpError(422, statusText(422)))
      && (multipart && nextPart.Success? && upload(nextPart.value).Failure? ==>
            StatusOf(r) == 500 && r == HttpError(500, MaskedMessage))
      && (multipart && nextPart.Success? && upload(nextPart.value).Success? ==>
            var up := upload(nextPart.value).value;
            r.JsonCompleted? && r.resourceId == show(up.id) && r.bytesWritten == up.size && r.timeElapsed == elapsed)
  {
  }

  /** Until a part has been read, the uploader makes no difference: two uploaders give the same run. */
  lemma UploadShortCircuit<P, K, E>(multipart: bool, nextPart: Result<P, string>,
                                    up1: P -> Result<Uploaded<K>, E>, up2: P -> Result<Uploaded<K>, E>,
                                    show: K -> string, elapsed: string, statusText: int -> string)
    requires !multipart || nextPart.Failure?
    ensures HandleUpload(multipart, nextPart, up1, show, elapsed, statusText)
         == HandleUpload(multipart, nextPart, up2, show, elapsed, statusText)
  {
  }

  // ---- download ----

  /** The status handler for a path id that is not a UUID. */
  const BadPathValue := StatusHandler(400, "path parameter has invalid format")

  /**
    `handleDownloadCloudStorage` for one request. `id` is the outcome of
    `uuid.Parse` on the path parameter, `download` is the downloader, whose
    success is the content of the stream it returns.
  */
  function HandleDownload<E>(verb: string, id: Option<Uuid>, download: Uuid -> Result<seq<byte>, E>,
                             statusText: int -> string): (trace: seq<Event<Uuid>>)
    ensures |Responses(trace)| == 1
    ensures Calls(trace) == (if id.Some? then [id.value] else [])
    ensures Closes(trace) == (if id.Some? && download(id.value).Success? then 1 else 0)
    ensures Closes(trace) > 0 ==> trace[|trace| - 1] == Closed
  {
    match id
    case None => [Responded(ServeHTTP(BadPathValue, statusText))]
    case Some(u) =>
      match download(u)
      case Failure(err) =>
        CallRespond(u, Error(err));
        [Called(u), Responded(Error(err))]
      case Success(content) =>
        var response := if verb != "HEAD" then Copied(content) else Untouched;
        CallRespondClose(u, response);
        [Called(u), Responded(response), Closed]
  }

  /** The response of the download handler in each case: a HEAD request gets the headers and no body. */
  lemma DownloadResponse<E>(verb: string, id: Option<Uuid>, download: Uuid -> Result<seq<byte>, E>,
                            statusText: int -> string)
    ensures var r := Responses(HandleDownload(verb, id, download, statusText))[0];
      && (id.None? ==> r == HttpError(400, statusText(400)))
      && (id.Some? && download(id.value).Failure? ==> r == HttpError(500, MaskedMessage))
      && (id.Some? && download(id.value).Success? ==>
            StatusOf(r) == 200 && (r == Copied(download(id.value).value) <==> verb != "HEAD"))
      && (id.Some? && download(id.value).Success? && verb == "HEAD" ==> r == Untouched)
  {
  }

  /** A malformed id never reaches the downloader: two downloaders give the same run. */
  lemma DownloadShortCircuit<E>(verb: string, d1: Uuid -> Result<seq<byte>, E>, d2: Uuid -> Result<seq<byte>, E>,
                                statusText: int -> string)
    ensures HandleDownload(verb, None, d1, statusText) == HandleDownload(verb, None, d2, statusText)
  {
  }

  // ---- the status handlers built here ----

  /** Every status handler with an error code built by the two handlers carries at least 20 bytes, so `Err` never panics. */
  lemma HandlerMessagesLongEnough(err: string)
    ensures |UnsupportedMediaType.s| == 31 && ErrDefined(UnsupportedMediaType)
    ensures |BadPathValue.s| == 33 && ErrDefined(BadPathValue)
    ensures |DecodeFailurePrefix| == 23 && ErrDefined(UnprocessableEntity(err))
  {
  }
}
