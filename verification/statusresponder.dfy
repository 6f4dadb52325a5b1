/**
  The gateway's status responder: a status code paired with a string that is a
  diagnostic detail for error codes and a redirect target for 3xx codes.

  A handler's effect on the `http.ResponseWriter` is the library call it makes,
  recorded as a `Response`; how the library renders that call into bytes on the
  wire is not modelled. `http.StatusText` is left uninterpreted: every member
  that needs it takes it as the parameter `statusText`.
*/
module StatusResponder {
  import opened Base
  import opened GoStrings

  /** `http.StatusInternalServerError`. */
  const StatusInternalServerError := 500

  /** What `Error` tells the client instead of the error it was given. */
  const MaskedMessage := "The server was unable to complete your request. Please try again later."

  /** How many bytes of the detail the error value of `Err` keeps. */
  const DetailLength := 20

  /** The library call a handler makes on the response writer. */
  datatype Response =
    | HttpError(code: int, message: string)                          // http.Error(w, message, code)
    | Redirect(code: int, url: string)                               // http.Redirect(w, r, url, code)
    | Plain(code: int, body: string)                                 // w.WriteHeader(code); io.WriteString(w, body)
    | JsonCompleted(resourceId: string, bytesWritten: int, timeElapsed: string)  // json.NewEncoder(w).Encode(completed{...})
    | Copied(content: seq<byte>)                                     // io.Copy(w, rc)
    | Untouched                                                      // nothing written

  /** The status code the handler hands to the library (`WriteHeader`'s argument), or 200 when it sets none. */
  function StatusOf(r: Response): int
  {
    match r
    case HttpError(code, _) => code
    case Redirect(code, _) => code
    case Plain(code, _) => code
    case _ => 200
  }

  /** `statusHandler`: a code and its string. */
  datatype StatusHandler = StatusHandler(code: int, s: string)

  /** `Err` slices `s[:20]`, which panics on a shorter string once the code is an error code. */
  predicate ErrDefined(sh: StatusHandler)
  {
    sh.code < 400 || |sh.s| >= DetailLength
  }

  /** The error value of `Err`: its code, the status text and the detail it reports. */
  datatype StatusError = StatusError(code: int, text: string, detail: string)

  /** The text of the error, as `fmt.Errorf("%d %s: %s", ...)` renders it. */
  function Message(e: StatusError): (r: string)
    ensures |r| >= |e.detail| + 4
    ensures r[|r| - |e.detail|..] == e.detail
  {
    FormatInt(e.code) + " " + e.text + ": " + e.detail
  }

  /** `statusHandler.Err`: no error below 400, otherwise the code, its status text and the first 20 bytes of `s`. */
  function Err(sh: StatusHandler, statusText: int -> string): (r: Option<StatusError>)
    requires ErrDefined(sh)
    ensures r == None <==> sh.code < 400
    ensures r.Some? ==> && r.value.code == sh.code
                        && r.value.text == statusText(sh.code)
                        && |r.value.detail| == DetailLength
                        && HasPrefix(sh.s, r.value.detail)
  {
    if sh.code < 400 then None
    else Some(StatusError(sh.code, statusText(sh.code), sh.s[..DetailLength]))
  }

  /** `statusHandler.ServeHTTP`: an error page, a redirect to `s`, or the plain status text. */
  function ServeHTTP(sh: StatusHandler, statusText: int -> string): (r: Response)
    requires ErrDefined(sh)
    ensures StatusOf(r) == sh.code
    ensures sh.code >= 400 ==> r == HttpError(sh.code, statusText(sh.code))
    ensures 300 <= sh.code < 400 ==> r == Redirect(sh.code, sh.s)
    ensures sh.code < 300 ==> r == Plain(sh.code, statusText(sh.code))
  {
    match Err(sh, statusText)
    case Some(_) => HttpError(sh.code, statusText(sh.code))
    case None =>
      if sh.code > 299 && sh.code < 400 then Redirect(sh.code, sh.s)
      else Plain(sh.code, statusText(sh.code))
  }

  /** `Error`: whatever went wrong, the client sees a 500 with the same masked message. */
  function Error<E>(err: E): (r: Response)
    ensures StatusOf(r) == StatusInternalServerError
    ensures r.HttpError? && r.message == MaskedMessage
  {
    HttpError(StatusInternalServerError, MaskedMessage)
  }

  // ---- properties ----

  /**
    The error text starts with the decimal code, which reads back as the code,
    and ends with exactly the 20-byte detail.
  */
  lemma ErrMessageShape(sh: StatusHandler, statusText: int -> string)
    requires ErrDefined(sh) && sh.code >= 400
    ensures var m := Message(Err(sh, statusText).value);
      var digits := FormatNat(sh.code);
      && m[..|digits|] == digits
      && ParseNat(m[..|digits|]) == sh.code
      && m[|digits|] == ' '
      && m[|m| - DetailLength..] == sh.s[..DetailLength]
  {
    var e := Err(sh, statusText).value;
    var digits := FormatNat(sh.code);
    var m := Message(e);
    assert m == digits + (" " + e.text + ": " + e.detail);
    assert m[..|digits|] == digits;
    ParseFormatNat(sh.code);
  }

  /** The string of a status handler reaches the client only as a redirect target. */
  lemma DetailOnlyInRedirect(sh: StatusHandler, s2: string, statusText: int -> string)
    requires ErrDefined(sh) && ErrDefined(sh.(s := s2))
    ensures ServeHTTP(sh, statusText) == ServeHTTP(sh.(s := s2), statusText)
            <==> (!(300 <= sh.code < 400) || sh.s == s2)
  {
  }

  /** `Error` ignores its argument. */
  lemma ErrorIgnoresCause<E>(e1: E, e2: E)
    ensures Error(e1) == Error(e2)
  {
  }

  /** The readiness route answers 200 with the status text of 200. */
  lemma ReadyResponds(statusText: int -> string)
    ensures ServeHTTP(StatusHandler(200, ""), statusText) == Plain(200, statusText(200))
  {
  }
}
