# blob gateway core, in Dafny

A model of the request-handling core of the `blob` storage gateway, with
proofs of what that core promises. The gateway is an HTTP front end that
streams uploads into an S3 bucket and streams blobs back out again. The
model covers five pieces:

- **Route-pattern parser** (`HttpUtil`, in `httputil.dfy`). It splits
  `[METHOD] [HOST]/[PATH]` into its parts. It checks that the method is an
  HTTP token (section 3.2.6 of RFC 7230). When a method other than
  CONNECT is given, it refuses a path that is not canonical; a pattern
  without a method, or with CONNECT, keeps its path as written. It computes that canonical path
  with `cleanPath`, which sits on top of Go's `path.Clean`.
  - Go's `path.Clean` and `path.Join` are modelled one '/'-separated element
    at a time in `GoPath` (`gopath.dfy`).
  - The few `strings`/`strconv` functions the code calls are in `GoStrings`
    (`gostrings.dfy`).
- **Status responder** (`StatusResponder`, in `statusresponder.dfy`).
  `statusHandler` pairs a status code with a string:
  - below 300 it answers with the status text;
  - from 300 to 399 it redirects to the string;
  - from 400 up it answers with an error page, and its `Err` keeps the first
    20 bytes of the string.

  The module also holds `Error`, which always answers 500 with one fixed
  masked message.
- **Upload and download handlers** (`CloudStorage`, in `cloudstorage.dfy`).
  Each run of a handler is a trace of events: the collaborator calls it
  makes, the one response it writes, and the deferred `Close`.
- **Blob key derivation** (`BlobDownload`, in `blobdownload.dfy`). A blob's
  object key is `_blob/xx/yy/<28 digits>`, built from the 32 hexadecimal
  digits of its UUID. UUIDs and their text form are in `Uuids`
  (`uuids.dfy`). The download manager's configuration and the
  `GetObjectInput` it sends are in `blobdownload.dfy`.
- **Counting reader** (`CountReader`, in `countreader.dfy`). It passes reads
  through unchanged and adds each read's positive byte count to a 64-bit
  counter that wraps around.

`http.StatusText`, `uuid.Parse`, multipart decoding, the uploader, the
downloader and the clock are not modelled. Their outcomes enter as
parameters: `statusText`, `id: Option<Uuid>`, `nextPart`, `upload`,
`download` and `elapsed`.

Where the parser reports an error, it records the byte offset together with
the reason. Once the pattern has a blank, the offset counts from
`len(method)+1`, even when the method is empty or more than one blank
follows it. The model keeps that arithmetic as written.
`HostBraceOffsetExact` states exactly when the reported offset does point at
the offending '{'.

## Model

| member | source | states |
|---|---|---|
| HttpUtil.ValidMethod | internal/net/http/httputil/pattern.go:75-94 | a method is valid exactly when it is non-empty and every byte is a token character |
| HttpUtil.TokenChars | internal/net/http/httputil/pattern.go:92-94 | the token characters are exactly the visible ASCII characters that are not separators (RFC 7230 tchar) |
| HttpUtil.ValidMethodNoBlank | internal/net/http/httputil/pattern.go:41-50 | a valid method contains no space or tab, so it cannot swallow the separator |
| HttpUtil.IndexNotToken | internal/net/http/httputil/pattern.go:89-94 | -1 exactly when every byte of the method is a token character; otherwise the position of a byte that is not |
| HttpUtil.SplitMethod | internal/net/http/httputil/pattern.go:40-47 | without a blank there is no method and the rest is the whole pattern (SplitMethodSpec gives the full split) |
| HttpUtil.SplitMethodSpec | internal/net/http/httputil/pattern.go:40-47 | there is no method exactly when the pattern has no blank; otherwise the method is everything before the first blank and the rest is what follows once the leading blanks are trimmed |
| HttpUtil.SplitMethodOf | internal/net/http/httputil/pattern.go:40-54 | the first stage recovers the method, the rest and the offset from any string spelled in the grammar |
| HttpUtil.ParseSound | internal/net/http/httputil/pattern.go:29-73 | every accepted pattern is in the grammar: a valid or absent method, a host with no '/' or '{', a rooted path that is canonical unless the method is absent or CONNECT, and together they spell the input |
| HttpUtil.ParseComplete | internal/net/http/httputil/pattern.go:29-73 | every string of that grammar is accepted, and parsed into exactly the parts it spells |
| HttpUtil.ParseCanonical | internal/net/http/httputil/pattern.go:40-60 | every parsed pattern is well shaped and its host never starts with a blank |
| HttpUtil.ParseFormat | internal/net/http/httputil/pattern.go:29-73 | writing a canonical pattern out with one space and parsing it gives the same pattern back |
| HttpUtil.ParseStable | internal/net/http/httputil/pattern.go:29-73 | a parsed pattern, written out and parsed again, is unchanged |
| HttpUtil.ParsePattern | internal/net/http/httputil/pattern.go:30-32 | the result is the empty-pattern error exactly when the input is empty |
| HttpUtil.ParseSplit | internal/net/http/httputil/pattern.go:48-54 | an invalid-method error occurs exactly when the method is non-empty and not a token; every error carries an offset; an accepted pattern keeps the method |
| HttpUtil.ParseHostPath | internal/net/http/httputil/pattern.go:52-72 | the second stage keeps the method it was given, and every error it reports carries an offset no smaller than where it started |
| HttpUtil.HostPathSound | internal/net/http/httputil/pattern.go:55-72 | what the second stage accepts is well shaped and splits its input into host and path |
| HttpUtil.ParseInvalidMethod | internal/net/http/httputil/pattern.go:41-50 | a pattern fails with an invalid-method error at offset 0 if and only if the text before its first blank is non-empty and not a token |
| HttpUtil.SlashMethodRejected | internal/net/http/httputil/pattern.go:41-50 | "/a b" is read as method "/a" and is rejected at offset 0 |
| HttpUtil.ParseMissingSlash | internal/net/http/httputil/pattern.go:52-58 | a pattern without '/' is always rejected; a missing-slash error is reported just past the first blank, or at 0 when there is none |
| HttpUtil.ParseHostBrace | internal/net/http/httputil/pattern.go:52-64 | a '{' in the host is reported at the position of the first '{' within the host, plus the length of the method (which may be empty) plus one when the pattern has a blank, or plus nothing when it has none |
| HttpUtil.HostBraceOffsetExact | internal/net/http/httputil/pattern.go:52-64 | that offset points at the '{' in the input exactly when the pattern has no blank, or a single blank follows the method (which may be empty) |
| HttpUtil.ParseUncleanPath | internal/net/http/httputil/pattern.go:66-70 | a method other than CONNECT with a path that cleanPath changes is rejected at the method length plus one |
| HttpUtil.ParseConnect | internal/net/http/httputil/pattern.go:66-72 | a CONNECT pattern is accepted whatever its path |
| HttpUtil.CleanPath | internal/net/http/httputil/pattern.go:96-116 | the result is never empty and always starts with '/' (CleanPathShape gives its exact form) |
| HttpUtil.CleanPathShape | internal/net/http/httputil/pattern.go:96-116 | cleanPath returns "/" and the resolved names joined by '/', with a trailing '/' exactly when the input ends in '/' and names something; the fast path agrees with the general one |
| HttpUtil.CleanPathIdempotent | internal/net/http/httputil/pattern.go:96-116 | cleanPath returns a canonical path: cleaning it again changes nothing |
| HttpUtil.CleanPathTrailingSlash | internal/net/http/httputil/pattern.go:105-114 | the result ends in '/' (and is not the root) if and only if the input ends in '/' and names something below the root |
| HttpUtil.CleanPathSameLocation | internal/net/http/httputil/pattern.go:96-116 | path.Clean of cleanPath's result is the rooted path of the input's resolved names, so only a trailing '/' tells the two apart |
| HttpUtil.CleanPathOfNames | internal/net/http/httputil/pattern.go:96-116 | a rooted path made of plain names is already canonical |
| HttpUtil.ReadyRoute | internal/net/http/handler.go:29 | "GET /ready" parses to method GET, no host, path /ready |
| HttpUtil.UploadRoute | internal/net/http/handler.go:32 | "POST /cloud-storage/files" parses to method POST, no host, path /cloud-storage/files |
| HttpUtil.DownloadRoute | internal/net/http/handler.go:33 | "GET /cloud-storage/files/{file}" parses to method GET, no host, and the wildcard path |
| GoPath.Clean | internal/net/http/httputil/pattern.go:104 | path.Clean never returns "", and its result is rooted exactly when its input is |
| GoPath.CleanIdempotent | internal/net/http/httputil/pattern.go:104 | path.Clean is idempotent: cleaning a cleaned path changes nothing |
| GoPath.Join | internal/os/download.go:21 | path.Join returns "" exactly when every element is empty, and otherwise a path that path.Clean leaves unchanged |
| GoPath.JoinNames | internal/os/download.go:21 | path.Join of plain names is the names joined by '/' |
| GoStrings.IndexByte | internal/net/http/httputil/pattern.go:55-61 | -1 exactly when the byte does not occur; otherwise the position of its first occurrence |
| GoStrings.IndexAny | internal/net/http/httputil/pattern.go:41 | -1 exactly when no byte of the string is in the set; otherwise the position of the first byte that is |
| GoStrings.TrimLeft | internal/net/http/httputil/pattern.go:42 | the result is never longer than the input (TrimLeftSpec gives its exact form) |
| GoStrings.TrimLeftSpec | internal/net/http/httputil/pattern.go:42 | TrimLeft removes exactly the leading run of cutset bytes, and nothing after it |
| GoStrings.TrimLeftUnique | internal/net/http/httputil/pattern.go:42 | only one string satisfies the TrimLeft description, so it determines the result |
| StatusResponder.Err | internal/net/http/errors.go:14-19 | no error below 400; otherwise the error carries the code, its status text and a detail of exactly 20 bytes that is a prefix of the string |
| StatusResponder.Message | internal/net/http/errors.go:18 | the error text ends with the detail, after at least four more bytes (a digit of the code, the blank and ": ") |
| StatusResponder.ErrMessageShape | internal/net/http/errors.go:18 | the error text starts with the decimal code, which reads back as the code, then a space, and ends with the 20-byte detail |
| StatusResponder.ServeHTTP | internal/net/http/errors.go:25-41 | the code handed to the library is the handler's code: an error page with the status text from 400, a redirect to the string from 300 to 399, the plain status text below 300 |
| StatusResponder.DetailOnlyInRedirect | internal/net/http/errors.go:25-41 | replacing the string leaves the response unchanged if and only if the code is not a redirect code or the new string is the same |
| StatusResponder.Error | internal/net/http/errors.go:43-46 | always status 500 with the fixed masked message |
| StatusResponder.ErrorIgnoresCause | internal/net/http/errors.go:43-46 | the response does not depend on the error passed in |
| StatusResponder.ReadyResponds | internal/net/http/handler.go:29 | the readiness handler answers 200 with the status text of 200 |
| CloudStorage.UnprocessableEntity | internal/net/http/handle_cloud_storage.go:25-30 | the 422 handler's string is the decoding-failure prefix followed by the error text |
| CloudStorage.HandleUpload | internal/net/http/handle_cloud_storage.go:37-70 | exactly one response; the uploader is called once with the part exactly when the body is multipart and a part was read; the part is closed once after every call and the close comes last |
| CloudStorage.UploadResponse | internal/net/http/handle_cloud_storage.go:41-68 | 415 when not multipart, 422 when the part cannot be read, the masked 500 when the upload fails, otherwise the id, size and elapsed time of the upload |
| CloudStorage.UploadShortCircuit | internal/net/http/handle_cloud_storage.go:41-50 | before a part has been read the uploader makes no difference to the run |
| CloudStorage.HandleDownload | internal/net/http/handle_cloud_storage.go:82-120 | exactly one response; the downloader is called once exactly when the id parses; the stream is closed once, last, exactly when the download started |
| CloudStorage.DownloadResponse | internal/net/http/handle_cloud_storage.go:88-119 | 400 for a malformed id, the masked 500 when the download fails, otherwise 200 with the content copied if and only if the method is not HEAD, and nothing written for HEAD |
| CloudStorage.DownloadShortCircuit | internal/net/http/handle_cloud_storage.go:88-92 | a malformed id never reaches the downloader |
| CloudStorage.HandlerMessagesLongEnough | internal/net/http/handle_cloud_storage.go:20-30 | every error-code status handler built by the two handlers has at least 20 bytes, so Err cannot fail on them |
| BlobDownload.NewDownloader | internal/os/download.go:41-48 | 16 MiB parts with concurrency 1, for the given bucket |
| BlobDownload.Download | internal/os/download.go:19-39 | the request targets the downloader's bucket, under `_blob/` then the first two hex digits, '/', the next two, '/', the remaining 28; the immediate error is nil |
| GoStrings.ReplaceN | internal/os/download.go:20 | removing at most n copies of a byte shortens the string by at most n, and a string without that byte is unchanged |
| BlobDownload.Digits | internal/os/download.go:20 | removing four '-' leaves at least 32 bytes (DigitsAreHex gives the exact value) |
| BlobDownload.Key | internal/os/download.go:20-21 | the key is `_blob/`, the first two hex digits of the UUID, '/', the next two, '/', and the remaining 28 |
| BlobDownload.DigitsAreHex | internal/os/download.go:20 | removing the first four '-' of the UUID text leaves exactly its 32 hexadecimal digits |
| BlobDownload.KeyShape | internal/os/download.go:20-21 | every key is 40 bytes with exactly three '/', at offsets 5, 8 and 11 |
| BlobDownload.StripKeyRecovers | internal/os/download.go:20-21 | stripping the key's prefix and separators gives back the digits, and hyphenating them gives back the UUID's text form |
| BlobDownload.KeyInjective | internal/os/download.go:20-21 | distinct blobs are stored under distinct keys |
| Uuids.String | internal/os/download.go:20 | the text form is 36 bytes with '-' at offsets 8, 13, 18 and 23 |
| Uuids.FromHexHex | internal/os/download.go:20 | hexadecimal rendering of bytes loses nothing |
| Uuids.StringGroups | internal/os/download.go:20 | the text form is the 32 digits with hyphens after the 8th, 12th, 16th and 20th, and removing them gives the digits back |
| Uuids.StringInjective | internal/os/download.go:20 | distinct UUIDs have distinct text forms |
| CountReader.Read | internal/os/count.go:13-19 | the read's answer is passed on unchanged; a positive count is added to the counter with 64-bit wrap-around; otherwise the counter is unchanged |
| CountReader.ReadAllCount | internal/os/count.go:13-19 | after any sequence of reads the count is the start plus all bytes delivered, modulo 2^64 |
| CountReader.FreshCountExact | internal/os/count.go:13-19 | from zero, as long as fewer than 2^63 bytes have been read, the count is exactly the bytes delivered and never decreases |

## Left out

- The router (`http.ServeMux`), `AcceptHandler` and the server settings in
  handler.go. They are library code and configuration. Only the three
  route strings are checked against the parser.
- handle_upload.go and the uploader itself. They are not part of this
  model. The upload handler takes the uploader's outcome as a parameter.
- The goroutine and `io.Pipe` in `Downloader.Download`, and the S3 SDK. A
  download is modelled as the request it starts and its immediate nil
  error. Errors raised while the object streams are not modelled.
- Concurrency: the atomicity of `atomic.Int64` is not modelled. Reads are
  taken one after another.
- Library rendering: JSON encoding of the upload result, `time.Since`,
  `uuid.Parse`, multipart decoding, `http.StatusText`, and how `http.Error`,
  `http.Redirect` and `WriteHeader` write bytes. A handler's response is the
  library call it makes, with that call's arguments.
- `debug.Printf` calls: logging only.
- The wildcard rules in the parser's doc comment. These are identifier
  names, distinct names, and `{$}`/`{name...}` at the end. `ParsePattern`
  does not check them, so neither does the model.
- StatusResponder.Err: `requires ErrDefined`. A string shorter than 20 bytes
  with an error code makes `sh.s[:20]` in `statusHandler.Err` panic. The model states
  that precondition instead of modelling a panic, and
  `HandlerMessagesLongEnough` shows that the gateway's own handlers meet it.
- StatusResponder.ServeHTTP: the status it states is the code handed to
  `WriteHeader`, `http.Error` or `http.Redirect`. The library's own rules
  for that code are not modelled: `WriteHeader` panics for a code outside
  100-999, and a 1xx code other than 101 is sent as an informational
  header, after which the body's write makes the final status 200. The
  gateway's own handlers use 200, 400, 415, 422 and 500 only.
- HttpUtil.ParsePattern: the error is a reason plus an offset, not the
  formatted text of the error.
- Go strings are byte strings; the model reads each `char` as one byte.
  The searches look for ASCII bytes (blanks, '/', '{', '-') or for a
  non-token. Every non-ASCII byte and every non-ASCII rune is a non-token,
  so byte-wise and rune-wise search find the same first position.
