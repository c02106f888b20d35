# pseudo_http request handling, modelled in Dafny

`httpd.py` is a small static-file HTTP/1.1 server. This project models how it
turns the bytes of one request into the bytes it sends back, and proves what
that transformation promises:

- `HTTPServer.__parse_request` reads the first line of the request. That is the
  first non-empty piece after splitting at CRLF. It matches the line against
  the request-line pattern, drops the query, percent-decodes the path, and
  refuses methods other than GET and HEAD (modules `RequestLine`, `Url` and
  `HttpServer`).
- `HTTPServer.__process_request` follows an ordered decision chain over the
  file system. It checks existence first (404), then the containment test and
  readability (403). Then a directory is served through `path + "index.html"`,
  or 404 if that index is missing. Otherwise the file itself is served
  (module `HttpServer`, path arithmetic in `PosixPath`).
- `HTTPServer.__read_file` returns the bytes of a readable regular file and
  the guessed type.
- `HTTPResponse.create_response` writes the status line with its reason
  phrase from `reply_values`. Then it writes the headers Date, Server, Allow,
  Content-Length and an optional Content-Type, each ended by CRLF. Then it
  writes a blank line and appends the body, for GET only (module
  `HttpResponse`).
  - `CreateResponse` is a method that appends one line at a time, as the
    source does. It is proved against the function `Response`.
- `Exchange` composes the two halves, as `__create_response` does.

The environment is a value:

- The file system is a map from canonical absolute paths (`/` followed by
  the names along the way) to `File(bytes, readable)` or `Dir(readable)`.
  A normalised path that keeps two leading slashes is looked up with one,
  as the Linux kernel resolves it.
- The working directory is a string.
- `mimetypes.guess_type` is a function parameter.
- The formatted date is a string parameter.

The parts of Python's library that the handler depends on are modelled from
their documented behaviour: `str.split`/`join`/`find`/`startswith`, integer
formatting, `urlparse(...).path`, `unquote`, and the POSIX `os.path.join`,
`normpath` and `abspath`. The library's own source is not part of this model.

The model follows the code as written, with these consequences:

- Existence is tested before containment, so a path that escapes the root and
  names nothing is answered 404, not 403.
- A line the pattern rejects is answered 403, and 400 is never sent.
- The target alphabet includes `&`.
- A file whose type cannot be guessed still gets a Content-Type line, holding
  the text `None`.
- A directory named without a trailing slash looks for `<name>index.html`.
- The containment test is a string-prefix test. A sibling directory whose
  name extends the root's last name passes it.
- The target `/` asks for the empty path, which names nothing, so it is
  answered 404.

## Model

| member | source | states |
|---|---|---|
| HttpResponse.Response | httpd.py:28-43 | What `create_response` returns, as a value; its meaning is stated by `CreateResponse`, `HeaderRoundTrip`, `BodyByRequest`, `StatusResponse` and `FileResponse`. |
| HttpResponse.HeadLines | httpd.py:29-35 | The header lines in the order written; `HeadSplitsIntoLines` and `HeaderRoundTrip` state what a reader finds in them. |
| HttpResponse.Body | httpd.py:38-41 | The GET-only body; `BodyByRequest` states it. |
| HttpResponse.CreateResponse | httpd.py:28-43 | Writing the status line, Date, Server, Allow, Content-Length and the optional Content-Type line one at a time, each with CRLF, then the blank line and the GET-only body, gives exactly `Response(reply, date)`. A code with no reason phrase gives no response (the KeyError). |
| HttpResponse.ReplyValuesCodes | httpd.py:18-23 | `reply_values` decides which replies can be written: a response exists exactly for 200, 403, 404 and 405, and a 400 has none. `HttpServer.RepliesAreKnown` (through `WellFormedReply`) and `HeaderRoundTrip` (through `StatusLine`) rely on the same table. |
| HttpResponse.StatusLineOk | httpd.py:29 | The status line of 200 is `HTTP/1.1 200 OK`. |
| HttpResponse.TerminatedAppend | httpd.py:29-36 | Each `+=` of a line and CRLF extends the block of lines already written by exactly that line. |
| HttpResponse.HeadLinesHaveNoCR | httpd.py:29-35 | No header line holds a carriage return when the date and the type hold none. |
| HttpResponse.HeadSplitsIntoLines | httpd.py:29-36 | Splitting the header block at CRLF gives the header lines in the order written: the status line, Date, Server, Allow, Content-Length, then Content-Type last and only when a type key is present, followed by the blank line. |
| HttpResponse.HeaderRoundTrip | httpd.py:29-36 | Read back, the first line is the status line. Date is the date, Server is `pseudo_http`, Allow is `GET, HEAD`, and Content-Length is the decimal of `len(data)` (0 without data), which parses back to that length. Content-Type is present exactly when a type key was given. |
| HttpResponse.FixedFields | httpd.py:30-32 | The Date, Server and Allow fields are found with the values written. |
| HttpResponse.LengthField | httpd.py:33 | The Content-Length field is found with the length written. |
| HttpResponse.TypeField | httpd.py:34-35 | The Content-Type field is found exactly when its line was written, and is absent otherwise. |
| HttpResponse.BodyByRequest | httpd.py:38-41 | The body is the data for a GET, and empty for any other request or none, whatever the code. |
| HttpResponse.StatusResponse | httpd.py:29-41 | A bare status gets its status line, `Content-Length: 0`, `Allow: GET, HEAD`, no Content-Type and no body. |
| HttpResponse.FileResponse | httpd.py:29-41 | A 200 built from a read file gets `HTTP/1.1 200 OK`, the file's byte count as Content-Length, its type as Content-Type, and the file as body for GET only. For HEAD the length is kept and the body is empty. |
| Text.SplitOn | httpd.py:95 | `request.split('\r\n')`; `JoinSplit` and `SplitJoin` state that it inverts the join, `SplitFirst` and `SplitLeadingSeparator` what its pieces are. |
| Text.IndexOf | httpd.py:95 | The index found is the first occurrence of the separator, or the end when there is none. |
| Text.JoinSplit | httpd.py:95 | Joining the pieces of a split at CRLF with CRLF gives the request back. |
| Text.SplitJoin | httpd.py:95 | Splitting a join gives the pieces back when no piece holds the separator's first character. |
| Text.SplitFirst | httpd.py:95 | The first piece of a split is the text before the first separator. |
| Text.SplitLeadingSeparator | httpd.py:95 | A leading separator yields an empty first piece. |
| Text.NonEmpty | httpd.py:95 | The comprehension keeps only non-empty pieces taken from the split, and every non-empty piece is kept. Nothing is kept exactly when every piece is empty, and the first piece kept is the first non-empty piece, the one `request[0]` reads. |
| Text.NatToString | httpd.py:33 | `'{}'.format(n)` is a non-empty string of decimal digits with no leading zero. |
| Text.ParseNatToString | httpd.py:33 | The decimal text of a length parses back to that length. |
| RequestLine.Span | httpd.py:96 | A greedy `[...]*` run takes only class characters and stops at the first character outside the class. |
| RequestLine.Match | httpd.py:96 | When the recogniser matches, the line fits the pattern with the returned method and target. |
| RequestLine.MatchAfterType | httpd.py:96 | After the method and ` /`, a match needs ` HTTP/` and a version character right after the target run, and then fits the pattern. |
| RequestLine.UpperRunOf | httpd.py:96 | In a line that fits the pattern, the upper-case run is exactly the method. |
| RequestLine.UrlRunOf | httpd.py:96 | In a line that fits the pattern, the target run is exactly the target. |
| RequestLine.MatchComplete | httpd.py:96 | Every line that fits the pattern is matched, with those groups, so the groups are unique. |
| RequestLine.MatchesWritten | httpd.py:96 | A line written as method, ` /`, target, ` HTTP/` and a version character fits the pattern. Whatever follows that character is ignored. |
| RequestLine.MatchWritten | httpd.py:96 | The recogniser returns the method and target such a line was written with. |
| Url.NetlocEnd | httpd.py:99 | A target starting with `//` loses its network location, up to the first `/` or `?` after those two characters. |
| Url.UrlPath | httpd.py:99 | The path holds no `?`. It is a prefix of the target when the target does not start with `//`. |
| Url.QueryStripped | httpd.py:99 | `urlparse(url).path` drops exactly the query, and a target without a query is its own path. |
| Url.Unquote | httpd.py:99 | `unquote`: never longer than its input; `UnquoteWithoutPercent`, `UnquoteKeepsPercent`, `UnquoteQuote` and `UnquoteQuoteCase` state what it decodes. |
| Url.UnquoteKeepsPercent | httpd.py:99 | A `%` that does not start a two-digit escape is kept, and decoding goes on from the next character, so `%%41` decodes to `%A`. |
| Url.UnquoteSlash | httpd.py:99 | `%2f` and `%2F` both decode to `/`. |
| Url.UnquoteEscaped | httpd.py:99 | An escaped ASCII character decodes to itself, whatever the case of the escape's digits. |
| Url.UnquoteQuoteCase | httpd.py:99 | `unquote` gives back every path of ASCII characters from its escaped form, with lower-case digits as with upper-case ones. |
| Url.UnquoteWithoutPercent | httpd.py:99 | `unquote` leaves a string without `%` unchanged. |
| Url.QuoteIsTarget | httpd.py:96 | A percent-escaped path uses only characters of the target alphabet and holds no `/`, `?` or CR. |
| Url.UnquoteQuote | httpd.py:99 | `unquote` gives back every path of ASCII characters from its percent-escaped form. |
| PosixPath.InitialSlashes | httpd.py:111 | `normpath` keeps two leading slashes as two, and any other non-zero number as one. |
| PosixPath.Normpath | httpd.py:111 | The normal form is never empty, and a rooted path stays rooted. |
| PosixPath.Join | httpd.py:111 | Joining onto a rooted directory gives a rooted path. |
| PosixPath.Abspath | httpd.py:111 | The absolute form of a path under a rooted working directory is rooted. |
| PosixPath.CollapseRootedPlain | httpd.py:111 | On a rooted path, normalisation leaves only plain components, with no `.`, `..` or empty ones. |
| PosixPath.CollapseOfPlain | httpd.py:111 | Plain components pass through normalisation unchanged. |
| PosixPath.CollapseAppend | httpd.py:111 | Normalising the components of two joined paths is normalising the first, then continuing with the second. |
| PosixPath.NormpathOfShape | httpd.py:111 | A rooted path made of plain components is already normal. |
| PosixPath.NormpathIdempotent | httpd.py:111 | Normalising a rooted path twice is normalising it once. |
| PosixPath.NormpathOfComponents | httpd.py:111 | Normalising a rooted path collapses its components. |
| PosixPath.JoinAppend | httpd.py:111 | Joining two runs of components puts one `/` between them. |
| PosixPath.AbspathUnder | httpd.py:111 | A relative path resolves under the working directory to the collapse of both runs of components. |
| PosixPath.AbspathOfPlain | httpd.py:111 | A relative path of plain components resolves to the working directory followed by those components. |
| PosixPath.AbspathOfCurdir | httpd.py:111 | `abspath(curdir)` is the working directory itself. |
| PosixPath.AbspathOfTrailingSlash | httpd.py:111 | A trailing slash does not change the absolute form. |
| PosixPath.AbspathOfParent | httpd.py:111 | A leading `..` drops the working directory's last component, and at `/` stays at `/`. |
| PosixPath.AbspathAtRoot | httpd.py:111 | At the working directory `/`, a relative path resolves to the collapse of its own components. |
| PosixPath.CollapseParentAtRoot | httpd.py:111 | On a rooted path, a `..` at the root is dropped. |
| PosixPath.CollapseParent | httpd.py:111 | `..` after plain components removes the last of them, and the rest follows. |
| HttpServer.Root | httpd.py:111 | `abspath(curdir)`; `ServerScenarios.RootIsCwd` states that it is the working directory. |
| HttpServer.InsideRoot | httpd.py:111 | The containment test as a string prefix of the absolute forms; `ServerScenarios.ChildInside`, `SiblingPassesContainment` and `ParentEscapeRefused` state where it passes. |
| HttpServer.IndexFile | httpd.py:115 | The raw `path + 'index.html'`; `ServesIndex` and `ServerScenarios.DirectoryWithoutSlashNotFound` state what it names. |
| HttpServer.Decide | httpd.py:107-121 | The decision chain on what was learnt about the path; `DecideOutcomes` states each outcome in both directions. |
| HttpServer.ProcessRequest | httpd.py:107-121 | `__process_request`; `ProcessRequestOutcomes`, `ServesFile`, `ServesIndex` and `ProcessRepliesWellFormed` state its outcomes. |
| HttpServer.RequestLines | httpd.py:95 | `[s for s in request.split('\r\n') if s]`; `Text.NonEmpty` states that its first line is the first non-empty piece, and `FirstRequestLine`, `RequestLinesCons`, `RequestLinesBreak` and `RequestLinesEmpty` what it holds for written requests. |
| HttpServer.TargetPath | httpd.py:99 | `unquote(urlparse(url).path)`; `TargetPathOfQuote` states that it gives an escaped path back. |
| HttpServer.ParseLine | httpd.py:96-101 | The classification of the first line; `MalformedIff`, `NotAllowedIff` and `FetchIff` state each outcome in both directions. |
| HttpServer.ParseRequest | httpd.py:94-105 | `__parse_request`; `RepliesAreKnown` and `RequestTextParses` state its replies, and the scenarios its answers to particular requests. |
| HttpServer.Exchange | httpd.py:80-83 | Parsing, then `create_response`; `RepliesAreKnown` states when it sends anything, `ServesFileOnTheWire` what it sends for a served file. |
| HttpServer.Lookup | httpd.py:108 | An entry is found exactly for a non-empty path without NUL whose resolved absolute form is in the file system, and it is the entry stored there. |
| HttpServer.Resolved | httpd.py:108 | Two leading slashes kept by `normpath` resolve as one; any other path is left as it is. |
| HttpServer.ResolvedCanonical | httpd.py:108 | A canonical absolute path resolves to itself. |
| HttpServer.ReadFile | httpd.py:123-126 | Reading succeeds exactly on a readable regular file, and then gives its bytes and the type guessed for the path. |
| HttpServer.MalformedIff | httpd.py:96-105 | A line is treated as malformed exactly when no method and target make it fit the pattern. |
| HttpServer.NotAllowedIff | httpd.py:96-101 | A line is refused with 405 exactly when it fits the pattern with a method other than GET and HEAD, the empty method included. |
| HttpServer.FetchIff | httpd.py:96-103 | A GET or HEAD line asks for exactly the percent-decoded target without its query. |
| HttpServer.DecideOutcomes | httpd.py:107-121 | Both directions for each outcome. 404 when the entry is missing, whatever the containment test says, or when a directory has no index. 403 when an existing entry is outside the root or unreadable. No response when the index cannot be opened. 200 for a readable file or an openable index. |
| HttpServer.ProcessRequestOutcomes | httpd.py:107-121 | The same four outcomes, stated on the file system, the working directory and the path. |
| HttpServer.ServesFile | httpd.py:107-126 | A readable regular file inside the root is answered 200 with the request, its exact bytes and its guessed type. |
| HttpServer.MissingIndexNotFound | httpd.py:114-119 | A readable directory inside the root whose `path + "index.html"` names nothing is answered 404. |
| HttpServer.ServesIndex | httpd.py:114-117 | A readable directory inside the root whose `path + "index.html"` is a readable file is answered 200 with that file's bytes. |
| HttpServer.DecideWellFormed | httpd.py:107-121 | Every reply of the chain has a reason phrase. A 200 carries the request, the data and a type key, and any other reply is a bare status. |
| HttpServer.ProcessRepliesWellFormed | httpd.py:107-121 | The same shape holds for every reply `__process_request` builds. |
| HttpServer.RepliesAreKnown | httpd.py:94-121 | Every reply has a reason phrase, so 400 is never sent. A response is sent exactly when parsing and processing raise nothing. |
| HttpServer.MethodNameUpper | httpd.py:96 | Both method names are upper-case words. |
| HttpServer.WrittenLineMatches | httpd.py:96 | A request line written with a method and an escaped path is matched, with that method and that escaped path as groups. |
| HttpServer.TargetPathOfQuote | httpd.py:99 | The path decoded from an escaped target is the path that was escaped. |
| HttpServer.WrittenLineParses | httpd.py:96-103 | A written request line asks for its own method and path. |
| HttpServer.WrittenLineHasNoCR | httpd.py:95 | A written request line holds no carriage return. |
| HttpServer.FirstRequestLine | httpd.py:95-96 | The first request line is the text before the first CRLF when it is not empty and holds no CR. |
| HttpServer.RequestLinesCons | httpd.py:95 | A non-empty piece without CR is kept as the next request line. |
| HttpServer.RequestLinesBreak | httpd.py:95 | Empty lines are skipped. |
| HttpServer.RequestLinesEmpty | httpd.py:95 | An empty request holds no request line. |
| HttpServer.RequestTextParses | httpd.py:94-103 | A written request reaches `__process_request` with the method and path written, whatever headers follow. |
| HttpServer.ExchangeOfServedFile | httpd.py:80-83 | A written request for a readable file inside the root is answered with the 200 reply carrying the request, the file's bytes and its guessed type. |
| HttpServer.ServesFileOnTheWire | httpd.py:80-83 | End to end, a request for a readable file inside the root is answered `HTTP/1.1 200 OK`. Content-Length is the file's size and Content-Type its guessed type. The body is the file for GET and empty for HEAD. |
| ServerScenarios.WrittenRootLine | httpd.py:96 | The request line written for the empty path is `GET / HTTP/1.1`. |
| ServerScenarios.RootRequestNotFound | httpd.py:108-109 | `GET / HTTP/1.1` asks for the empty path and is answered 404, whatever the file system holds. |
| ServerScenarios.WordIsMalformed | httpd.py:96 | A line that is only an upper-case word does not fit the pattern. |
| ServerScenarios.MalformedLineForbidden | httpd.py:104-105 | A request whose first line is a bare word such as `GARBAGE` is answered 403, not 400. |
| ServerScenarios.EmptyMethodNotAllowed | httpd.py:100-101 | ` / HTTP/1.1` fits the pattern with the empty method and is answered 405. |
| ServerScenarios.OnlyLineBreaksUnanswered | httpd.py:95-96 | A request of any number of CRLFs and nothing else holds no request line, so `request[0]` fails and no response is sent. |
| ServerScenarios.BreaksHoldNoLine | httpd.py:95 | Splitting any number of CRLFs at CRLF leaves only empty pieces, so no request line is kept. |
| ServerScenarios.BareLineFeedsForbidden | httpd.py:95-105 | `\n\n` is not split at all: it is one request line, which does not fit the pattern, so it is answered 403. |
| ServerScenarios.RootIsCwd | httpd.py:111 | The root the containment test uses is the working directory. |
| ServerScenarios.SiblingPrefix | httpd.py:111 | Under a common parent, the string-prefix test passes exactly when the other first name starts with the root's last name. |
| ServerScenarios.SiblingPassesContainment | httpd.py:111 | `../<root name><suffix>/<file>` passes the containment test, and its readable file is served. |
| ServerScenarios.SiblingInside | httpd.py:111 | `../<root name><suffix>/<file>` resolves into the sibling directory and passes the containment test. |
| ServerScenarios.ParentStep | httpd.py:111 | A leading `..` resolves into the working directory's parent. |
| ServerScenarios.ParentEscapeRefused | httpd.py:108-112 | A path that climbs into a directory not extending the root's name fails the test. It is answered 403 when it names something and 404 otherwise. |
| ServerScenarios.DoubleSlashOutsideRoot | httpd.py:99-112 | A path with two leading slashes, such as the one `/%2F%2Fetc/passwd` decodes to, stays outside a root other than `/`. It is answered 403 when the file exists at the top of the file system and 404 otherwise. |
| ServerScenarios.DoubleSlashPath | httpd.py:108-111 | Such a path is already absolute and normal, and resolves without its first slash. |
| ServerScenarios.LookupAt | httpd.py:108 | A path whose absolute form is canonical finds the entry stored under that form. |
| ServerScenarios.DirectoryPaths | httpd.py:111-115 | Where a directory name, its slash form and their index names resolve. |
| ServerScenarios.ChildInside | httpd.py:111 | A name under the working directory passes the containment test. |
| ServerScenarios.DirectoryLookups | httpd.py:108-115 | What a directory name and its index name find, and that the name passes the containment test. |
| ServerScenarios.SlashDirectoryLookups | httpd.py:108-115 | The same for the name with its trailing slash, whose index name is `<name>/index.html`. |
| ServerScenarios.DirectoryWithoutSlashNotFound | httpd.py:114-119 | A directory named without a slash looks for `<name>index.html` and is answered 404 when that is missing, even if `<name>/index.html` exists. |
| ServerScenarios.DirectoryWithSlashServesIndex | httpd.py:114-117 | A readable directory named with its slash serves its `index.html`. |

## Left out

- Sockets, the worker pool, the accept loop, `serve_forever`, `stop`,
  `__handle_request`, `__send_response` and `main` (httpd.py:47-92,
  129-138) are I/O and concurrency. `Exchange` stands for the composition
  `__create_response` performs, without the send.
- `session.recv(1024)` reads at most 1024 bytes. The model takes the whole
  request text, so longer requests are not truncated.
- `request.decode()` is not modelled. The request is a string, so the
  UnicodeDecodeError on invalid UTF-8 is not modelled.
- `response.encode()` (httpd.py:39, 41) is not modelled. The header block is
  kept as text. Its UTF-8 encoding changes nothing for ASCII text. A
  character outside ASCII in a guessed type would be written as several
  bytes, and the model does not count those bytes.
- `datetime.now().strftime(...)` reads the clock. The formatted date is a
  parameter.
- `mimetypes.guess_type` is a function parameter of the environment, not the
  library's table.
- The file system is lexical. An entry is looked up by the normalised
  absolute path, with two leading slashes read as one. Symbolic links,
  `missing/../x` through a missing directory, and a trailing slash after a
  file name are not modelled as the kernel would resolve them.
- ServerScenarios.DoubleSlashOutsideRoot: stated for a working directory
  other than `/`. At `/` every absolute path passes the containment test,
  and the general outcome is stated by `ProcessRequestOutcomes`.
- Only readability is modelled for `os.access`. Search permission on parent
  directories, and files that change between the checks and the `open`, are
  not.
- Url.Unquote: each `%XX` becomes the character with code XX. The source
  decodes the escaped bytes as UTF-8, replacing invalid sequences, so escapes
  of bytes 0x80 and above are not modelled: a multi-byte sequence becomes one
  character there, and a lone escape such as `%E9` becomes U+FFFD. The
  lemmas that decode an escaped path (`UnquoteQuote` and the whole-exchange
  lemmas) are stated for ASCII paths only, where the two agree.
- Url.UrlPath: only targets made of the pattern's characters are modelled.
  They never hold `:`, `#` or `;`, so the scheme, fragment and params of
  `urlparse` never arise.
- The escaped form used by the whole-exchange lemmas (`Quote`) is a client's
  encoding, not part of the server. It covers paths of ASCII characters.
