/**
 * `HTTPServer`'s request-to-response logic: `__parse_request` classifies the
 * first request line, `__process_request` walks the ordered decision chain
 * over the file system, and `__read_file` loads the file to serve. The
 * sockets, the worker pool and the wall clock are outside this model: the
 * file system, the working directory, the type guesser and the date are
 * parameters.
 */
module HttpServer {
  import opened Wrappers
  import opened Text
  import opened Url
  import opened PosixPath
  import opened RequestLine
  import opened HttpResponse

  /** An entry of the file system: a regular file with its bytes, or a directory; `readable` is `os.access(path, os.R_OK)`. */
  datatype Node = File(content: seq<byte>, readable: bool) | Dir(readable: bool)

  /** Entries keyed by their canonical absolute path: `/` followed by the names along the way. */
  type FileSystem = map<string, Node>

  /**
   * What the handler reads from its surroundings: the file system, the
   * process's working directory (`os.getcwd()`), and `mimetypes.guess_type(path)[0]`.
   */
  datatype Env = Env(fs: FileSystem, cwd: string, guessType: string -> Option<string>)

  /**
   * Why no response is sent at all: a request holding only line breaks
   * (`request[0]` raises IndexError), or `open` failing on a directory's
   * index file that is unreadable or itself a directory. Either exception
   * ends the worker task silently.
   */
  datatype Fault = NoRequestLine | OpenFailed

  /**
   * The entry a relative or absolute path names, as `os.path.exists`,
   * `os.path.isdir` and `os.access` see it. The empty path names nothing
   * (`stat("")` fails), nor does a path holding NUL (`os.path.exists`
   * catches the ValueError).
   */
  function Lookup(env: Env, path: string): (r: Option<Node>)
    ensures r.Some? ==> path != "" && '\0' !in path && Resolved(Abspath(env.cwd, path)) in env.fs
    ensures path != "" && '\0' !in path && Resolved(Abspath(env.cwd, path)) in env.fs ==>
      r == Some(env.fs[Resolved(Abspath(env.cwd, path))])
  {
    if path == "" || '\0' in path then None
    else
      var full := Resolved(Abspath(env.cwd, path));
      if full in env.fs then Some(env.fs[full]) else None
  }

  /**
   * The entry the kernel reaches for a normalised absolute path. `normpath`
   * keeps exactly two leading slashes, which POSIX leaves to the
   * implementation; Linux reads them as one, so `//etc/passwd` is the
   * file `/etc/passwd`.
   */
  function Resolved(full: string): (r: string)
    ensures StartsWith(full, "/") && !StartsWith(full, "///") ==> StartsWith(r, "/") && !StartsWith(r, "//")
    ensures StartsWith(full, "//") ==> "/" + r == full
    ensures !StartsWith(full, "//") ==> r == full
  {
    if StartsWith(full, "//") then full[1..] else full
  }

  /** A canonical absolute path is its own resolution. */
  lemma ResolvedCanonical(cs: seq<string>)
    requires AllPlain(cs)
    ensures Resolved("/" + JoinWith(cs, "/")) == "/" + JoinWith(cs, "/")
  {
    if cs != [] {
      JoinPlainHead(cs);
      assert ("/" + JoinWith(cs, "/"))[1] == JoinWith(cs, "/")[0];
    }
  }

  /** `os.path.abspath(os.path.curdir)`. */
  function Root(env: Env): string
  {
    Abspath(env.cwd, ".")
  }

  /** The containment test as written: a plain string-prefix test of the two absolute paths. */
  predicate InsideRoot(env: Env, path: string)
  {
    StartsWith(Abspath(env.cwd, path), Root(env))
  }

  /** What `__read_file` returns: the bytes read and the guessed type. */
  datatype FileData = FileData(data: seq<byte>, mimeType: Option<string>)

  /** `__read_file(path)`: `open(path, 'rb')` succeeds only on a readable regular file. */
  function ReadFile(env: Env, path: string): (r: Result<FileData, Fault>)
    ensures r.Ok? <==> Lookup(env, path).Some? && Lookup(env, path).value.File? && Lookup(env, path).value.readable
    ensures r.Ok? ==> r.value == FileData(Lookup(env, path).value.content, env.guessType(path))
  {
    match Lookup(env, path)
    case Some(File(content, true)) => Ok(FileData(content, env.guessType(path)))
    case _ => Err(OpenFailed)
  }

  /** `HTTPResponse(request=..., code=OK, **self.__read_file(...))`. */
  function Served(request: Method, file: Result<FileData, Fault>): Result<Reply, Fault>
  {
    match file
    case Ok(f) => Ok(Reply(OK, Some(request), Some(f.data), Some(f.mimeType)))
    case Err(e) => Err(e)
  }

  /** The directory index name, built by plain concatenation. */
  function IndexFile(path: string): string
  {
    path + "index.html"
  }

  /**
   * What `__process_request` learns about the requested path: the entry it
   * names, whether it passes the containment test, and the entry its index
   * name names.
   */
  datatype Probe = Probe(entry: Option<Node>, inside: bool, index: Option<Node>)

  function ProbeOf(env: Env, path: string): Probe
  {
    Probe(Lookup(env, path), InsideRoot(env, path), Lookup(env, IndexFile(path)))
  }

  /**
   * The decision chain of `__process_request` on what it learnt: existence
   * first (404), then containment and readability (403), then the directory
   * rule (its index file or 404), then the file itself. `file` and
   * `indexFile` are what reading the path and its index name would give.
   */
  function Decide(request: Method, probe: Probe, file: Result<FileData, Fault>, indexFile: Result<FileData, Fault>): Result<Reply, Fault>
  {
    match probe.entry
    case None => Ok(Status(NOT_FOUND))
    case Some(node) =>
      if !probe.inside || !node.readable then Ok(Status(FORBIDDEN))
      else if node.Dir? then
        if probe.index.Some? then Served(request, indexFile) else Ok(Status(NOT_FOUND))
      else Served(request, file)
  }

  /** `__process_request(path, request)`. */
  function ProcessRequest(env: Env, request: Method, path: string): Result<Reply, Fault>
  {
    Decide(request, ProbeOf(env, path), ReadFile(env, path), ReadFile(env, IndexFile(path)))
  }

  /** What the first request line asks for, once matched and decoded. */
  datatype Request = Malformed | NotAllowed(requestType: string) | Fetch(request: Method, path: string)

  /** The file path a matched target names: its query dropped, then percent-decoded. */
  function TargetPath(url: string): string
    requires AllUrlChars(url)
  {
    Unquote(UrlPath(url))
  }

  /** The part of `__parse_request` that looks at the first line. */
  function ParseLine(line: string): Request
  {
    match Match(line)
    case None => Malformed
    case Some(RequestLine(requestType, url)) =>
      if requestType == "GET" then Fetch(GET, TargetPath(url))
      else if requestType == "HEAD" then Fetch(HEAD, TargetPath(url))
      else NotAllowed(requestType)
  }

  /** `[s for s in request.split('\r\n') if s]`. */
  function RequestLines(request: string): seq<string>
  {
    NonEmpty(SplitOn(request, CRLF))
  }

  /** `__parse_request`: an unmatched line is answered 403, a matched line with another method 405. */
  function ParseRequest(env: Env, request: string): Result<Reply, Fault>
  {
    var lines := RequestLines(request);
    if |lines| == 0 then Err(NoRequestLine)
    else
      match ParseLine(lines[0])
      case Malformed => Ok(Status(FORBIDDEN))
      case NotAllowed(_) => Ok(Status(NOT_ALLOWED))
      case Fetch(m, path) => ProcessRequest(env, m, path)
  }

  /** The bytes sent back for one request (`__create_response`), or None when the worker gives up. */
  function Exchange(env: Env, date: string, request: string): Option<Wire>
  {
    match ParseRequest(env, request)
    case Err(_) => None
    case Ok(reply) => Response(reply, date)
  }

  // ---------------------------------------------------------------------
  // The first line against the declarative request-line pattern.
  // ---------------------------------------------------------------------

  /** A line is malformed exactly when no method and target make it fit the pattern. */
  lemma MalformedIff(line: string)
    ensures ParseLine(line) == Malformed <==> forall requestType, url :: !Matches(line, requestType, url)
  {
    if ParseLine(line) == Malformed {
      forall requestType, url ensures !Matches(line, requestType, url) {
        if Matches(line, requestType, url) {
          MatchComplete(line, requestType, url);
        }
      }
    }
  }

  /** A line is refused with 405 exactly when it fits the pattern with a method other than GET and HEAD (the empty one included). */
  lemma NotAllowedIff(line: string, requestType: string)
    ensures ParseLine(line) == NotAllowed(requestType) <==>
      requestType != "GET" && requestType != "HEAD" && exists url :: Matches(line, requestType, url)
  {
    if exists url :: Matches(line, requestType, url) {
      var url :| Matches(line, requestType, url);
      MatchComplete(line, requestType, url);
    }
  }

  /** A GET or HEAD line asks for the percent-decoded target path without its query. */
  lemma FetchIff(line: string, m: Method, path: string)
    ensures ParseLine(line) == Fetch(m, path) <==>
      exists url :: Matches(line, MethodName(m), url) && path == TargetPath(url)
  {
    if exists url :: Matches(line, MethodName(m), url) && path == TargetPath(url) {
      var url :| Matches(line, MethodName(m), url) && path == TargetPath(url);
      MatchComplete(line, MethodName(m), url);
    }
  }

  // ---------------------------------------------------------------------
  // The decision chain of `__process_request`.
  // ---------------------------------------------------------------------

  /** An existing, readable entry that passes the containment test. */
  predicate Admitted(probe: Probe)
  {
    probe.entry.Some? && probe.inside && probe.entry.value.readable
  }

  /**
   * The outcome of each branch, stated as conditions on what was learnt:
   * 404 for a missing entry (whatever the containment test would say) or a
   * directory without index, 403 for an entry outside the root or
   * unreadable, no response when the index cannot be opened, and 200 for a
   * readable file or a directory whose index can be read.
   */
  lemma DecideOutcomes(m: Method, probe: Probe, file: Result<FileData, Fault>, indexFile: Result<FileData, Fault>)
    ensures var r := Decide(m, probe, file, indexFile);
      && (r == Ok(Status(NOT_FOUND)) <==>
            probe.entry.None? || (Admitted(probe) && probe.entry.value.Dir? && probe.index.None?))
      && (r == Ok(Status(FORBIDDEN)) <==> probe.entry.Some? && !Admitted(probe))
      && (r.Err? <==>
            Admitted(probe) && (if probe.entry.value.Dir? then probe.index.Some? && indexFile.Err? else file.Err?))
      && (r.Ok? && r.value.code == OK <==>
            Admitted(probe) && (if probe.entry.value.Dir? then probe.index.Some? && indexFile.Ok? else file.Ok?))
  {
  }

  /** The same outcomes on the file system itself. */
  lemma ProcessRequestOutcomes(env: Env, m: Method, path: string)
    ensures var r := ProcessRequest(env, m, path);
      var probe, index := ProbeOf(env, path), IndexFile(path);
      && (r == Ok(Status(NOT_FOUND)) <==>
            probe.entry.None? || (Admitted(probe) && probe.entry.value.Dir? && probe.index.None?))
      && (r == Ok(Status(FORBIDDEN)) <==> probe.entry.Some? && !Admitted(probe))
      && (r.Err? <==>
            Admitted(probe) && probe.entry.value.Dir? && probe.index.Some? && ReadFile(env, index).Err?)
      && (r.Ok? && r.value.code == OK <==>
            Admitted(probe) && (probe.entry.value.File? || ReadFile(env, index).Ok?))
  {
    var probe := ProbeOf(env, path);
    DecideOutcomes(m, probe, ReadFile(env, path), ReadFile(env, IndexFile(path)));
    if Admitted(probe) && probe.entry.value.File? {
      assert ReadFile(env, path).Ok?;
    }
    if Admitted(probe) && probe.entry.value.Dir? && ReadFile(env, IndexFile(path)).Ok? {
      assert probe.index.Some?;
    }
  }

  /** A readable regular file inside the root is served with its exact bytes and its guessed type. */
  lemma ServesFile(env: Env, m: Method, path: string, content: seq<byte>)
    requires Lookup(env, path) == Some(File(content, true)) && InsideRoot(env, path)
    ensures ProcessRequest(env, m, path) == Ok(Reply(OK, Some(m), Some(content), Some(env.guessType(path))))
  {
    assert ReadFile(env, path) == Ok(FileData(content, env.guessType(path)));
  }

  /** A readable directory inside the root is served through `path + "index.html"`. */
  lemma ServesIndex(env: Env, m: Method, path: string, content: seq<byte>)
    requires Lookup(env, path) == Some(Dir(true)) && InsideRoot(env, path)
    requires Lookup(env, IndexFile(path)) == Some(File(content, true))
    ensures ProcessRequest(env, m, path) ==
      Ok(Reply(OK, Some(m), Some(content), Some(env.guessType(path + "index.html"))))
  {
    assert ReadFile(env, IndexFile(path)) == Ok(FileData(content, env.guessType(IndexFile(path))));
  }

  /** A readable directory inside the root whose index name names nothing is answered 404. */
  lemma MissingIndexNotFound(env: Env, m: Method, path: string)
    requires Lookup(env, path) == Some(Dir(true)) && InsideRoot(env, path)
    requires Lookup(env, IndexFile(path)) == None
    ensures ProcessRequest(env, m, path) == Ok(Status(NOT_FOUND))
  {
  }

  /** The reply shapes `__process_request` can build. */
  predicate WellFormedReply(reply: Reply)
  {
    && reply.code in ReplyValues && reply.code != BAD_REQUEST
    && (reply.code == OK ==> reply.request.Some? && reply.data.Some? && reply.mimeType.Some?)
    && (reply.code != OK ==> reply == Status(reply.code))
  }

  lemma DecideWellFormed(m: Method, probe: Probe, file: Result<FileData, Fault>, indexFile: Result<FileData, Fault>)
    ensures Decide(m, probe, file, indexFile).Ok? ==> WellFormedReply(Decide(m, probe, file, indexFile).value)
  {
  }

  lemma ProcessRepliesWellFormed(env: Env, m: Method, path: string)
    ensures ProcessRequest(env, m, path).Ok? ==> WellFormedReply(ProcessRequest(env, m, path).value)
  {
    DecideWellFormed(m, ProbeOf(env, path), ReadFile(env, path), ReadFile(env, IndexFile(path)));
  }

  /**
   * Every reply the handler builds has a reason phrase (so 400 is never
   * sent); a 200 carries the request, the data and a type key, and any other
   * reply carries its code alone. A response is sent exactly when parsing
   * and processing raised nothing.
   */
  lemma RepliesAreKnown(env: Env, date: string, request: string)
    ensures ParseRequest(env, request).Ok? ==> WellFormedReply(ParseRequest(env, request).value)
    ensures Exchange(env, date, request).Some? <==> ParseRequest(env, request).Ok?
  {
    var lines := RequestLines(request);
    if |lines| > 0 {
      match ParseLine(lines[0])
      case Malformed =>
      case NotAllowed(_) =>
      case Fetch(m, path) => ProcessRepliesWellFormed(env, m, path);
    }
  }

  // ---------------------------------------------------------------------
  // Whole exchanges.
  // ---------------------------------------------------------------------

  /** The request line a client writes for `path`: the escaped target and version 1.1. */
  function WrittenLine(m: Method, path: string): string
    requires forall k :: 0 <= k < |path| ==> IsAsciiChar(path[k])
  {
    MethodName(m) + " /" + Quote(path) + " HTTP/" + "1.1"
  }

  /** A request a client writes for `path`: its request line, then any further headers. */
  function RequestText(m: Method, path: string, headers: string): string
    requires forall k :: 0 <= k < |path| ==> IsAsciiChar(path[k])
  {
    WrittenLine(m, path) + CRLF + headers
  }

  /** Both method names are upper-case words. */
  lemma MethodNameUpper(m: Method)
    ensures forall k :: 0 <= k < |MethodName(m)| ==> IsUpper(MethodName(m)[k])
  {
  }

  /** The written request line matches with the method and the escaped path as its groups. */
  lemma WrittenLineMatches(m: Method, path: string)
    requires forall k :: 0 <= k < |path| ==> IsAsciiChar(path[k])
    ensures AllUrlChars(Quote(path))
    ensures Match(WrittenLine(m, path)) == Some(RequestLine(MethodName(m), Quote(path)))
  {
    QuoteIsTarget(path);
    MethodNameUpper(m);
    var line := WrittenLine(m, path);
    assert line == MethodName(m) + " /" + Quote(path) + " HTTP/" + "1.1";
    MatchWritten(MethodName(m), Quote(path), "1.1");
  }

  /** An escaped path is its own target path, and decoding it gives the path back. */
  lemma TargetPathOfQuote(path: string)
    requires forall k :: 0 <= k < |path| ==> IsAsciiChar(path[k])
    ensures AllUrlChars(Quote(path)) && TargetPath(Quote(path)) == path
  {
    var url := Quote(path);
    QuoteIsTarget(path);
    assert !StartsWith(url, "//") by {
      if |url| >= 2 { assert url[..2][0] == url[0]; }
    }
    QueryStripped(url, "");
    UnquoteQuote(path);
  }

  /** The written request line asks for `path` itself, with the method written. */
  lemma WrittenLineParses(m: Method, path: string)
    requires forall k :: 0 <= k < |path| ==> IsAsciiChar(path[k])
    ensures ParseLine(WrittenLine(m, path)) == Fetch(m, path)
  {
    WrittenLineMatches(m, path);
    TargetPathOfQuote(path);
  }

  lemma WrittenLineHasNoCR(m: Method, path: string)
    requires forall k :: 0 <= k < |path| ==> IsAsciiChar(path[k])
    ensures '\r' !in WrittenLine(m, path)
  {
    QuoteIsTarget(path);
    assert '\r' !in MethodName(m);
  }

  /** The first request line is what precedes the first CRLF, when it is not empty. */
  lemma FirstRequestLine(line: string, headers: string)
    requires line != "" && '\r' !in line
    ensures RequestLines(line + CRLF + headers) != [] && RequestLines(line + CRLF + headers)[0] == line
  {
    RequestLinesCons(line, headers);
  }

  /** A line that is not empty and holds no carriage return is one request line. */
  lemma RequestLinesCons(line: string, rest: string)
    requires line != "" && '\r' !in line
    ensures RequestLines(line + CRLF + rest) == [line] + RequestLines(rest)
  {
    SplitFirst(line, CRLF, rest);
    var parts := SplitOn(rest, CRLF);
    assert ([line] + parts)[0] == line && ([line] + parts)[1..] == parts;
  }

  /** Empty lines are skipped. */
  lemma RequestLinesBreak(rest: string)
    ensures RequestLines(CRLF + rest) == RequestLines(rest)
  {
    SplitLeadingSeparator(rest, CRLF);
    var parts := SplitOn(rest, CRLF);
    assert ([""] + parts)[0] == "" && ([""] + parts)[1..] == parts;
  }

  lemma RequestLinesEmpty()
    ensures RequestLines("") == []
  {
    assert |CRLF| == 2;
    assert IndexOf("", CRLF) == 0;
    assert SplitOn("", CRLF) == [""];
    assert [""][1..] == [];
  }

  /** Such a request reaches `__process_request` with the path and the method written. */
  lemma RequestTextParses(env: Env, m: Method, path: string, headers: string)
    requires forall k :: 0 <= k < |path| ==> IsAsciiChar(path[k])
    ensures ParseRequest(env, RequestText(m, path, headers)) == ProcessRequest(env, m, path)
  {
    WrittenLineHasNoCR(m, path);
    FirstRequestLine(WrittenLine(m, path), headers);
    WrittenLineParses(m, path);
  }

  /**
   * A request for a readable file inside the root is answered 200 with the
   * file's bytes as the body of a GET and no body for a HEAD, their count as
   * Content-Length and the guessed type as Content-Type.
   */
  lemma ServesFileOnTheWire(env: Env, date: string, m: Method, path: string, headers: string, content: seq<byte>)
    requires forall k :: 0 <= k < |path| ==> IsAsciiChar(path[k])
    requires Lookup(env, path) == Some(File(content, true)) && InsideRoot(env, path)
    requires NoCR(date) && NoCR(MimeText(env.guessType(path)))
    ensures var w := Exchange(env, date, RequestText(m, path, headers));
      && w.Some?
      && SplitOn(w.value.head, CRLF)[0] == "HTTP/1.1 200 OK"
      && HeaderField(w.value.head, "Content-Length") == Some(NatToString(|content|))
      && HeaderField(w.value.head, "Content-Type") == Some(MimeText(env.guessType(path)))
      && w.value.body == (if m == GET then content else [])
  {
    ExchangeOfServedFile(env, date, m, path, headers, content);
    FileResponse(m, content, env.guessType(path), date);
  }

  /** The exchange for a readable file inside the root writes the 200 reply `__process_request` builds. */
  lemma ExchangeOfServedFile(env: Env, date: string, m: Method, path: string, headers: string, content: seq<byte>)
    requires forall k :: 0 <= k < |path| ==> IsAsciiChar(path[k])
    requires Lookup(env, path) == Some(File(content, true)) && InsideRoot(env, path)
    ensures Exchange(env, date, RequestText(m, path, headers)) ==
      Response(Reply(OK, Some(m), Some(content), Some(env.guessType(path))), date)
  {
    RequestTextParses(env, m, path, headers);
    ServesFile(env, m, path, content);
  }
}
