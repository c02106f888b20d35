/**
 * `HTTPResponse`: the keyword arguments a response is built from, the reason
 * phrase table, and `create_response`, which writes the status line and the
 * fixed header block and appends the body for GET only.
 */
module HttpResponse {
  import opened Wrappers
  import opened Text

  newtype byte = x: int | 0 <= x < 256

  const OK: int := 200
  const BAD_REQUEST: int := 400
  const FORBIDDEN: int := 403
  const NOT_FOUND: int := 404
  const NOT_ALLOWED: int := 405

  /** `reply_values`: the reason phrase of each status code the server knows how to write. */
  const ReplyValues: map<int, string> :=
    map[OK := "OK", FORBIDDEN := "Forbidden", NOT_FOUND := "Not Found", NOT_ALLOWED := "Method Not Allowed"]

  /** The two request types that reach the file lookup. */
  datatype Method = GET | HEAD

  function MethodName(m: Method): string
  {
    match m
    case GET => "GET"
    case HEAD => "HEAD"
  }

  /**
   * The keyword arguments of an `HTTPResponse`: `code` is always given;
   * `request`, `data` and `type` are keys that may be absent, and a present
   * `type` may hold None (a type `mimetypes` could not guess).
   */
  datatype Reply = Reply(code: int, request: Option<Method>, data: Option<seq<byte>>, mimeType: Option<Option<string>>)

  /** `HTTPResponse(code=c)`: a bare status. */
  function Status(code: int): Reply
  {
    Reply(code, None, None, None)
  }

  /** What is written to the socket: the header block as text, then the body bytes. */
  datatype Wire = Wire(head: string, body: seq<byte>)

  const CRLF: string := "\r\n"

  /** `'{}'.format(t)` for a guessed type: None is written as the text `None`. */
  function MimeText(t: Option<string>): string
  {
    match t
    case Some(s) => s
    case None => "None"
  }

  /** `len(data)` when a `data` key is present, 0 otherwise. */
  function ContentLength(reply: Reply): nat
  {
    match reply.data
    case Some(d) => |d|
    case None => 0
  }

  function StatusLine(code: int): string
    requires code in ReplyValues
  {
    "HTTP/1.1 " + NatToString(code) + " " + ReplyValues[code]
  }

  /** The header lines in the order `create_response` writes them, without their line ends. */
  function HeadLines(reply: Reply, date: string): seq<string>
    requires reply.code in ReplyValues
  {
    [StatusLine(reply.code),
     "Date: " + date,
     "Server: pseudo_http",
     "Allow: GET, HEAD",
     "Content-Length: " + NatToString(ContentLength(reply))]
    + (if reply.mimeType.Some? then ["Content-Type: " + MimeText(reply.mimeType.value)] else [])
  }

  lemma StatusLineOk()
    ensures StatusLine(OK) == "HTTP/1.1 200 OK"
  {
    assert NatToString(2) == "2";
    assert NatToString(20) == "20";
    assert NatToString(200) == "200";
  }

  /** Each line followed by CRLF. */
  function Terminated(lines: seq<string>): string
  {
    if |lines| == 0 then "" else lines[0] + CRLF + Terminated(lines[1..])
  }

  /** The body is the data for a GET and nothing otherwise; a GET without data sends nothing either. */
  function Body(reply: Reply): seq<byte>
  {
    if reply.request == Some(GET) then
      match reply.data
      case Some(d) => d
      case None => []
    else []
  }

  /**
   * What `create_response` returns: None when the code has no reason phrase
   * (the lookup in `reply_values` raises KeyError), otherwise the header
   * lines each ended by CRLF, a blank line, and the body.
   */
  function Response(reply: Reply, date: string): Option<Wire>
  {
    if reply.code in ReplyValues then Some(Wire(Terminated(HeadLines(reply, date)) + CRLF, Body(reply)))
    else None
  }

  /**
   * The reason phrase table decides which replies can be written at all:
   * exactly 200, 403, 404 and 405. A reply of 400, which `__parse_request`
   * never builds, could not be written.
   */
  lemma ReplyValuesCodes(reply: Reply, date: string)
    ensures Response(reply, date).Some? <==> reply.code in {OK, FORBIDDEN, NOT_FOUND, NOT_ALLOWED}
    ensures Response(Status(BAD_REQUEST), date) == None
  {
  }

  /** `create_response`, appending to the response text one header line at a time. */
  method CreateResponse(reply: Reply, date: string) returns (wire: Option<Wire>)
    ensures wire == Response(reply, date)
  {
    if reply.code !in ReplyValues {
      return None;
    }
    var response := StatusLine(reply.code) + CRLF;
    ghost var written := [StatusLine(reply.code)];
    assert response == Terminated(written);
    var line := "Date: " + date;
    TerminatedAppend(written, line);
    response, written := response + (line + CRLF), written + [line];
    line := "Server: pseudo_http";
    TerminatedAppend(written, line);
    response, written := response + (line + CRLF), written + [line];
    line := "Allow: GET, HEAD";
    TerminatedAppend(written, line);
    response, written := response + (line + CRLF), written + [line];
    line := "Content-Length: " + NatToString(ContentLength(reply));
    TerminatedAppend(written, line);
    response, written := response + (line + CRLF), written + [line];
    ghost var fixedLines := written;
    if reply.mimeType.Some? {
      line := "Content-Type: " + MimeText(reply.mimeType.value);
      TerminatedAppend(written, line);
      response, written := response + (line + CRLF), written + [line];
    } else {
      assert written == fixedLines + [];
    }
    HeadLinesInOrder(reply, date);
    response := response + CRLF;
    var body: seq<byte> := [];
    if reply.request == Some(GET) && reply.data.Some? {
      body := reply.data.value;
    }
    wire := Some(Wire(response, body));
  }

  /** The header lines as `create_response` appends them, one after another. */
  lemma HeadLinesInOrder(reply: Reply, date: string)
    requires reply.code in ReplyValues
    ensures HeadLines(reply, date) ==
      [StatusLine(reply.code)] + ["Date: " + date] + ["Server: pseudo_http"] + ["Allow: GET, HEAD"]
      + ["Content-Length: " + NatToString(ContentLength(reply))]
      + (if reply.mimeType.Some? then ["Content-Type: " + MimeText(reply.mimeType.value)] else [])
  {
  }

  /** Appending one line to a terminated block. */
  lemma {:induction false} TerminatedAppend(lines: seq<string>, line: string)
    ensures Terminated(lines + [line]) == Terminated(lines) + (line + CRLF)
    decreases |lines|
  {
    if |lines| == 0 {
      assert [line][1..] == [];
    } else {
      assert (lines + [line])[1..] == lines[1..] + [line];
      TerminatedAppend(lines[1..], line);
    }
  }

  // ---------------------------------------------------------------------
  // Reading a header block back: the partner of `create_response`.
  // ---------------------------------------------------------------------

  /** The value of the first header line `name: value` before the blank line that ends the block. */
  function FieldIn(lines: seq<string>, name: string): Option<string>
  {
    if |lines| == 0 || lines[0] == "" then None
    else if StartsWith(lines[0], name + ": ") then Some(lines[0][|name| + 2..])
    else FieldIn(lines[1..], name)
  }

  /** A client's reading of a header block: split it at CRLF, skip the status line, find the field. */
  function HeaderField(head: string, name: string): Option<string>
  {
    FieldIn(SplitOn(head, CRLF)[1..], name)
  }

  predicate NoCR(s: string)
  {
    '\r' !in s
  }

  /** The header block ends in a blank line: it is the header lines joined by CRLF, then two empty lines. */
  lemma {:induction false} TerminatedAsJoin(lines: seq<string>)
    ensures Terminated(lines) + CRLF == JoinWith(lines + ["", ""], CRLF)
    decreases |lines|
  {
    if |lines| > 0 {
      TerminatedAsJoin(lines[1..]);
      assert (lines + ["", ""])[1..] == lines[1..] + ["", ""];
    }
  }

  lemma NotStartsWithAt(s: string, t: string, k: nat)
    requires k < |s| && k < |t| && s[k] != t[k]
    ensures !StartsWith(s, t)
  {
    if |t| <= |s| { assert s[..|t|][k] == s[k]; }
  }

  /** No line of `lines`, nor the two empty strings after them, holds the first character of CRLF. */
  lemma PartsHaveNoCR(lines: seq<string>)
    requires forall k :: 0 <= k < |lines| ==> NoCR(lines[k])
    ensures forall k :: 0 <= k < |lines + ["", ""]| ==> CRLF[0] !in (lines + ["", ""])[k]
  {
    var all := lines + ["", ""];
    assert CRLF[0] == '\r';
    forall k | 0 <= k < |all| ensures CRLF[0] !in all[k] {
      if k < |lines| { assert all[k] == lines[k]; } else { assert all[k] == ""; }
    }
  }

  /** Lines without carriage returns, each ended by CRLF and then a blank line, split back into those lines and two empty strings. */
  lemma SplitTerminated(lines: seq<string>)
    requires forall k :: 0 <= k < |lines| ==> NoCR(lines[k])
    ensures SplitOn(Terminated(lines) + CRLF, CRLF) == lines + ["", ""]
  {
    TerminatedAsJoin(lines);
    PartsHaveNoCR(lines);
    SplitJoin(lines + ["", ""], CRLF);
  }

  lemma DecimalHasNoCR(n: nat)
    ensures NoCR(NatToString(n))
  {
    var s := NatToString(n);
    assert forall k :: 0 <= k < |s| ==> s[k] != '\r';
  }

  lemma NoCRConcat(a: string, b: string)
    requires NoCR(a) && NoCR(b)
    ensures NoCR(a + b)
  {
  }

  lemma StatusTextHasNoCR()
    ensures NoCR("HTTP/1.1 ") && NoCR(" ")
  {
  }

  lemma FixedLinesHaveNoCR()
    ensures NoCR("Date: ") && NoCR("Server: pseudo_http") && NoCR("Allow: GET, HEAD")
  {
  }

  lemma FieldNamesHaveNoCR()
    ensures NoCR("Content-Length: ") && NoCR("Content-Type: ")
  {
  }

  lemma PhraseHasNoCR(code: int)
    requires code in ReplyValues
    ensures NoCR(ReplyValues[code])
  {
    if code == OK {
      assert ReplyValues[code] == "OK";
    } else if code == FORBIDDEN {
      assert ReplyValues[code] == "Forbidden";
    } else if code == NOT_FOUND {
      assert ReplyValues[code] == "Not Found";
    } else {
      assert ReplyValues[code] == "Method Not Allowed";
    }
  }

  lemma StatusLineHasNoCR(code: int)
    requires code in ReplyValues
    ensures NoCR(StatusLine(code))
  {
    StatusTextHasNoCR();
    DecimalHasNoCR(code);
    PhraseHasNoCR(code);
    NoCRConcat("HTTP/1.1 ", NatToString(code));
    NoCRConcat("HTTP/1.1 " + NatToString(code), " ");
    NoCRConcat("HTTP/1.1 " + NatToString(code) + " ", ReplyValues[code]);
  }

  lemma HeadLinesHaveNoCR(reply: Reply, date: string)
    requires reply.code in ReplyValues
    requires NoCR(date) && (reply.mimeType.Some? ==> NoCR(MimeText(reply.mimeType.value)))
    ensures forall k :: 0 <= k < |HeadLines(reply, date)| ==> NoCR(HeadLines(reply, date)[k])
  {
    var h := HeadLines(reply, date);
    var length := NatToString(ContentLength(reply));
    FixedLinesHaveNoCR();
    FieldNamesHaveNoCR();
    StatusLineHasNoCR(reply.code);
    DecimalHasNoCR(ContentLength(reply));
    NoCRConcat("Date: ", date);
    NoCRConcat("Content-Length: ", length);
    if reply.mimeType.Some? {
      NoCRConcat("Content-Type: ", MimeText(reply.mimeType.value));
    }
    forall k | 0 <= k < |h| ensures NoCR(h[k]) {
      if k == 0 {
        assert h[k] == StatusLine(reply.code);
      } else if k == 1 {
        assert h[k] == "Date: " + date;
      } else if k == 2 {
        assert h[k] == "Server: pseudo_http";
      } else if k == 3 {
        assert h[k] == "Allow: GET, HEAD";
      } else if k == 4 {
        assert h[k] == "Content-Length: " + length;
      } else {
        assert h[k] == "Content-Type: " + MimeText(reply.mimeType.value);
      }
    }
  }

  /**
   * Splitting the header block of a response at CRLF yields exactly its
   * header lines followed by two empty strings (the blank line and what
   * follows it), provided the date and the type hold no carriage return.
   */
  lemma HeadSplitsIntoLines(reply: Reply, date: string)
    requires reply.code in ReplyValues
    requires NoCR(date) && (reply.mimeType.Some? ==> NoCR(MimeText(reply.mimeType.value)))
    ensures SplitOn(Response(reply, date).value.head, CRLF) == HeadLines(reply, date) + ["", ""]
  {
    HeadLinesHaveNoCR(reply, date);
    SplitTerminated(HeadLines(reply, date));
  }

  /** The header lines after the status line, as a client splitting the block sees them. */
  function Block(date: string, length: string, typeLines: seq<string>): seq<string>
  {
    ["Date: " + date, "Server: pseudo_http", "Allow: GET, HEAD", "Content-Length: " + length] + typeLines + ["", ""]
  }

  lemma HeadBlock(reply: Reply, date: string)
    requires reply.code in ReplyValues
    requires NoCR(date) && (reply.mimeType.Some? ==> NoCR(MimeText(reply.mimeType.value)))
    ensures SplitOn(Response(reply, date).value.head, CRLF)[1..] ==
      Block(date, NatToString(ContentLength(reply)),
            if reply.mimeType.Some? then ["Content-Type: " + MimeText(reply.mimeType.value)] else [])
  {
    HeadSplitsIntoLines(reply, date);
    HeadLinesTail(reply, date);
    var h := HeadLines(reply, date);
    assert (h + ["", ""])[1..] == h[1..] + ["", ""];
  }

  lemma HeadLinesTail(reply: Reply, date: string)
    requires reply.code in ReplyValues
    ensures HeadLines(reply, date)[1..] + ["", ""] ==
      Block(date, NatToString(ContentLength(reply)),
            if reply.mimeType.Some? then ["Content-Type: " + MimeText(reply.mimeType.value)] else [])
  {
  }

  /** A line that is not blank and is not the named field is passed over. */
  lemma FieldSkip(line: string, rest: seq<string>, name: string)
    requires line != "" && !StartsWith(line, name + ": ")
    ensures FieldIn([line] + rest, name) == FieldIn(rest, name)
  {
    assert ([line] + rest)[1..] == rest;
  }

  /** The named field's line gives its value. */
  lemma FieldFound(name: string, value: string, rest: seq<string>)
    ensures FieldIn([name + ": " + value] + rest, name) == Some(value)
  {
    var line := name + ": " + value;
    assert line[..|name| + 2] == name + ": ";
    assert line[|name| + 2..] == value;
  }

  /** The block as a chain of its lines. */
  lemma BlockLines(date: string, length: string, typeLines: seq<string>)
    ensures Block(date, length, typeLines) ==
      ["Date: " + date] + (["Server: pseudo_http"] + (["Allow: GET, HEAD"] + (["Content-Length: " + length] + (typeLines + ["", ""]))))
  {
  }

  lemma FixedNames(date: string, length: string)
    ensures "Date: " + date == "Date" + ": " + date
    ensures "Server: pseudo_http" == "Server" + ": " + "pseudo_http"
    ensures "Allow: GET, HEAD" == "Allow" + ": " + "GET, HEAD"
    ensures "Content-Length: " + length == "Content-Length" + ": " + length
  {
  }

  /** No header line written before Content-Type is taken for another field. */
  lemma DistinctNames(date: string, length: string)
    ensures !StartsWith("Date: " + date, "Server: ") && !StartsWith("Date: " + date, "Allow: ")
    ensures !StartsWith("Date: " + date, "Content-Length: ") && !StartsWith("Date: " + date, "Content-Type: ")
    ensures !StartsWith("Server: pseudo_http", "Allow: ") && !StartsWith("Server: pseudo_http", "Content-Length: ")
    ensures !StartsWith("Server: pseudo_http", "Content-Type: ")
    ensures !StartsWith("Allow: GET, HEAD", "Content-Length: ") && !StartsWith("Allow: GET, HEAD", "Content-Type: ")
    ensures !StartsWith("Content-Length: " + length, "Content-Type: ")
  {
    NotStartsWithAt("Date: " + date, "Server: ", 0);
    NotStartsWithAt("Date: " + date, "Allow: ", 0);
    NotStartsWithAt("Date: " + date, "Content-Length: ", 0);
    NotStartsWithAt("Date: " + date, "Content-Type: ", 0);
    NotStartsWithAt("Server: pseudo_http", "Allow: ", 0);
    NotStartsWithAt("Server: pseudo_http", "Content-Length: ", 0);
    NotStartsWithAt("Server: pseudo_http", "Content-Type: ", 0);
    NotStartsWithAt("Allow: GET, HEAD", "Content-Length: ", 0);
    NotStartsWithAt("Allow: GET, HEAD", "Content-Type: ", 0);
    NotStartsWithAt("Content-Length: " + length, "Content-Type: ", 8);
  }

  lemma FixedFields(date: string, length: string, typeLines: seq<string>)
    ensures FieldIn(Block(date, length, typeLines), "Date") == Some(date)
    ensures FieldIn(Block(date, length, typeLines), "Server") == Some("pseudo_http")
    ensures FieldIn(Block(date, length, typeLines), "Allow") == Some("GET, HEAD")
  {
    BlockLines(date, length, typeLines);
    FixedNames(date, length);
    DistinctNames(date, length);
    var r3 := ["Content-Length: " + length] + (typeLines + ["", ""]);
    var r2 := ["Allow: GET, HEAD"] + r3;
    var r1 := ["Server: pseudo_http"] + r2;
    FieldFound("Date", date, r1);
    FieldSkip("Date: " + date, r1, "Server");
    FieldFound("Server", "pseudo_http", r2);
    FieldSkip("Date: " + date, r1, "Allow");
    FieldSkip("Server: pseudo_http", r2, "Allow");
    FieldFound("Allow", "GET, HEAD", r3);
  }

  lemma LengthField(date: string, length: string, typeLines: seq<string>)
    ensures FieldIn(Block(date, length, typeLines), "Content-Length") == Some(length)
  {
    BlockLines(date, length, typeLines);
    FixedNames(date, length);
    DistinctNames(date, length);
    var r4 := typeLines + ["", ""];
    var r3 := ["Content-Length: " + length] + r4;
    var r2 := ["Allow: GET, HEAD"] + r3;
    var r1 := ["Server: pseudo_http"] + r2;
    FieldSkip("Date: " + date, r1, "Content-Length");
    FieldSkip("Server: pseudo_http", r2, "Content-Length");
    FieldSkip("Allow: GET, HEAD", r3, "Content-Length");
    FieldFound("Content-Length", length, r4);
  }

  lemma TypeField(date: string, length: string, typeLines: seq<string>, t: string)
    requires typeLines == [] || typeLines == ["Content-Type: " + t]
    ensures FieldIn(Block(date, length, typeLines), "Content-Type") == if typeLines == [] then None else Some(t)
  {
    BlockLines(date, length, typeLines);
    DistinctNames(date, length);
    var r4 := typeLines + ["", ""];
    var r3 := ["Content-Length: " + length] + r4;
    var r2 := ["Allow: GET, HEAD"] + r3;
    var r1 := ["Server: pseudo_http"] + r2;
    FieldSkip("Date: " + date, r1, "Content-Type");
    FieldSkip("Server: pseudo_http", r2, "Content-Type");
    FieldSkip("Allow: GET, HEAD", r3, "Content-Type");
    FieldSkip("Content-Length: " + length, r4, "Content-Type");
    if typeLines == [] {
      assert r4[0] == "";
    } else {
      assert "Content-Type: " + t == "Content-Type" + ": " + t;
      assert r4 == ["Content-Type" + ": " + t] + ["", ""];
      FieldFound("Content-Type", t, ["", ""]);
    }
  }

  /**
   * Reading the header block back finds each field with the value written:
   * the fixed Server and Allow values, the date, the body length as a decimal
   * that parses back to that length, and a Content-Type exactly when a type
   * key was given (holding the text `None` when the type is None). The
   * first line is the status line.
   */
  lemma HeaderRoundTrip(reply: Reply, date: string)
    requires reply.code in ReplyValues
    requires NoCR(date) && (reply.mimeType.Some? ==> NoCR(MimeText(reply.mimeType.value)))
    ensures var head := Response(reply, date).value.head;
      && SplitOn(head, CRLF)[0] == StatusLine(reply.code)
      && HeaderField(head, "Date") == Some(date)
      && HeaderField(head, "Server") == Some("pseudo_http")
      && HeaderField(head, "Allow") == Some("GET, HEAD")
      && HeaderField(head, "Content-Length") == Some(NatToString(ContentLength(reply)))
      && ParseNat(HeaderField(head, "Content-Length").value) == ContentLength(reply)
      && HeaderField(head, "Content-Type") ==
           (if reply.mimeType.Some? then Some(MimeText(reply.mimeType.value)) else None)
  {
    HeadSplitsIntoLines(reply, date);
    HeadBlock(reply, date);
    var length := NatToString(ContentLength(reply));
    var t := if reply.mimeType.Some? then MimeText(reply.mimeType.value) else "";
    var typeLines := if reply.mimeType.Some? then ["Content-Type: " + t] else [];
    FixedFields(date, length, typeLines);
    LengthField(date, length, typeLines);
    TypeField(date, length, typeLines, t);
    ParseNatToString(ContentLength(reply));
  }

  /** The body is the data for a GET and empty for a HEAD, whatever the code. */
  lemma BodyByRequest(reply: Reply, date: string)
    requires reply.code in ReplyValues
    ensures reply.request == Some(GET) && reply.data.Some? ==> Response(reply, date).value.body == reply.data.value
    ensures reply.request != Some(GET) ==> Response(reply, date).value.body == []
  {
  }

  /**
   * A bare status is written with its status line, `Content-Length: 0`, no
   * Content-Type and no body.
   */
  lemma StatusResponse(code: int, date: string)
    requires code in ReplyValues && NoCR(date)
    ensures var w := Response(Status(code), date).value;
      && SplitOn(w.head, CRLF)[0] == StatusLine(code)
      && HeaderField(w.head, "Content-Length") == Some("0")
      && HeaderField(w.head, "Content-Type") == None
      && HeaderField(w.head, "Allow") == Some("GET, HEAD")
      && w.body == []
  {
    HeaderRoundTrip(Status(code), date);
    assert NatToString(0) == "0";
  }

  /**
   * A 200 for a request that found a file is written with the status line
   * `HTTP/1.1 200 OK`, the data's length as Content-Length, and the body
   * for a GET only.
   */
  lemma FileResponse(m: Method, content: seq<byte>, t: Option<string>, date: string)
    requires NoCR(date) && NoCR(MimeText(t))
    ensures var w := Response(Reply(OK, Some(m), Some(content), Some(t)), date).value;
      && SplitOn(w.head, CRLF)[0] == "HTTP/1.1 200 OK"
      && HeaderField(w.head, "Content-Length") == Some(NatToString(|content|))
      && HeaderField(w.head, "Content-Type") == Some(MimeText(t))
      && w.body == (if m == GET then content else [])
  {
    HeaderRoundTrip(Reply(OK, Some(m), Some(content), Some(t)), date);
    StatusLineOk();
  }
}
