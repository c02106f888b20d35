/**
 * The request-line pattern `([A-Z]*) \/([a-zA-Z0-9\/\_\-\.\%\?\=\&]*) HTTP/[0-9\.]`
 * as `re.match` applies it: anchored at the start of the line only, so
 * whatever follows the one version character is ignored.
 */
module RequestLine {
  import opened Wrappers
  import opened Url

  /** The two groups of a matched line: the requestType and the url without its leading `/`. */
  datatype RequestLine = RequestLine(requestType: string, url: string)

  predicate IsUpper(c: char)
  {
    'A' <= c <= 'Z'
  }

  predicate IsVersionChar(c: char)
  {
    ('0' <= c <= '9') || c == '.'
  }

  /** Length of the longest prefix of `s` whose characters all satisfy `p` (a greedy `[...]*`). */
  function Span(s: string, p: char -> bool): (n: nat)
    ensures n <= |s|
    ensures forall k :: 0 <= k < n ==> p(s[k])
    ensures n < |s| ==> !p(s[n])
    decreases |s|
  {
    if |s| == 0 || !p(s[0]) then 0 else 1 + Span(s[1..], p)
  }

  /**
   * The pattern, stated declaratively: `line` starts with
   * `requestType + " /" + url + " HTTP/"` followed by one version character.
   */
  predicate Matches(line: string, requestType: string, url: string)
  {
    var m := |requestType|;
    var e := m + 2 + |url|;
    (forall k :: 0 <= k < m ==> IsUpper(requestType[k])) &&
    AllUrlChars(url) &&
    e + 7 <= |line| &&
    line[..m] == requestType &&
    line[m..m + 2] == " /" &&
    line[m + 2..e] == url &&
    line[e..e + 6] == " HTTP/" &&
    IsVersionChar(line[e + 6])
  }

  /** The recogniser: both character runs are maximal, as the greedy pattern takes them. */
  function Match(line: string): (r: Option<RequestLine>)
    ensures r.Some? ==> Matches(line, r.value.requestType, r.value.url)
  {
    var m := Span(line, IsUpper);
    if m + 2 <= |line| && line[m..m + 2] == " /" then
      UpperRun(line);
      UrlRun(line[m + 2..]);
      MatchAfterType(line, m, Span(line[m + 2..], IsUrlChar))
    else None
  }

  /**
   * The rest of the pattern once `requestType + " /"` has been read: the url
   * is the run of `u` url characters, and ` HTTP/` and a version character
   * must follow it.
   */
  function MatchAfterType(line: string, m: nat, u: nat): (r: Option<RequestLine>)
    requires m + 2 + u <= |line| && line[m..m + 2] == " /"
    requires forall k :: 0 <= k < m ==> IsUpper(line[k])
    requires AllUrlChars(line[m + 2..][..u])
    ensures r.Some? ==> Matches(line, r.value.requestType, r.value.url)
  {
    var e := m + 2 + u;
    if e + 7 <= |line| && line[e..e + 6] == " HTTP/" && IsVersionChar(line[e + 6]) then
      assert line[m + 2..][..u] == line[m + 2..e];
      MatchedGroups(line, m, line[m + 2..e]);
      Some(RequestLine(line[..m], line[m + 2..e]))
    else None
  }

  /** A run that ends where the predicate first fails is the greedy run. */
  lemma SpanEndsAt(s: string, p: char -> bool, n: nat)
    requires n < |s| && !p(s[n])
    requires forall k :: 0 <= k < n ==> p(s[k])
    ensures Span(s, p) == n
  {
  }

  /** In a line the pattern describes, the upper-case run is exactly the requestType. */
  lemma UpperRunOf(line: string, requestType: string, url: string)
    requires Matches(line, requestType, url)
    ensures Span(line, IsUpper) == |requestType|
  {
    var m := |requestType|;
    assert line[m] == line[m..m + 2][0] == ' ';
    forall k | 0 <= k < m ensures IsUpper(line[k]) {
      assert line[..m][k] == line[k];
    }
    SpanEndsAt(line, IsUpper, m);
  }

  /** In a line the pattern describes, the run of url characters after ` /` is exactly the url. */
  lemma UrlRunOf(line: string, requestType: string, url: string)
    requires Matches(line, requestType, url)
    ensures Span(line[|requestType| + 2..], IsUrlChar) == |url|
  {
    var m, u := |requestType|, |url|;
    var body := line[m + 2..];
    forall k | 0 <= k < u ensures IsUrlChar(body[k]) {
      assert line[m + 2..m + 2 + u][k] == body[k];
    }
    assert body[u] == line[m + 2 + u..m + 2 + u + 6][0] == ' ';
    SpanEndsAt(body, IsUrlChar, u);
  }

  /** The upper-case run holds only upper-case letters. */
  lemma UpperRun(s: string)
    ensures forall k :: 0 <= k < Span(s, IsUpper) ==> IsUpper(s[k])
  {
  }

  /** The url run holds only url characters. */
  lemma UrlRun(s: string)
    ensures AllUrlChars(s[..Span(s, IsUrlChar)])
  {
    var n := Span(s, IsUrlChar);
    forall k | 0 <= k < n ensures IsUrlChar(s[..n][k]) {
      assert s[..n][k] == s[k];
    }
  }

  /** The groups the recogniser cuts out fit the pattern. */
  lemma MatchedGroups(line: string, m: nat, url: string)
    requires m + 2 + |url| + 7 <= |line|
    requires forall k :: 0 <= k < m ==> IsUpper(line[k])
    requires AllUrlChars(url) && url == line[m + 2..m + 2 + |url|]
    requires line[m..m + 2] == " /"
    requires line[m + 2 + |url|..m + 2 + |url| + 6] == " HTTP/" && IsVersionChar(line[m + 2 + |url| + 6])
    ensures Matches(line, line[..m], url)
  {
    var requestType := line[..m];
    forall k | 0 <= k < m ensures IsUpper(requestType[k]) {
      assert requestType[k] == line[k];
    }
  }

  /**
   * Every line the pattern describes is recognised, with the same groups:
   * the groups are unique because neither run can stop early (the character
   * after each is a space, which neither class contains).
   */
  lemma MatchComplete(line: string, requestType: string, url: string)
    requires Matches(line, requestType, url)
    ensures Match(line) == Some(RequestLine(requestType, url))
  {
    UpperRunOf(line, requestType, url);
    UrlRunOf(line, requestType, url);
    var m, u := |requestType|, |url|;
    assert MatchAfterType(line, m, u) == Some(RequestLine(requestType, url));
  }

  /** A line written as `requestType /url HTTP/` and a version character fits the pattern with those groups. */
  lemma MatchesWritten(requestType: string, url: string, version: string)
    requires forall k :: 0 <= k < |requestType| ==> IsUpper(requestType[k])
    requires AllUrlChars(url)
    requires |version| > 0 && IsVersionChar(version[0])
    ensures Matches(requestType + " /" + url + " HTTP/" + version, requestType, url)
  {
    var line := requestType + " /" + url + " HTTP/" + version;
    var m, u := |requestType|, |url|;
    assert line[..m] == requestType;
    assert line[m..m + 2] == " /";
    assert line[m + 2..m + 2 + u] == url;
    assert line[m + 2 + u..m + 2 + u + 6] == " HTTP/";
    assert line[m + 2 + u + 6] == version[0];
  }

  /** The recogniser returns the groups a line was written with. */
  lemma MatchWritten(requestType: string, url: string, version: string)
    requires forall k :: 0 <= k < |requestType| ==> IsUpper(requestType[k])
    requires AllUrlChars(url)
    requires |version| > 0 && IsVersionChar(version[0])
    ensures Match(requestType + " /" + url + " HTTP/" + version) == Some(RequestLine(requestType, url))
  {
    MatchesWritten(requestType, url, version);
    MatchComplete(requestType + " /" + url + " HTTP/" + version, requestType, url);
  }
}
