/**
 * The two library calls that turn the captured request target into a file
 * path: `urlparse(url).path` and `unquote(...)`, restricted to the characters
 * the request-line pattern lets through.
 */
module Url {
  import opened Text

  /** The characters `[a-zA-Z0-9/_\-.%?=&]` the request-line pattern accepts in a target. */
  predicate IsUrlChar(c: char)
  {
    ('a' <= c <= 'z') || ('A' <= c <= 'Z') || ('0' <= c <= '9') ||
    c == '/' || c == '_' || c == '-' || c == '.' || c == '%' || c == '?' || c == '=' || c == '&'
  }

  predicate AllUrlChars(s: string)
  {
    forall k :: 0 <= k < |s| ==> IsUrlChar(s[k])
  }

  // ---------------------------------------------------------------------
  // urlparse(url).path
  // ---------------------------------------------------------------------

  /**
   * End of the network location that `urlparse` splits off a target starting
   * with `//`: the first `/` or `?` after those two characters (`#`, the third
   * delimiter, never occurs in a target).
   */
  function NetlocEnd(u: string): (n: nat)
    requires StartsWith(u, "//")
    ensures 2 <= n <= |u|
    ensures n < |u| ==> u[n] == '/' || u[n] == '?'
    ensures forall k :: 2 <= k < n ==> u[k] != '/' && u[k] != '?'
  {
    var tail := u[2..];
    var slash, query := IndexOf(tail, "/"), IndexOf(tail, "?");
    OccursAtChar(tail, "/");
    OccursAtChar(tail, "?");
    2 + (if slash < query then slash else query)
  }

  /**
   * `urlparse(u).path` for a target made of pattern characters: the network
   * location is dropped when `u` starts with `//`, then everything from the
   * first `?` on (the query) is dropped.
   */
  function UrlPath(u: string): (path: string)
    requires AllUrlChars(u)
    ensures forall k :: 0 <= k < |path| ==> path[k] != '?'
    ensures !StartsWith(u, "//") ==> StartsWith(u, path)
    ensures StartsWith(u, "//") ==> path == "" || path[0] == '/'
  {
    var rest := if StartsWith(u, "//") then u[NetlocEnd(u)..] else u;
    var q := IndexOf(rest, "?");
    OccursAtChar(rest, "?");
    rest[..q]
  }

  /** The first `?` of `p + "?" + q` is the one after `p` when `p` holds none. */
  lemma QueryIndex(p: string, q: string)
    requires '?' !in p
    ensures IndexOf(p + "?" + q, "?") == |p|
  {
    var u := p + "?" + q;
    assert OccursAt(u, "?", |p|) by { assert u[|p|..|p| + 1] == "?"; }
    forall k | 0 <= k < |p| ensures !OccursAt(u, "?", k) {
      assert u[k..k + 1][0] == p[k];
    }
  }

  /** A target without `//` at its start loses exactly its query, and a target without a query is its own path. */
  lemma QueryStripped(p: string, q: string)
    requires AllUrlChars(p) && AllUrlChars(q)
    requires '?' !in p && !StartsWith(p, "//")
    ensures UrlPath(p) == p
    ensures UrlPath(p + "?" + q) == p
  {
    IndexOfAbsent(p, "?");
    QueryIndex(p, q);
    var u := p + "?" + q;
    assert !StartsWith(u, "//") by {
      if |p| >= 2 { assert u[..2] == p[..2]; }
      else if |p| == 1 { assert u[1] == '?'; }
      else { assert u[0] == '?'; }
    }
    assert u[..|p|] == p;
  }

  // ---------------------------------------------------------------------
  // unquote
  // ---------------------------------------------------------------------

  predicate IsHexDigit(c: char)
  {
    ('0' <= c <= '9') || ('a' <= c <= 'f') || ('A' <= c <= 'F')
  }

  function HexValue(c: char): (v: nat)
    requires IsHexDigit(c)
    ensures v < 16
  {
    if '0' <= c <= '9' then (c as int) - ('0' as int)
    else if 'a' <= c <= 'f' then (c as int) - ('a' as int) + 10
    else (c as int) - ('A' as int) + 10
  }

  /** The hexadecimal digit for `v`, in upper or lower case. */
  function HexDigit(v: nat, lower: bool): (c: char)
    requires v < 16
    ensures IsHexDigit(c) && HexValue(c) == v
    ensures v >= 10 ==> (lower <==> 'a' <= c <= 'f')
  {
    if lower then "0123456789abcdef"[v] else "0123456789ABCDEF"[v]
  }

  /** True when `s` starts with a well-formed escape `%XX`. */
  predicate StartsWithEscape(s: string)
  {
    |s| >= 3 && s[0] == '%' && IsHexDigit(s[1]) && IsHexDigit(s[2])
  }

  /**
   * `unquote(s)`: every `%XX` with two hexadecimal digits becomes the
   * character with code XX; a `%` not followed by two hexadecimal digits is
   * kept as it is, and so is every other character.
   */
  function Unquote(s: string): (r: string)
    ensures |r| <= |s|
  {
    if |s| == 0 then ""
    else if StartsWithEscape(s) then [(16 * HexValue(s[1]) + HexValue(s[2])) as char] + Unquote(s[3..])
    else [s[0]] + Unquote(s[1..])
  }

  /** Without a `%`, `unquote` returns its argument unchanged. */
  lemma {:induction false} UnquoteWithoutPercent(s: string)
    requires '%' !in s
    ensures Unquote(s) == s
  {
    if |s| > 0 {
      UnquoteWithoutPercent(s[1..]);
    }
  }

  /** Characters a client may leave unescaped in a path: letters, digits, `_`, `-` and `.`. */
  predicate IsUnreserved(c: char)
  {
    ('a' <= c <= 'z') || ('A' <= c <= 'Z') || ('0' <= c <= '9') || c == '_' || c == '-' || c == '.'
  }

  /** The characters a path may hold for the escaped form to decode back to it. */
  predicate IsAsciiChar(c: char)
  {
    (c as int) < 128
  }

  /**
   * The client side of `unquote`: every character that is not unreserved is
   * written as `%XX`, with upper-case digits. The result uses only pattern
   * characters and holds neither `/` nor `?`.
   */
  function Quote(s: string): (r: string)
    requires forall k :: 0 <= k < |s| ==> IsAsciiChar(s[k])
    ensures forall k :: 0 <= k < |r| ==> IsUnreserved(r[k]) || r[k] == '%'
  {
    QuoteCase(s, false)
  }

  /** `Quote` with the escapes' digits in the given case; clients write either. */
  function QuoteCase(s: string, lower: bool): (r: string)
    requires forall k :: 0 <= k < |s| ==> IsAsciiChar(s[k])
    ensures forall k :: 0 <= k < |r| ==> IsUnreserved(r[k]) || r[k] == '%'
  {
    if |s| == 0 then ""
    else if IsUnreserved(s[0]) then [s[0]] + QuoteCase(s[1..], lower)
    else
      assert IsAsciiChar(s[0]);
      ['%', HexDigit((s[0] as int) / 16, lower), HexDigit((s[0] as int) % 16, lower)] + QuoteCase(s[1..], lower)
  }

  /** An escaped string fits the target alphabet and holds no `/`, no `?` and no carriage return. */
  lemma QuoteIsTarget(s: string)
    requires forall k :: 0 <= k < |s| ==> IsAsciiChar(s[k])
    ensures AllUrlChars(Quote(s))
    ensures '/' !in Quote(s) && '?' !in Quote(s) && '\r' !in Quote(s)
  {
    var r := Quote(s);
    forall k | 0 <= k < |r| ensures IsUrlChar(r[k]) && r[k] != '/' && r[k] != '?' && r[k] != '\r' {
      assert IsUnreserved(r[k]) || r[k] == '%';
    }
  }

  /** `unquote` undoes `Quote` for every string of ASCII characters. */
  lemma UnquoteQuote(s: string)
    requires forall k :: 0 <= k < |s| ==> IsAsciiChar(s[k])
    ensures Unquote(Quote(s)) == s
  {
    UnquoteQuoteCase(s, false);
  }

  /** `unquote` decodes lower-case escapes as it decodes upper-case ones. */
  lemma {:induction false} UnquoteQuoteCase(s: string, lower: bool)
    requires forall k :: 0 <= k < |s| ==> IsAsciiChar(s[k])
    ensures Unquote(QuoteCase(s, lower)) == s
  {
    if |s| > 0 {
      UnquoteQuoteCase(s[1..], lower);
      var q := QuoteCase(s, lower);
      if IsUnreserved(s[0]) {
        assert q[1..] == QuoteCase(s[1..], lower);
        assert !StartsWithEscape(q);
      } else {
        assert IsAsciiChar(s[0]);
        UnquoteEscaped(s[0], lower, QuoteCase(s[1..], lower));
      }
    }
  }

  /** An escaped character decodes back to itself, whatever the case of its digits. */
  lemma UnquoteEscaped(c: char, lower: bool, rest: string)
    requires IsAsciiChar(c)
    ensures var q := ['%', HexDigit((c as int) / 16, lower), HexDigit((c as int) % 16, lower)] + rest;
      Unquote(q) == [c] + Unquote(rest)
  {
    var q := ['%', HexDigit((c as int) / 16, lower), HexDigit((c as int) % 16, lower)] + rest;
    assert q[3..] == rest;
    assert StartsWithEscape(q);
    assert (16 * HexValue(q[1]) + HexValue(q[2])) == c as int;
  }

  /** `%2f` and `%2F` both decode to `/`. */
  lemma UnquoteSlash()
    ensures Unquote("%2f") == Unquote("%2F") == "/"
  {
    assert StartsWithEscape("%2f") && StartsWithEscape("%2F");
    assert Unquote("%2f"[3..]) == "";
    assert Unquote("%2F"[3..]) == "";
  }

  /**
   * A `%` that does not start an escape is kept, and decoding goes on from
   * the character after it: `100%` and `%zz` keep their `%`, and `%%41`
   * decodes to `%A`.
   */
  lemma UnquoteKeepsPercent(s: string)
    requires s != [] && s[0] == '%' && !StartsWithEscape(s)
    ensures Unquote(s) == "%" + Unquote(s[1..])
    ensures Unquote("%%41") == "%A"
  {
    var t := "%%41";
    assert !StartsWithEscape(t) && t[1..] == "%41";
    assert StartsWithEscape(t[1..]) && t[1..][3..] == "";
    assert (16 * HexValue('4') + HexValue('1')) as char == 'A';
  }
}
