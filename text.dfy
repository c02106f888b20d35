/**
 * The string operations of Python's `str` that the server relies on:
 * `find`, `split` and `join` with a separator, `startswith`, and the
 * decimal rendering of a non-negative integer done by `'{}'.format(n)`.
 */
module Text {

  /** True when `sep` occurs in `s` starting at index `j`. */
  predicate OccursAt(s: string, sep: string, j: nat)
  {
    j + |sep| <= |s| && s[j..j + |sep|] == sep
  }

  /** A one-character separator occurs exactly where that character stands. */
  lemma OccursAtChar(s: string, sep: string)
    requires |sep| == 1
    ensures forall k :: 0 <= k < |s| ==> (OccursAt(s, sep, k) <==> s[k] == sep[0])
  {
    forall k | 0 <= k < |s| ensures OccursAt(s, sep, k) <==> s[k] == sep[0] {
      assert s[k..k + 1] == [s[k]];
    }
  }

  /** An occurrence at `j > 0` is an occurrence at `j - 1` in the string without its first character. */
  lemma OccursShifted(s: string, sep: string, j: nat)
    requires 0 < j <= |s|
    ensures OccursAt(s, sep, j) <==> OccursAt(s[1..], sep, j - 1)
  {
    if j + |sep| <= |s| {
      assert s[j..j + |sep|] == s[1..][j - 1..j - 1 + |sep|];
    }
  }

  /** `s.find(sep)`, except that "not found" is `|s|` rather than -1. */
  function IndexOf(s: string, sep: string): (i: nat)
    requires |sep| > 0
    ensures i <= |s|
    ensures i < |s| ==> OccursAt(s, sep, i)
    ensures forall j :: 0 <= j < i ==> !OccursAt(s, sep, j)
    decreases |s|
  {
    if |s| < |sep| then |s|
    else if s[..|sep|] == sep then 0
    else
      var k := IndexOf(s[1..], sep);
      assert forall j :: 0 < j <= k + 1 ==> (OccursAt(s, sep, j) <==> OccursAt(s[1..], sep, j - 1)) by {
        forall j | 0 < j <= k + 1
          ensures OccursAt(s, sep, j) <==> OccursAt(s[1..], sep, j - 1)
        {
          OccursShifted(s, sep, j);
        }
      }
      if k == |s| - 1 then |s| else k + 1
  }

  /** When `s` has no occurrence of the separator's first character, `sep` is not found in it. */
  lemma IndexOfAbsent(s: string, sep: string)
    requires |sep| > 0 && sep[0] !in s
    ensures IndexOf(s, sep) == |s|
  {
  }

  /** Python's `s.split(sep)` for a non-empty separator. */
  function SplitOn(s: string, sep: string): (parts: seq<string>)
    requires |sep| > 0
    ensures |parts| > 0
    decreases |s|
  {
    var i := IndexOf(s, sep);
    if i == |s| then [s] else [s[..i]] + SplitOn(s[i + |sep|..], sep)
  }

  /** Python's `sep.join(parts)`. */
  function JoinWith(parts: seq<string>, sep: string): string
  {
    if |parts| == 0 then ""
    else if |parts| == 1 then parts[0]
    else parts[0] + sep + JoinWith(parts[1..], sep)
  }

  /** Joining the pieces of a split with the same separator gives back the original string. */
  lemma {:induction false} JoinSplit(s: string, sep: string)
    requires |sep| > 0
    ensures JoinWith(SplitOn(s, sep), sep) == s
    decreases |s|
  {
    var i := IndexOf(s, sep);
    if i < |s| {
      var rest := s[i + |sep|..];
      JoinSplit(rest, sep);
      JoinCons(s[..i], SplitOn(rest, sep), sep);
      CutAround(s, i, sep);
    }
  }

  /** Joining a piece in front of a non-empty run puts one separator between them. */
  lemma JoinCons(p: string, tail: seq<string>, sep: string)
    requires tail != []
    ensures JoinWith([p] + tail, sep) == p + sep + JoinWith(tail, sep)
  {
    assert ([p] + tail)[1..] == tail;
  }

  /** A string is what comes before an occurrence of the separator, the separator, and what comes after. */
  lemma CutAround(s: string, i: nat, sep: string)
    requires OccursAt(s, sep, i)
    ensures s == s[..i] + sep + s[i + |sep|..]
  {
    assert s == s[..i] + s[i..i + |sep|] + s[i + |sep|..];
  }

  /** Splitting a join gives back the pieces, when no piece holds the separator's first character. */
  lemma {:induction false} SplitJoin(parts: seq<string>, sep: string)
    requires |sep| > 0 && |parts| > 0
    requires forall k :: 0 <= k < |parts| ==> sep[0] !in parts[k]
    ensures SplitOn(JoinWith(parts, sep), sep) == parts
    decreases |parts|
  {
    if |parts| == 1 {
      IndexOfAbsent(parts[0], sep);
    } else {
      var p, rest := parts[0], JoinWith(parts[1..], sep);
      var s := p + sep + rest;
      assert OccursAt(s, sep, |p|) by { assert s[|p|..|p| + |sep|] == sep; }
      NotBefore(p, sep, sep + rest);
      var i := IndexOf(s, sep);
      assert i == |p|;
      assert s[..i] == p && s[i + |sep|..] == rest;
      assert JoinWith(parts, sep) == s;
      SplitJoin(parts[1..], sep);
      assert SplitOn(s, sep) == [p] + SplitOn(rest, sep);
    }
  }

  /** The separator cannot start inside a prefix that lacks its first character. */
  lemma NotBefore(p: string, sep: string, rest: string)
    requires |sep| > 0 && sep[0] !in p
    ensures forall j :: 0 <= j < |p| ==> !OccursAt(p + rest, sep, j)
  {
  }

  /** The first piece of a split is everything before the first separator. */
  lemma SplitFirst(p: string, sep: string, rest: string)
    requires |sep| > 0 && sep[0] !in p
    ensures SplitOn(p + sep + rest, sep) == [p] + SplitOn(rest, sep)
  {
    var s := p + sep + rest;
    assert OccursAt(s, sep, |p|) by { assert s[|p|..|p| + |sep|] == sep; }
    NotBefore(p, sep, sep + rest);
    assert IndexOf(s, sep) == |p|;
    assert s[..|p|] == p && s[|p| + |sep|..] == rest;
  }

  /** Splitting a string that starts with the separator yields an empty first piece. */
  lemma SplitLeadingSeparator(s: string, sep: string)
    requires |sep| > 0
    ensures SplitOn(sep + s, sep) == [""] + SplitOn(s, sep)
  {
    assert OccursAt(sep + s, sep, 0) by { assert (sep + s)[..|sep|] == sep; }
    assert (sep + s)[|sep|..] == s;
  }

  /**
   * `[p for p in parts if p]`: the non-empty pieces, in order. Nothing is
   * left exactly when every piece is empty, and the first piece left is the
   * first non-empty one.
   */
  function NonEmpty(parts: seq<string>): (r: seq<string>)
    ensures forall k :: 0 <= k < |r| ==> r[k] != "" && r[k] in parts
    ensures forall p :: p in parts && p != "" ==> p in r
    ensures r == [] <==> forall k :: 0 <= k < |parts| ==> parts[k] == ""
    ensures r != [] ==> exists i :: 0 <= i < |parts| && parts[i] == r[0] && forall j :: 0 <= j < i ==> parts[j] == ""
  {
    if |parts| == 0 then []
    else if parts[0] == "" then
      var r := NonEmpty(parts[1..]);
      assert r != [] ==> exists i :: 0 <= i < |parts| && parts[i] == r[0] && forall j :: 0 <= j < i ==> parts[j] == "" by {
        if r != [] {
          var i :| 0 <= i < |parts[1..]| && parts[1..][i] == r[0] && forall j :: 0 <= j < i ==> parts[1..][j] == "";
          assert forall j :: 0 <= j < i + 1 ==> parts[j] == "" by {
            forall j | 0 <= j < i + 1 ensures parts[j] == "" {
              if j > 0 { assert parts[j] == parts[1..][j - 1]; }
            }
          }
        }
      }
      r
    else [parts[0]] + NonEmpty(parts[1..])
  }

  /** `s.startswith(prefix)`. */
  predicate StartsWith(s: string, prefix: string)
  {
    |prefix| <= |s| && s[..|prefix|] == prefix
  }

  predicate IsDigit(c: char)
  {
    '0' <= c <= '9'
  }

  function DigitChar(d: nat): (c: char)
    requires d < 10
    ensures IsDigit(c)
  {
    ('0' as int + d) as char
  }

  function DigitValue(c: char): (d: nat)
    requires IsDigit(c)
    ensures d < 10 && DigitChar(d) == c
  {
    (c as int) - ('0' as int)
  }

  /** The decimal text of a non-negative integer, as `'{}'.format(n)` writes it. */
  function NatToString(n: nat): (s: string)
    ensures |s| > 0
    ensures forall k :: 0 <= k < |s| ==> IsDigit(s[k])
    ensures s[0] == '0' ==> s == "0"
  {
    if n < 10 then [DigitChar(n)] else NatToString(n / 10) + [DigitChar(n % 10)]
  }

  /** The value of a string of decimal digits (what `int(s)` gives for such a string). */
  function ParseNat(s: string): nat
    requires forall k :: 0 <= k < |s| ==> IsDigit(s[k])
  {
    if |s| == 0 then 0 else 10 * ParseNat(s[..|s| - 1]) + DigitValue(s[|s| - 1])
  }

  /** Reading back the decimal rendering of `n` gives `n`. */
  lemma {:induction false} ParseNatToString(n: nat)
    ensures ParseNat(NatToString(n)) == n
  {
    var s := NatToString(n);
    if n >= 10 {
      ParseNatToString(n / 10);
      assert s[..|s| - 1] == NatToString(n / 10);
      assert DigitValue(s[|s| - 1]) == n % 10;
    } else {
      assert s[..0] == [] && DigitValue(s[0]) == n;
    }
  }
}
