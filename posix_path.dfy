/**
 * The lexical path operations of `os.path` on POSIX that the containment test
 * uses: `join`, `normpath` and `abspath`. Nothing here looks at a file system.
 */
module PosixPath {
  import opened Text

  /** A path component that survives normalisation unchanged. */
  predicate IsPlain(c: string)
  {
    c != "" && c != "." && c != ".." && '/' !in c
  }

  predicate AllPlain(cs: seq<string>)
  {
    forall k :: 0 <= k < |cs| ==> IsPlain(cs[k])
  }

  lemma AllPlainAppend(a: seq<string>, b: seq<string>)
    ensures AllPlain(a + b) <==> AllPlain(a) && AllPlain(b)
  {
    if AllPlain(a + b) {
      forall k | 0 <= k < |a| ensures IsPlain(a[k]) { assert (a + b)[k] == a[k]; }
      forall k | 0 <= k < |b| ensures IsPlain(b[k]) { assert (a + b)[|a| + k] == b[k]; }
    }
    if AllPlain(a) && AllPlain(b) {
      forall k | 0 <= k < |a + b| ensures IsPlain((a + b)[k]) {
        if k < |a| { assert (a + b)[k] == a[k]; } else { assert (a + b)[k] == b[k - |a|]; }
      }
    }
  }

  /** The leading slashes `normpath` keeps: exactly two are kept, one or three and more become one. */
  function InitialSlashes(path: string): (s: string)
    ensures s == "" || s == "/" || s == "//"
    ensures s != "" <==> StartsWith(path, "/")
    ensures s == "//" <==> StartsWith(path, "//") && !StartsWith(path, "///")
  {
    if StartsWith(path, "//") && !StartsWith(path, "///") then "//"
    else if StartsWith(path, "/") then "/"
    else ""
  }

  /**
   * The component loop of `normpath`: empty and `.` components vanish, `..`
   * removes the component before it, and a `..` that has nothing to remove is
   * kept on a relative path and dropped on a rooted one.
   */
  function Collapse(acc: seq<string>, comps: seq<string>, rooted: bool): seq<string>
    decreases |comps|
  {
    if |comps| == 0 then acc
    else
      var c := comps[0];
      var next :=
        if c == "" || c == "." then acc
        else if c != ".." || (!rooted && acc == []) || (acc != [] && acc[|acc| - 1] == "..") then acc + [c]
        else if acc != [] then acc[..|acc| - 1]
        else acc;
      Collapse(next, comps[1..], rooted)
  }

  /** `os.path.normpath(path)` on POSIX. */
  function Normpath(path: string): (r: string)
    ensures r != ""
    ensures StartsWith(path, "/") ==> StartsWith(r, "/")
  {
    if path == "" then "."
    else
      var slashes := InitialSlashes(path);
      var full := slashes + JoinWith(Collapse([], SplitOn(path, "/"), slashes != ""), "/");
      if full == "" then "." else full
  }

  /** `os.path.join(a, b)`: an absolute `b` replaces `a`, otherwise a `/` is put between them when `a` lacks one. */
  function Join(a: string, b: string): (r: string)
    ensures StartsWith(a, "/") ==> StartsWith(r, "/")
  {
    if StartsWith(b, "/") then b
    else if a == "" || a[|a| - 1] == '/' then a + b
    else a + "/" + b
  }

  /** `os.path.abspath(path)` with `cwd` standing for `os.getcwd()`. */
  function Abspath(cwd: string, path: string): (r: string)
    ensures StartsWith(cwd, "/") ==> StartsWith(r, "/")
  {
    Normpath(Join(cwd, path))
  }

  // ---------------------------------------------------------------------
  // Normalised paths are canonical, and normalising twice changes nothing.
  // ---------------------------------------------------------------------

  /** On a rooted path the component loop leaves only plain components. */
  lemma {:induction false} CollapseRootedPlain(acc: seq<string>, comps: seq<string>)
    requires AllPlain(acc)
    requires forall k :: 0 <= k < |comps| ==> '/' !in comps[k]
    ensures AllPlain(Collapse(acc, comps, true))
    decreases |comps|
  {
    if |comps| > 0 {
      var c := comps[0];
      if c == "" || c == "." {
        CollapseRootedPlain(acc, comps[1..]);
      } else if c != ".." {
        CollapseRootedPlain(acc + [c], comps[1..]);
      } else if acc != [] {
        CollapseRootedPlain(acc[..|acc| - 1], comps[1..]);
      } else {
        CollapseRootedPlain(acc, comps[1..]);
      }
    }
  }

  /** Plain components pass through the component loop unchanged. */
  lemma {:induction false} CollapseOfPlain(acc: seq<string>, comps: seq<string>, rooted: bool)
    requires AllPlain(comps)
    ensures Collapse(acc, comps, rooted) == acc + comps
    decreases |comps|
  {
    if |comps| > 0 {
      CollapseOfPlain(acc + [comps[0]], comps[1..], rooted);
      assert acc + [comps[0]] + comps[1..] == acc + comps;
    }
  }

  /** A piece produced by splitting on `/` holds no `/`. */
  lemma SplitPiecesHaveNoSlash(s: string)
    ensures forall k :: 0 <= k < |SplitOn(s, "/")| ==> '/' !in SplitOn(s, "/")[k]
    decreases |s|
  {
    var i := IndexOf(s, "/");
    assert forall j :: 0 <= j < i ==> (OccursAt(s, "/", j) <==> s[j] == '/');
    if i < |s| {
      SplitPiecesHaveNoSlash(s[i + 1..]);
    }
  }

  /**
   * The normal form of a rooted path: one or two slashes followed by plain
   * components separated by single slashes.
   */
  lemma NormpathRootedShape(path: string)
    requires StartsWith(path, "/")
    ensures var cs := Collapse([], SplitOn(path, "/"), true);
      AllPlain(cs) && Normpath(path) == InitialSlashes(path) + JoinWith(cs, "/")
  {
    SplitPiecesHaveNoSlash(path);
    CollapseRootedPlain([], SplitOn(path, "/"));
  }

  /** A join whose first component is not empty and holds no slash does not start with a slash. */
  lemma JoinPlainHead(cs: seq<string>)
    requires cs != [] && cs[0] != "" && '/' !in cs[0]
    ensures JoinWith(cs, "/") != "" && JoinWith(cs, "/")[0] != '/'
  {
    var body := JoinWith(cs, "/");
    if |cs| > 1 { assert body == cs[0] + "/" + JoinWith(cs[1..], "/"); }
    assert body[0] == cs[0][0];
    assert cs[0][0] in cs[0];
  }

  /** The pieces of a rebuilt path: one empty piece per leading slash, then the components. */
  lemma SplitOfShape(slashes: string, cs: seq<string>)
    requires slashes == "/" || slashes == "//"
    requires AllPlain(cs)
    ensures var pieces := if cs == [] then [""] else cs;
      SplitOn(slashes + JoinWith(cs, "/"), "/") == (if slashes == "/" then [""] else ["", ""]) + pieces
  {
    var body := JoinWith(cs, "/");
    var pieces := if cs == [] then [""] else cs;
    assert SplitOn(body, "/") == pieces by {
      if cs == [] {
        assert SplitOn("", "/") == [""];
      } else {
        assert "/"[0] == '/';
        forall k | 0 <= k < |cs| ensures "/"[0] !in cs[k] {
          assert IsPlain(cs[k]);
        }
        SplitJoin(cs, "/");
      }
    }
    SplitLeadingSeparator(body, "/");
    if slashes == "/" {
      assert slashes + body == "/" + body;
    } else {
      SplitLeadingSeparator("/" + body, "/");
      assert slashes + body == "/" + ("/" + body);
      assert [""] + ([""] + pieces) == ["", ""] + pieces;
    }
  }

  /** The leading slashes of a rebuilt path are the ones it was built with. */
  lemma InitialSlashesOfShape(slashes: string, cs: seq<string>)
    requires slashes == "/" || slashes == "//"
    requires AllPlain(cs)
    ensures InitialSlashes(slashes + JoinWith(cs, "/")) == slashes
  {
    var body := JoinWith(cs, "/");
    var p := slashes + body;
    if cs != [] { assert IsPlain(cs[0]); JoinPlainHead(cs); }
    if slashes == "//" && body != [] { assert p[2] == body[0]; }
  }

  /** The component loop over the pieces of a rebuilt path gives back its components. */
  lemma CollapseOfShape(slashes: string, cs: seq<string>)
    requires slashes == "/" || slashes == "//"
    requires AllPlain(cs)
    ensures Collapse([], SplitOn(slashes + JoinWith(cs, "/"), "/"), true) == cs
  {
    SplitOfShape(slashes, cs);
    var pieces := if cs == [] then [""] else cs;
    assert Collapse([], pieces, true) == cs by {
      if cs == [] { assert Collapse([], [""], true) == Collapse([], [], true); }
      else { CollapseOfPlain([], cs, true); }
    }
    var prefix := if slashes == "/" then [""] else ["", ""];
    assert (prefix + pieces)[1..] == prefix[1..] + pieces;
    if slashes == "//" {
      assert ([""] + pieces)[1..] == pieces;
    }
  }

  /** Rebuilding a path from its slashes and plain components, then normalising, gives it back. */
  lemma NormpathOfShape(slashes: string, cs: seq<string>)
    requires slashes == "/" || slashes == "//"
    requires AllPlain(cs)
    ensures Normpath(slashes + JoinWith(cs, "/")) == slashes + JoinWith(cs, "/")
  {
    InitialSlashesOfShape(slashes, cs);
    CollapseOfShape(slashes, cs);
  }

  /** `normpath` is idempotent on rooted paths. */
  lemma NormpathIdempotent(path: string)
    requires StartsWith(path, "/")
    ensures Normpath(Normpath(path)) == Normpath(path)
  {
    NormpathRootedShape(path);
    NormpathOfShape(InitialSlashes(path), Collapse([], SplitOn(path, "/"), true));
  }

  // ---------------------------------------------------------------------
  // Normalising a rooted path given by its components.
  // ---------------------------------------------------------------------

  /** Joining two non-empty runs of components is joining each and putting a slash between them. */
  lemma {:induction false} JoinAppend(a: seq<string>, b: seq<string>)
    requires a != [] && b != []
    ensures JoinWith(a + b, "/") == JoinWith(a, "/") + "/" + JoinWith(b, "/")
    decreases |a|
  {
    if |a| > 1 {
      JoinAppend(a[1..], b);
      assert (a + b)[1..] == a[1..] + b;
    } else {
      assert (a + b)[1..] == b;
    }
  }

  /**
   * A path made of one slash and components (none empty at the front) is
   * normalised by running the component loop over those components.
   */
  lemma NormpathOfComponents(cs: seq<string>)
    requires cs != [] && cs[0] != ""
    requires forall k :: 0 <= k < |cs| ==> '/' !in cs[k]
    ensures Normpath("/" + JoinWith(cs, "/")) == "/" + JoinWith(Collapse([], cs, true), "/")
  {
    var body := JoinWith(cs, "/");
    var p := "/" + body;
    assert body[0] == cs[0][0] by {
      if |cs| > 1 { assert body == cs[0] + "/" + JoinWith(cs[1..], "/"); }
    }
    assert cs[0][0] != '/' by { assert cs[0][0] in cs[0]; }
    assert InitialSlashes(p) == "/" by { assert p[1] == body[0]; }
    SplitJoin(cs, "/");
    SplitLeadingSeparator(body, "/");
    assert ([""] + cs)[1..] == cs;
  }

  /** A join whose last component is not empty and holds no slash does not end with a slash. */
  lemma JoinPlainLast(cs: seq<string>)
    requires cs != [] && cs[|cs| - 1] != "" && '/' !in cs[|cs| - 1]
    ensures JoinWith(cs, "/") != "" && JoinWith(cs, "/")[|JoinWith(cs, "/")| - 1] != '/'
  {
    var last := cs[|cs| - 1];
    if |cs| > 1 {
      JoinAppend(cs[..|cs| - 1], [last]);
      assert cs[..|cs| - 1] + [last] == cs;
    }
    assert last[|last| - 1] in last;
  }

  /** The component loop over two runs is the loop over the second, started from the result of the first. */
  lemma {:induction false} CollapseAppend(acc: seq<string>, a: seq<string>, b: seq<string>, rooted: bool)
    ensures Collapse(acc, a + b, rooted) == Collapse(Collapse(acc, a, rooted), b, rooted)
    decreases |a|
  {
    if |a| > 0 {
      assert (a + b)[0] == a[0] && (a + b)[1..] == a[1..] + b;
      var c := a[0];
      var next :=
        if c == "" || c == "." then acc
        else if c != ".." || (!rooted && acc == []) || (acc != [] && acc[|acc| - 1] == "..") then acc + [c]
        else if acc != [] then acc[..|acc| - 1]
        else acc;
      CollapseAppend(next, a[1..], b, rooted);
    } else {
      assert a + b == b;
    }
  }

  predicate NoSlashes(cs: seq<string>)
  {
    forall k :: 0 <= k < |cs| ==> '/' !in cs[k]
  }

  lemma PlainHasNoSlashes(cs: seq<string>)
    requires AllPlain(cs)
    ensures NoSlashes(cs) && (cs != [] ==> cs[0] != "")
  {
    forall k | 0 <= k < |cs| ensures '/' !in cs[k] {
      assert IsPlain(cs[k]);
    }
    if cs != [] { assert IsPlain(cs[0]); }
  }

  /**
   * Under a canonical working directory, a relative path whose first
   * component is a name, `.` or `..` resolves by running the component loop
   * over the working directory's components followed by its own.
   */
  lemma AbspathUnder(base: seq<string>, rel: seq<string>)
    requires AllPlain(base)
    requires rel != [] && rel[0] != "" && NoSlashes(rel)
    ensures Abspath("/" + JoinWith(base, "/"), JoinWith(rel, "/")) ==
      "/" + JoinWith(Collapse([], base + rel, true), "/")
  {
    if base == [] {
      AbspathAtRoot(rel);
      assert base + rel == rel;
    } else {
      AbspathBelowRoot(base, rel);
    }
  }

  /** At the working directory `/`, a relative path resolves by the component loop over its own components. */
  lemma AbspathAtRoot(rel: seq<string>)
    requires rel != [] && rel[0] != "" && NoSlashes(rel)
    ensures Abspath("/" + JoinWith([], "/"), JoinWith(rel, "/")) == "/" + JoinWith(Collapse([], rel, true), "/")
  {
    var r := JoinWith(rel, "/");
    JoinPlainHead(rel);
    assert !StartsWith(r, "/");
    assert "/" + JoinWith([], "/") == "/";
    assert Join("/", r) == "/" + r;
    NormpathOfComponents(rel);
  }

  lemma AbspathBelowRoot(base: seq<string>, rel: seq<string>)
    requires base != [] && AllPlain(base)
    requires rel != [] && rel[0] != "" && NoSlashes(rel)
    ensures Abspath("/" + JoinWith(base, "/"), JoinWith(rel, "/")) ==
      "/" + JoinWith(Collapse([], base + rel, true), "/")
  {
    var cwd, r := "/" + JoinWith(base, "/"), JoinWith(rel, "/");
    JoinPlainHead(rel);
    assert !StartsWith(r, "/");
    assert IsPlain(base[|base| - 1]);
    JoinPlainLast(base);
    assert cwd[|cwd| - 1] != '/';
    JoinAppend(base, rel);
    assert Join(cwd, r) == "/" + JoinWith(base + rel, "/");
    var cs := base + rel;
    PlainHasNoSlashes(base);
    assert NoSlashes(cs) by {
      forall k | 0 <= k < |cs| ensures '/' !in cs[k] {
        if k < |base| { assert cs[k] == base[k]; } else { assert cs[k] == rel[k - |base|]; }
      }
    }
    assert cs[0] == base[0];
    NormpathOfComponents(cs);
  }

  /** Under a canonical working directory, a relative path of plain components resolves to the directory's components followed by its own. */
  lemma AbspathOfPlain(base: seq<string>, rel: seq<string>)
    requires rel != [] && AllPlain(base) && AllPlain(rel)
    ensures Abspath("/" + JoinWith(base, "/"), JoinWith(rel, "/")) == "/" + JoinWith(base + rel, "/")
  {
    PlainHasNoSlashes(rel);
    AbspathUnder(base, rel);
    assert AllPlain(base + rel);
    CollapseOfPlain([], base + rel, true);
    assert [] + (base + rel) == base + rel;
  }

  /** `.` resolves to the working directory itself. */
  lemma AbspathOfCurdir(base: seq<string>)
    requires AllPlain(base)
    ensures Abspath("/" + JoinWith(base, "/"), ".") == "/" + JoinWith(base, "/")
  {
    assert JoinWith(["."], "/") == ".";
    assert NoSlashes(["."]);
    AbspathUnder(base, ["."]);
    CollapseAppend([], base, ["."], true);
    CollapseOfPlain([], base, true);
    assert [] + base == base;
    assert Collapse(base, ["."], true) == Collapse(base, [], true);
  }

  /** A trailing slash on a relative path of plain components changes nothing. */
  lemma AbspathOfTrailingSlash(base: seq<string>, rel: seq<string>)
    requires rel != [] && AllPlain(base) && AllPlain(rel)
    ensures Abspath("/" + JoinWith(base, "/"), JoinWith(rel, "/") + "/") == "/" + JoinWith(base + rel, "/")
  {
    var rel' := rel + [""];
    JoinAppend(rel, [""]);
    assert JoinWith(rel, "/") + "/" == JoinWith(rel', "/");
    PlainHasNoSlashes(rel);
    assert NoSlashes(rel') by {
      forall k | 0 <= k < |rel'| ensures '/' !in rel'[k] {
        if k < |rel| { assert rel'[k] == rel[k]; } else { assert rel'[k] == ""; }
      }
    }
    assert rel'[0] == rel[0];
    AbspathUnder(base, rel');
    assert base + rel' == (base + rel) + [""];
    CollapseAppend([], base + rel, [""], true);
    assert AllPlain(base + rel);
    CollapseOfPlain([], base + rel, true);
    assert [] + (base + rel) == base + rel;
    assert Collapse(base + rel, [""], true) == Collapse(base + rel, [], true);
  }

  /**
   * A leading `..` on a relative path of plain components steps out of the
   * working directory's last component; at `/` it stays at `/`.
   */
  lemma AbspathOfParent(base: seq<string>, rest: seq<string>)
    requires AllPlain(base) && AllPlain(rest)
    ensures Abspath("/" + JoinWith(base, "/"), JoinWith([".."] + rest, "/")) ==
      "/" + JoinWith((if base == [] then [] else base[..|base| - 1]) + rest, "/")
  {
    if base == [] {
      ParentAtRoot(rest);
      assert base + rest == rest;
    } else {
      ParentBelowRoot(base, rest);
    }
  }

  lemma ParentBelowRoot(base: seq<string>, rest: seq<string>)
    requires base != [] && AllPlain(base) && AllPlain(rest)
    ensures Abspath("/" + JoinWith(base, "/"), JoinWith([".."] + rest, "/")) ==
      "/" + JoinWith(base[..|base| - 1] + rest, "/")
  {
    var rel := [".."] + rest;
    ParentStepShape(base, rest);
    AbspathUnder(base, rel);
    CollapseParent(base, rest);
  }

  lemma ParentAtRoot(rest: seq<string>)
    requires AllPlain(rest)
    ensures Abspath("/" + JoinWith([], "/"), JoinWith([".."] + rest, "/")) == "/" + JoinWith(rest, "/")
  {
    ParentStepShape([], rest);
    AbspathAtRoot([".."] + rest);
    CollapseParentAtRoot(rest);
  }

  /** At the root, `..` is dropped. */
  lemma CollapseParentAtRoot(rest: seq<string>)
    requires AllPlain(rest)
    ensures Collapse([], [".."] + rest, true) == rest
  {
    assert ([".."] + rest)[1..] == rest;
    CollapseOfPlain([], rest, true);
  }

  /** `..` followed by plain components has no slash in any component and does not start empty. */
  lemma ParentStepShape(base: seq<string>, rest: seq<string>)
    requires AllPlain(rest)
    ensures var rel := [".."] + rest;
      rel != [] && rel[0] != "" && NoSlashes(rel) && base + rel == (base + [".."]) + rest
  {
    var rel := [".."] + rest;
    PlainHasNoSlashes(rest);
    forall k | 0 < k < |rel| ensures '/' !in rel[k] {
      assert rel[k] == rest[k - 1];
    }
    assert rel[0] == "..";
  }

  lemma CollapseParent(base: seq<string>, rest: seq<string>)
    requires base != [] && AllPlain(base) && AllPlain(rest)
    ensures Collapse([], (base + [".."]) + rest, true) == base[..|base| - 1] + rest
  {
    CollapseAppend([], base + [".."], rest, true);
    CollapseParentHead(base);
    CollapseOfPlain(base[..|base| - 1], rest, true);
  }

  lemma CollapseParentHead(base: seq<string>)
    requires base != [] && AllPlain(base)
    ensures Collapse([], base + [".."], true) == base[..|base| - 1]
  {
    CollapseAppend([], base, [".."], true);
    CollapseOfPlain([], base, true);
    assert [] + base == base;
    assert IsPlain(base[|base| - 1]);
    CollapseDropLast(base);
  }

  /** On a rooted path, `..` after a name removes that name. */
  lemma CollapseDropLast(acc: seq<string>)
    requires acc != [] && acc[|acc| - 1] != ".."
    ensures Collapse(acc, [".."], true) == acc[..|acc| - 1]
  {
    assert [".."][0] == ".." && [".."][1..] == [];
  }
}
