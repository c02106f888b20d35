/**
 * What the handler does with particular kinds of request, worked out on the
 * model: the bare `/` target, a line the pattern rejects, a line without a
 * method, a request of line breaks only, paths that climb out of the
 * working directory, and a directory named without its trailing slash.
 * The working directory is written `"/" + JoinWith(base, "/")` for its
 * components `base`, the form `os.getcwd()` returns.
 */
module ServerScenarios {
  import opened Wrappers
  import opened Text
  import opened Url
  import opened PosixPath
  import opened RequestLine
  import opened HttpResponse
  import opened HttpServer

  // ---------------------------------------------------------------------
  // The request line.
  // ---------------------------------------------------------------------

  lemma WrittenRootLine()
    ensures WrittenLine(GET, "") == "GET / HTTP/1.1"
  {
    assert Quote("") == "";
  }

  /**
   * `GET / HTTP/1.1` asks for the empty path, which names nothing, so the
   * site root is answered 404 whatever the file system holds.
   */
  lemma RootRequestNotFound(env: Env, m: Method, headers: string)
    ensures ParseRequest(env, RequestText(m, "", headers)) == Ok(Status(NOT_FOUND))
  {
    RequestTextParses(env, m, "", headers);
    assert Lookup(env, "") == None;
  }

  /** An upper-case word alone is not a request line. */
  lemma WordIsMalformed(line: string)
    requires forall k :: 0 <= k < |line| ==> IsUpper(line[k])
    ensures ParseLine(line) == Malformed
  {
    assert Span(line, IsUpper) == |line|;
  }

  /**
   * A request whose first line is a bare upper-case word, such as
   * `GARBAGE`, does not fit the pattern and is answered 403, not 400.
   */
  lemma MalformedLineForbidden(env: Env, word: string, rest: string)
    requires word != "" && forall k :: 0 <= k < |word| ==> IsUpper(word[k])
    ensures ParseRequest(env, word + CRLF + rest) == Ok(Status(FORBIDDEN))
  {
    assert '\r' !in word by {
      forall k | 0 <= k < |word| ensures word[k] != '\r' {
        assert IsUpper(word[k]);
      }
    }
    RequestLinesCons(word, rest);
    WordIsMalformed(word);
  }

  lemma NoMethodText()
    ensures " / HTTP/1.1\r\n" == " / HTTP/1.1" + CRLF + ""
    ensures " / HTTP/1.1" == "" + " /" + "" + " HTTP/" + "1.1"
  {
  }

  /** A line with no method at all fits the pattern with an empty method and is answered 405. */
  lemma EmptyMethodNotAllowed(env: Env)
    ensures ParseRequest(env, " / HTTP/1.1\r\n") == Ok(Status(NOT_ALLOWED))
  {
    var line := " / HTTP/1.1";
    NoMethodText();
    assert RequestLines(" / HTTP/1.1\r\n") == [line] by {
      assert '\r' !in line;
      RequestLinesCons(line, "");
      RequestLinesEmpty();
    }
    MatchWritten("", "", "1.1");
  }

  /** `k` CRLFs and nothing else. */
  function Breaks(k: nat): (r: string)
    ensures |r| == 2 * k
  {
    if k == 0 then "" else CRLF + Breaks(k - 1)
  }

  /**
   * A request made only of CRLFs holds no request line: `request[0]` raises
   * IndexError and no response is sent.
   */
  lemma OnlyLineBreaksUnanswered(env: Env, date: string, k: nat)
    ensures RequestLines(Breaks(k)) == []
    ensures Exchange(env, date, Breaks(k)) == None
  {
    BreaksHoldNoLine(k);
  }

  lemma {:induction false} BreaksHoldNoLine(k: nat)
    ensures RequestLines(Breaks(k)) == []
  {
    if k == 0 {
      RequestLinesEmpty();
    } else {
      BreaksHoldNoLine(k - 1);
      RequestLinesBreak(Breaks(k - 1));
    }
  }

  /**
   * Bare line feeds are not line breaks to `split('\r\n')`: `\n\n` is one
   * request line, which does not fit the pattern, so it is answered 403.
   */
  lemma BareLineFeedsForbidden(env: Env)
    ensures RequestLines("\n\n") == ["\n\n"]
    ensures ParseRequest(env, "\n\n") == Ok(Status(FORBIDDEN))
  {
    var line := "\n\n";
    assert CRLF[0] !in line;
    IndexOfAbsent(line, CRLF);
    assert Span(line, IsUpper) == 0;
  }

  // ---------------------------------------------------------------------
  // The containment test.
  // ---------------------------------------------------------------------

  lemma RootIsCwd(env: Env, base: seq<string>)
    requires AllPlain(base) && env.cwd == "/" + JoinWith(base, "/")
    ensures Root(env) == env.cwd
  {
    AbspathOfCurdir(base);
  }

  /** Under a common parent, a run of components starts with another exactly when its first name does. */
  lemma SiblingPrefix(parent: seq<string>, name: string, other: seq<string>)
    requires other != []
    ensures StartsWith("/" + JoinWith(parent + other, "/"), "/" + JoinWith(parent + [name], "/"))
      <==> StartsWith(JoinWith(other, "/"), name)
  {
    var p := if parent == [] then "/" else "/" + JoinWith(parent, "/") + "/";
    if parent != [] {
      JoinAppend(parent, other);
      JoinAppend(parent, [name]);
      assert "/" + JoinWith(parent + other, "/") == p + JoinWith(other, "/");
      assert "/" + JoinWith(parent + [name], "/") == p + name;
    } else {
      assert parent + other == other && parent + [name] == [name];
    }
    PrefixCancel(p, JoinWith(other, "/"), name);
  }

  lemma PrefixCancel(p: string, a: string, b: string)
    ensures StartsWith(p + a, p + b) <==> StartsWith(a, b)
  {
    if StartsWith(p + a, p + b) {
      assert a[..|b|] == (p + a)[..|p| + |b|][|p|..];
    }
    if StartsWith(a, b) {
      assert (p + a)[..|p| + |b|] == p + a[..|b|];
    }
  }

  /**
   * The containment test compares strings, not path components: from the
   * root `/srv/www`, `../www2/a` resolves to `/srv/www2/a`, which starts
   * with `/srv/www`. Any sibling directory whose name extends the root's
   * last name passes, and its readable files are served.
   */
  lemma SiblingPassesContainment(env: Env, m: Method, parent: seq<string>, name: string, suffix: string,
                                 file: string, content: seq<byte>)
    requires AllPlain(parent + [name])
    requires IsPlain(name + suffix) && IsPlain(file)
    requires env.cwd == "/" + JoinWith(parent + [name], "/")
    requires '\0' !in JoinWith(["..", name + suffix, file], "/")
    requires var full := "/" + JoinWith(parent + [name + suffix, file], "/");
      full in env.fs && env.fs[full] == File(content, true)
    ensures var path := JoinWith(["..", name + suffix, file], "/");
      InsideRoot(env, path) &&
      ProcessRequest(env, m, path) == Ok(Reply(OK, Some(m), Some(content), Some(env.guessType(path))))
  {
    var path := JoinWith(["..", name + suffix, file], "/");
    SiblingInside(env, parent, name, suffix, file);
    AllPlainAppend(parent, [name]);
    AllPlainAppend(parent, [name + suffix, file]);
    LookupAt(env, path, parent + [name + suffix, file]);
    ServesFile(env, m, path, content);
  }

  /** Where the sibling's path resolves, and that it passes the containment test. */
  lemma SiblingInside(env: Env, parent: seq<string>, name: string, suffix: string, file: string)
    requires AllPlain(parent + [name])
    requires IsPlain(name + suffix) && IsPlain(file)
    requires env.cwd == "/" + JoinWith(parent + [name], "/")
    ensures var path := JoinWith(["..", name + suffix, file], "/");
      && path != ""
      && Abspath(env.cwd, path) == "/" + JoinWith(parent + [name + suffix, file], "/")
      && InsideRoot(env, path)
  {
    var base := parent + [name];
    RootIsCwd(env, base);
    ParentStep(env, parent, name, [name + suffix, file]);
    SiblingText(name, suffix, file);
    SiblingPrefix(parent, name, [name + suffix, file]);
  }

  lemma SiblingText(name: string, suffix: string, file: string)
    ensures [".."] + [name + suffix, file] == ["..", name + suffix, file]
    ensures JoinWith(["..", name + suffix, file], "/") != ""
    ensures StartsWith(JoinWith([name + suffix, file], "/"), name)
  {
    assert JoinWith([name + suffix, file], "/") == name + suffix + "/" + file;
    assert (name + suffix + "/" + file)[..|name|] == name;
  }

  /** One step up from the working directory lands in its parent. */
  lemma ParentStep(env: Env, parent: seq<string>, name: string, rest: seq<string>)
    requires AllPlain(parent + [name]) && AllPlain(rest)
    requires env.cwd == "/" + JoinWith(parent + [name], "/")
    ensures Abspath(env.cwd, JoinWith([".."] + rest, "/")) == "/" + JoinWith(parent + rest, "/")
  {
    var base := parent + [name];
    AbspathOfParent(base, rest);
    assert base[..|base| - 1] == parent;
  }

  /**
   * A path that climbs out of the root into a directory whose name does not
   * extend the root's last name is refused with 403 when it names something,
   * and answered 404 otherwise.
   */
  lemma ParentEscapeRefused(env: Env, m: Method, parent: seq<string>, name: string, rest: seq<string>)
    requires AllPlain(parent + [name])
    requires rest != [] && AllPlain(rest) && !StartsWith(JoinWith(rest, "/"), name)
    requires env.cwd == "/" + JoinWith(parent + [name], "/")
    requires '\0' !in JoinWith([".."] + rest, "/")
    ensures var path := JoinWith([".."] + rest, "/");
      && !InsideRoot(env, path)
      && ProcessRequest(env, m, path) ==
           Ok(Status(if "/" + JoinWith(parent + rest, "/") in env.fs then FORBIDDEN else NOT_FOUND))
  {
    RootIsCwd(env, parent + [name]);
    ParentStep(env, parent, name, rest);
    SiblingPrefix(parent, name, rest);
    assert JoinWith([".."] + rest, "/") != "" by {
      JoinAppend([".."], rest);
    }
    AllPlainAppend(parent, [name]);
    AllPlainAppend(parent, rest);
    LookupAt(env, JoinWith([".."] + rest, "/"), parent + rest);
  }

  /**
   * A target such as `/%2F%2Fetc/passwd` decodes to a path with two leading
   * slashes. `normpath` keeps both, so the path does not start with a root
   * other than `/`; the kernel reads them as one, so the request is refused
   * with 403 exactly when the file exists at the top of the file system.
   */
  lemma DoubleSlashOutsideRoot(env: Env, m: Method, base: seq<string>, cs: seq<string>)
    requires base != [] && AllPlain(base) && env.cwd == "/" + JoinWith(base, "/")
    requires AllPlain(cs) && '\0' !in JoinWith(cs, "/")
    ensures var path := "//" + JoinWith(cs, "/");
      && Abspath(env.cwd, path) == path
      && !InsideRoot(env, path)
      && ProcessRequest(env, m, path) ==
           Ok(Status(if "/" + JoinWith(cs, "/") in env.fs then FORBIDDEN else NOT_FOUND))
  {
    DoubleSlashPath(env.cwd, cs);
    RootIsCwd(env, base);
    JoinPlainHead(base);
    assert ("//" + JoinWith(cs, "/"))[1] != ("/" + JoinWith(base, "/"))[1];
  }

  /** A path with two leading slashes and plain components is already normal, and resolves without its first slash. */
  lemma DoubleSlashPath(cwd: string, cs: seq<string>)
    requires AllPlain(cs) && '\0' !in JoinWith(cs, "/")
    ensures var path := "//" + JoinWith(cs, "/");
      && path != "" && '\0' !in path
      && Abspath(cwd, path) == path
      && Resolved(path) == "/" + JoinWith(cs, "/")
  {
    var path := "//" + JoinWith(cs, "/");
    assert StartsWith(path, "/");
    NormpathOfShape("//", cs);
    assert Resolved(path) == "/" + JoinWith(cs, "/") by {
      assert StartsWith(path, "//");
      assert path == "/" + ("/" + JoinWith(cs, "/"));
    }
    assert '\0' !in path by {
      assert forall k :: 2 <= k < |path| ==> path[k] == JoinWith(cs, "/")[k - 2];
    }
  }

  // ---------------------------------------------------------------------
  // Directory indexes.
  // ---------------------------------------------------------------------

  lemma IndexNameIsPlain(d: string)
    requires IsPlain(d)
    ensures IsPlain(d + "index.html") && IsPlain("index.html")
  {
    assert '/' !in "index.html";
  }

  /** Where a directory name and its index names resolve under a canonical working directory. */
  lemma DirectoryPaths(env: Env, base: seq<string>, d: string)
    requires AllPlain(base) && env.cwd == "/" + JoinWith(base, "/")
    requires IsPlain(d)
    ensures Abspath(env.cwd, d) == "/" + JoinWith(base + [d], "/")
    ensures Abspath(env.cwd, d + "/") == "/" + JoinWith(base + [d], "/")
    ensures Abspath(env.cwd, IndexFile(d)) == "/" + JoinWith(base + [d + "index.html"], "/")
    ensures Abspath(env.cwd, IndexFile(d + "/")) == "/" + JoinWith(base + [d, "index.html"], "/")
  {
    IndexNameIsPlain(d);
    assert JoinWith([d], "/") == d;
    assert JoinWith([d + "index.html"], "/") == d + "index.html";
    assert JoinWith([d, "index.html"], "/") == d + "/index.html";
    AbspathOfPlain(base, [d]);
    AbspathOfTrailingSlash(base, [d]);
    AbspathOfPlain(base, [d + "index.html"]);
    AbspathOfPlain(base, [d, "index.html"]);
  }

  /** A name under the working directory passes the containment test. */
  lemma ChildInside(env: Env, base: seq<string>, d: string, path: string)
    requires AllPlain(base) && env.cwd == "/" + JoinWith(base, "/")
    requires Abspath(env.cwd, path) == "/" + JoinWith(base + [d], "/")
    ensures InsideRoot(env, path)
  {
    RootIsCwd(env, base);
    assert JoinWith([d], "/") == d;
    if base == [] {
      assert base + [d] == [d];
      assert StartsWith("/" + d, "/" + JoinWith(base, "/"));
    } else {
      JoinAppend(base, [d]);
      assert StartsWith("/" + JoinWith(base, "/") + "/" + d, "/" + JoinWith(base, "/")) by {
        PrefixCancel("/" + JoinWith(base, "/"), "/" + d, "");
      }
    }
  }

  /**
   * A directory is served through its index only when named with a
   * trailing slash: `docs` looks for `docsindex.html` and is answered 404
   * when there is none, even though `docs/index.html` exists.
   */
  lemma DirectoryWithoutSlashNotFound(env: Env, m: Method, base: seq<string>, d: string)
    requires AllPlain(base) && env.cwd == "/" + JoinWith(base, "/")
    requires IsPlain(d) && '\0' !in d
    requires "/" + JoinWith(base + [d], "/") in env.fs && env.fs["/" + JoinWith(base + [d], "/")] == Dir(true)
    requires "/" + JoinWith(base + [d + "index.html"], "/") !in env.fs
    ensures ProcessRequest(env, m, d) == Ok(Status(NOT_FOUND))
  {
    DirectoryLookups(env, base, d);
    MissingIndexNotFound(env, m, d);
  }

  /** Named with its trailing slash, a readable directory inside the root serves its `index.html`. */
  lemma DirectoryWithSlashServesIndex(env: Env, m: Method, base: seq<string>, d: string, content: seq<byte>)
    requires AllPlain(base) && env.cwd == "/" + JoinWith(base, "/")
    requires IsPlain(d) && '\0' !in d
    requires "/" + JoinWith(base + [d], "/") in env.fs && env.fs["/" + JoinWith(base + [d], "/")] == Dir(true)
    requires var index := "/" + JoinWith(base + [d, "index.html"], "/");
      index in env.fs && env.fs[index] == File(content, true)
    ensures ProcessRequest(env, m, d + "/") ==
      Ok(Reply(OK, Some(m), Some(content), Some(env.guessType(d + "/index.html"))))
  {
    SlashDirectoryLookups(env, base, d);
    SlashIndexName(d);
    ServesIndex(env, m, d + "/", content);
  }

  /** What a directory name and its index name find, and that the name passes the containment test. */
  lemma DirectoryLookups(env: Env, base: seq<string>, d: string)
    requires AllPlain(base) && env.cwd == "/" + JoinWith(base, "/")
    requires IsPlain(d) && '\0' !in d
    ensures InsideRoot(env, d)
    ensures var dir := "/" + JoinWith(base + [d], "/");
      Lookup(env, d) == if dir in env.fs then Some(env.fs[dir]) else None
    ensures var index := "/" + JoinWith(base + [d + "index.html"], "/");
      Lookup(env, IndexFile(d)) == if index in env.fs then Some(env.fs[index]) else None
  {
    DirectoryPaths(env, base, d);
    ChildInside(env, base, d, d);
    IndexNameHasNoNul(d);
    IndexNameIsPlain(d);
    AllPlainAppend(base, [d]);
    AllPlainAppend(base, [d + "index.html"]);
    LookupAt(env, d, base + [d]);
    LookupAt(env, IndexFile(d), base + [d + "index.html"]);
  }

  /** The same for the directory name with its trailing slash. */
  lemma SlashDirectoryLookups(env: Env, base: seq<string>, d: string)
    requires AllPlain(base) && env.cwd == "/" + JoinWith(base, "/")
    requires IsPlain(d) && '\0' !in d
    ensures InsideRoot(env, d + "/")
    ensures var dir := "/" + JoinWith(base + [d], "/");
      Lookup(env, d + "/") == if dir in env.fs then Some(env.fs[dir]) else None
    ensures var index := "/" + JoinWith(base + [d, "index.html"], "/");
      Lookup(env, IndexFile(d + "/")) == if index in env.fs then Some(env.fs[index]) else None
  {
    DirectoryPaths(env, base, d);
    ChildInside(env, base, d, d + "/");
    SlashIndexName(d);
    IndexNameIsPlain(d);
    AllPlainAppend(base, [d]);
    AllPlainAppend(base, [d, "index.html"]);
    LookupAt(env, d + "/", base + [d]);
    LookupAt(env, IndexFile(d + "/"), base + [d, "index.html"]);
  }

  lemma IndexNameHasNoNul(d: string)
    requires '\0' !in d
    ensures IndexFile(d) != "" && '\0' !in IndexFile(d)
  {
    var name := "index.html";
    assert '\0' !in name;
    assert IndexFile(d) == d + name;
  }

  lemma SlashIndexName(d: string)
    requires '\0' !in d
    ensures IndexFile(d + "/") == d + "/index.html" && d + "/" + "index.html" == d + "/index.html"
    ensures d + "/" != "" && '\0' !in d + "/" && '\0' !in IndexFile(d + "/")
  {
  }

  /** The entry a path names, once its absolute form is known to be canonical. */
  lemma LookupAt(env: Env, path: string, cs: seq<string>)
    requires AllPlain(cs)
    requires path != "" && '\0' !in path && Abspath(env.cwd, path) == "/" + JoinWith(cs, "/")
    ensures var full := "/" + JoinWith(cs, "/");
      Lookup(env, path) == if full in env.fs then Some(env.fs[full]) else None
  {
    ResolvedCanonical(cs);
  }
}
