/** Path algebra shared by the whiteout classifier and the tree. The source carries three
    identical copies of `split_path` (src/utils.rs, src/tree.rs, src/whiteout.rs); this
    module is the one definition all of them stand for. */
module Utils {
  import opened Wrappers
  import opened Strings

  /** The text after the last '/', or all of `p` when it has none:
      `p.rsplit('/').next().unwrap_or(p)`. Trailing slashes are not trimmed. */
  function AfterLastSlash(p: string): (r: string)
    ensures |r| <= |p| && r == p[|p| - |r|..]
    ensures '/' !in r
    ensures |r| < |p| ==> p[|p| - |r| - 1] == '/'
  {
    match LastIndexOf(p, '/')
    case None => p
    case Some(i) => p[i + 1..]
  }

  /** A piece with no slash is its own last slash-separated piece. */
  lemma AfterLastSlashNoSlash(h: string)
    requires '/' !in h
    ensures AfterLastSlash(h) == h
  {
  }

  /** `i` is where the last piece of `p` starts: at the front or just after a '/', with no
      '/' from there on. */
  predicate BasenameStart(p: string, i: int) {
    0 <= i <= |p| && (i == 0 || p[i - 1] == '/') && '/' !in p[i..]
  }

  /** Every path has exactly one such position, and `AfterLastSlash` starts there. */
  lemma BasenameStartUnique(p: string)
    ensures forall i :: BasenameStart(p, i) <==> i == |p| - |AfterLastSlash(p)|
  {
    var r := AfterLastSlash(p);
    var j := |p| - |r|;
    assert p[j..] == r;
    forall i | BasenameStart(p, i)
      ensures i == j
    {
    }
  }

  /** Splits a path into (directory, basename) after dropping every trailing '/'. */
  function SplitPath(p: string): (r: (string, string))
    ensures '/' !in r.1
    ensures var t := TrimEndMatches(p, "/");
      if '/' in t then r.0 + "/" + r.1 == t else r == ("", t)
  {
    var t := TrimEndMatches(p, "/");
    match LastIndexOf(t, '/')
    case None => ("", t)
    case Some(i) =>
      assert t == t[..i] + "/" + t[i + 1..];
      (t[..i], t[i + 1..])
  }

  /** The slash-separated pieces of `p`, empty ones included: `p.split('/')`. */
  function Segments(p: string): (r: seq<string>)
    ensures |r| >= 1
    ensures forall s :: s in r ==> '/' !in s
    ensures JoinPath(r) == p
    decreases |p|
  {
    match LastIndexOf(p, '/')
    case None => [p]
    case Some(i) =>
      var init := Segments(p[..i]);
      var r := init + [p[i + 1..]];
      assert r[..|r| - 1] == init;
      assert p == p[..i] + "/" + p[i + 1..];
      r
  }

  /** A name the tree walks through: not empty, not ".", no '/'. */
  predicate IsComponent(s: string) {
    s != "" && s != "." && '/' !in s
  }

  /** `ss` without its "" and "." entries, order kept. */
  function KeepComponents(ss: seq<string>): (r: seq<string>)
    ensures forall s :: s in r ==> s in ss && s != "" && s != "."
    ensures |r| <= |ss|
  {
    if ss == [] then []
    else
      var last := ss[|ss| - 1];
      assert ss == ss[..|ss| - 1] + [last];
      KeepComponents(ss[..|ss| - 1]) + (if last == "" || last == "." then [] else [last])
  }

  /** The names a path walks through: `p.split('/').filter(|p| !p.is_empty() && *p != ".")`. */
  function Components(p: string): (r: seq<string>)
    ensures forall s :: s in r ==> IsComponent(s)
  {
    KeepComponents(Segments(p))
  }

  /** The path a sequence of names spells, joined by single slashes. */
  function JoinPath(cs: seq<string>): string
  {
    if |cs| == 0 then ""
    else if |cs| == 1 then cs[0]
    else JoinPath(cs[..|cs| - 1]) + "/" + cs[|cs| - 1]
  }

  /** Directory and name glued back together, without a slash when the directory is empty. */
  function JoinDir(d: string, b: string): string
  {
    if d == "" then b else d + "/" + b
  }

  /** The last slash of `a + "/" + b` is the one between them when `b` has none. */
  lemma LastSlashOfJoin(a: string, b: string)
    requires '/' !in b
    ensures LastIndexOf(a + "/" + b, '/') == Some(|a|)
  {
    var s := a + "/" + b;
    assert s[|a|] == '/';
    assert s[|a| + 1..] == b;
  }

  /** The doc-comment and unit-test examples of `split_path`: one directory level. */
  lemma SplitPathOneLevel()
    ensures SplitPath("foo/bar") == ("foo", "bar")
  {
    SplitOfSlashJoin("foo", "bar");
    assert "foo/bar" == "foo" + "/" + "bar";
  }

  /** The doc-comment and unit-test examples of `split_path`: two directory levels. */
  lemma SplitPathTwoLevels()
    ensures SplitPath("foo/bar/baz") == ("foo/bar", "baz")
  {
    SplitOfSlashJoin("foo/bar", "baz");
    assert "foo/bar/baz" == "foo/bar" + "/" + "baz";
  }

  /** The doc-comment and unit-test example of `split_path` without a slash. */
  lemma SplitPathBare()
    ensures SplitPath("file") == ("", "file")
  {
    SplitOfBare("file");
  }

  /** The doc-comment and unit-test example of `split_path` with a trailing slash. */
  lemma SplitPathTrailing()
    ensures SplitPath("foo/bar/") == ("foo", "bar")
  {
    SplitPathOneLevel();
    SplitIgnoresTrailingSlash("foo/bar");
    assert "foo/bar/" == "foo/bar" + "/";
  }

  /** The unit-test example of `split_path` where a leading slash stays in the directory part. */
  lemma SplitPathRootedDir()
    ensures SplitPath("/root/file") == ("/root", "file")
  {
    SplitOfSlashJoin("/root", "file");
    assert "/root/file" == "/root" + "/" + "file";
  }

  /** The unit-test example of `split_path` where a lone leading slash leaves the directory
      part empty. */
  lemma SplitPathRootedFile()
    ensures SplitPath("/file") == ("", "file")
  {
    SplitOfSlashJoin("", "file");
    assert "/file" == "" + "/" + "file";
  }

  /** A directory, a slash and a non-empty slash-free name split back into the two parts. */
  lemma SplitOfSlashJoin(d: string, b: string)
    requires b != "" && '/' !in b
    ensures SplitPath(d + "/" + b) == (d, b)
  {
    var s := d + "/" + b;
    assert s[|s| - 1] == b[|b| - 1];
    assert !EndsWith(s, "/");
    LastSlashOfJoin(d, b);
    assert s[..|d|] == d && s[|d| + 1..] == b;
  }

  /** A non-empty slash-free name is all basename. */
  lemma SplitOfBare(b: string)
    requires b != "" && '/' !in b
    ensures SplitPath(b) == ("", b)
  {
    assert b[|b| - 1] in b;
  }

  /** Splitting inverts joining: a directory and a non-empty slash-free name come back apart. */
  lemma SplitJoin(d: string, b: string)
    requires b != "" && '/' !in b
    ensures SplitPath(d + "/" + b) == (d, b)
    ensures SplitPath(b) == ("", b)
    ensures SplitPath(JoinDir(d, b)) == (if d == "" then ("", b) else (d, b))
  {
    SplitOfSlashJoin(d, b);
    SplitOfBare(b);
  }

  /** Trailing slashes are insignificant to `split_path`. */
  lemma SplitIgnoresTrailingSlash(p: string)
    ensures SplitPath(p + "/") == SplitPath(p)
  {
    assert EndsWith(p + "/", "/");
    assert (p + "/")[..|p + "/"| - 1] == p;
  }

  /** The basename a split yields is the text after the last slash once trailing slashes are gone. */
  lemma SplitBaseIsLastPiece(p: string)
    ensures SplitPath(p).1 == AfterLastSlash(TrimEndMatches(p, "/"))
  {
  }

  /** Trailing slashes add only empty pieces, so they leave the components alone. */
  lemma {:induction false} ComponentsIgnoreTrailingSlashes(p: string)
    ensures Components(TrimEndMatches(p, "/")) == Components(p)
    decreases |p|
  {
    if EndsWith(p, "/") {
      var q := p[..|p| - 1];
      assert p == q + "/" + "";
      LastSlashOfJoin(q, "");
      assert Segments(p) == Segments(q) + [""];
      assert KeepComponents(Segments(p)) == KeepComponents(Segments(q));
      ComponentsIgnoreTrailingSlashes(q);
    }
  }

  /** A slash-free path walks at most one key: itself, unless it is "" or ".". */
  lemma ComponentsOfSlashFree(s: string)
    requires '/' !in s
    ensures Components(s) == (if s == "" || s == "." then [] else [s])
  {
    assert Segments(s) == [s];
    assert KeepComponents([s]) == KeepComponents([]) + (if s == "" || s == "." then [] else [s]);
  }

  /** The components of a path are those of its directory part, then its basename unless
      that is "" or ".". */
  lemma ComponentsOfSplit(p: string)
    ensures var (d, b) := SplitPath(p);
      Components(p) == Components(d) + (if b == "" || b == "." then [] else [b])
  {
    ComponentsIgnoreTrailingSlashes(p);
    var t := TrimEndMatches(p, "/");
    var (d, b) := SplitPath(p);
    if '/' in t {
      ComponentsOfAppend(d, b);
    } else {
      ComponentsOfSlashFree(t);
      ComponentsOfSlashFree("");
    }
  }

  /** The empty path and "." walk nowhere. */
  lemma ComponentsOfTrivial()
    ensures Components("") == []
    ensures Components(".") == []
  {
    assert Segments("") == [""];
    assert Segments(".") == ["."];
    assert KeepComponents(["."]) == KeepComponents([]);
  }

  /** Appending "/" and a slash-free name appends that name, unless it is "" or ".". */
  lemma ComponentsOfAppend(p: string, b: string)
    requires '/' !in b
    ensures Components(p + "/" + b) == Components(p) + (if b == "" || b == "." then [] else [b])
  {
    var s := p + "/" + b;
    LastSlashOfJoin(p, b);
    assert s[..|p|] == p;
    assert s[|p| + 1..] == b;
    assert Segments(s) == Segments(p) + [b];
  }

  /** A single component is its own path. */
  lemma ComponentsOfSingle(c: string)
    requires IsComponent(c)
    ensures Components(c) == [c]
  {
    assert Segments(c) == [c];
    assert KeepComponents([c]) == KeepComponents([]) + [c];
  }

  /** A non-empty sequence is its front followed by its last element. */
  lemma FrontThenLast<T>(xs: seq<T>)
    requires xs != []
    ensures xs[..|xs| - 1] + [xs[|xs| - 1]] == xs
  {
  }

  /** Splitting into components inverts joining with slashes. */
  lemma {:induction false} ComponentsOfJoin(cs: seq<string>)
    requires forall i :: 0 <= i < |cs| ==> IsComponent(cs[i])
    ensures Components(JoinPath(cs)) == cs
    decreases |cs|
  {
    if |cs| == 0 {
      assert Segments("") == [""];
    } else if |cs| == 1 {
      ComponentsOfSingle(cs[0]);
    } else {
      var init, last := cs[..|cs| - 1], cs[|cs| - 1];
      assert IsComponent(last);
      ComponentsOfJoin(init);
      ComponentsOfAppend(JoinPath(init), last);
      FrontThenLast(cs);
    }
  }
}
