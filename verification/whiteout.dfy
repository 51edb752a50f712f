/** Recognition of the deletion markers of the OCI image layer format (the "Whiteouts"
    part of the OCI Image Layer Specification): `.wh.<name>` deletes the sibling `<name>`,
    and `.wh..wh..opq` hides everything earlier layers put in its directory. */
module Whiteout {
  import opened Strings
  import opened Utils

  const WhiteoutPrefix: string := ".wh."
  const OpaqueWhiteout: string := ".wh..wh..opq"

  /** The basename (text after the last '/') starts with the whiteout prefix. Trailing
      slashes are not trimmed first, so `d/.wh.x/` is no marker. */
  predicate IsWhiteout(p: string)
    ensures IsWhiteout(p) <==> exists i :: BasenameStart(p, i) && StartsWith(p[i..], WhiteoutPrefix)
  {
    BasenameStartUnique(p);
    StartsWith(AfterLastSlash(p), WhiteoutPrefix)
  }

  /** The basename is exactly the opaque marker. */
  predicate IsOpaque(p: string)
    ensures IsOpaque(p) <==> exists i :: BasenameStart(p, i) && p[i..] == OpaqueWhiteout
  {
    BasenameStartUnique(p);
    AfterLastSlash(p) == OpaqueWhiteout
  }

  /** The path a whiteout marker deletes: one whiteout prefix taken off the basename,
      the directory kept. */
  function WhiteoutTarget(p: string): (r: string)
    ensures var (d, b) := SplitPath(p);
      exists x :: r == JoinDir(d, x) && (if StartsWith(b, WhiteoutPrefix) then WhiteoutPrefix + x == b else x == b)
  {
    var (d, b) := SplitPath(p);
    var name := if StartsWith(b, WhiteoutPrefix) then b[|WhiteoutPrefix|..] else b;
    assert StartsWith(b, WhiteoutPrefix) ==> WhiteoutPrefix + name == b;
    JoinDir(d, name)
  }

  /** The directory an opaque marker clears: what comes before the marker's last slash. */
  function OpaqueDir(p: string): (r: string)
    ensures r <= p
    ensures EndsWith(p, "/" + OpaqueWhiteout) ==> p == r + "/" + OpaqueWhiteout
  {
    SplitBaseIsLastPiece(p);
    MarkerSuffixSplit(p);
    SplitPath(p).0
  }

  /** A path ending in `/.wh..wh..opq` splits just before the marker. */
  lemma MarkerSuffixSplit(p: string)
    ensures EndsWith(p, "/" + OpaqueWhiteout) ==> p == SplitPath(p).0 + "/" + OpaqueWhiteout
  {
    if EndsWith(p, "/" + OpaqueWhiteout) {
      var d := p[..|p| - |OpaqueWhiteout| - 1];
      assert p == d + "/" + OpaqueWhiteout;
      SplitOfSlashJoin(d, OpaqueWhiteout);
    }
  }

  /** Whatever comes before it, the basename of `d/b` is `b`. */
  lemma AfterLastSlashOfJoin(d: string, b: string)
    requires '/' !in b
    ensures AfterLastSlash(d + "/" + b) == b
    ensures AfterLastSlash(JoinDir(d, b)) == b
  {
    LastSlashOfJoin(d, b);
    assert (d + "/" + b)[|d| + 1..] == b;
  }

  /** A path is a whiteout exactly when the name after its last slash starts with `.wh.`. */
  lemma IsWhiteoutIff(d: string, b: string)
    requires '/' !in b
    ensures IsWhiteout(JoinDir(d, b)) <==> StartsWith(b, WhiteoutPrefix)
    ensures IsOpaque(JoinDir(d, b)) <==> b == OpaqueWhiteout
  {
    AfterLastSlashOfJoin(d, b);
  }

  /** Opaque markers are whiteouts too. */
  lemma OpaqueIsWhiteout(p: string)
    ensures IsOpaque(p) ==> IsWhiteout(p)
  {
    if IsOpaque(p) {
      assert OpaqueWhiteout[..|WhiteoutPrefix|] == WhiteoutPrefix;
    }
  }

  /** A plain whiteout marker is not opaque: `.wh.file` deletes, it does not clear. */
  lemma PlainMarkerNotOpaque(d: string, x: string)
    requires '/' !in x && x != ".wh..opq"
    ensures IsWhiteout(JoinDir(d, WhiteoutPrefix + x))
    ensures !IsOpaque(JoinDir(d, WhiteoutPrefix + x))
  {
    var b := WhiteoutPrefix + x;
    assert b[..|WhiteoutPrefix|] == WhiteoutPrefix;
    assert b[|WhiteoutPrefix|..] == x;
    assert OpaqueWhiteout[|WhiteoutPrefix|..] == ".wh..opq";
    IsWhiteoutIff(d, b);
  }

  /** The marker `d/.wh.x` targets `d/x`: exactly one prefix is stripped, so a name that
      itself starts with `.wh.` keeps that second prefix. */
  lemma WhiteoutTargetOfMarker(d: string, x: string)
    requires '/' !in x
    ensures WhiteoutTarget(JoinDir(d, WhiteoutPrefix + x)) == JoinDir(d, x)
    ensures SplitPath(WhiteoutTarget(JoinDir(d, WhiteoutPrefix + x))) == SplitPath(JoinDir(d, x))
  {
    var b := WhiteoutPrefix + x;
    assert b[..|WhiteoutPrefix|] == WhiteoutPrefix;
    assert b[|WhiteoutPrefix|..] == x;
    SplitJoin(d, b);
  }

  /** A marker with nothing after the prefix, `d/.wh.`, targets `d/`; splitting drops that
      trailing slash, so the marker deletes `d` itself rather than a child of it. */
  lemma EmptyMarkerTargetsDir(d: string)
    requires d != ""
    ensures WhiteoutTarget(d + "/" + WhiteoutPrefix) == d + "/"
    ensures SplitPath(WhiteoutTarget(d + "/" + WhiteoutPrefix)) == SplitPath(d)
  {
    WhiteoutTargetOfMarker(d, "");
    assert JoinDir(d, WhiteoutPrefix + "") == d + "/" + WhiteoutPrefix;
    SplitIgnoresTrailingSlash(d);
  }

  /** The whiteout test for a bare marker: `.wh.file` targets `file`. */
  lemma WhiteoutTargetBare()
    ensures WhiteoutTarget(".wh.file") == "file"
  {
    var b := ".wh.file";
    SplitOfBare(b);
    assert StartsWith(b, WhiteoutPrefix) by {
      assert b[..4] == WhiteoutPrefix;
    }
    assert b[|WhiteoutPrefix|..] == "file";
  }

  /** The whiteout test for a nested marker: `a/b/c/.wh.test` targets `a/b/c/test`. */
  lemma WhiteoutTargetNested()
    ensures WhiteoutTarget("a/b/c/.wh.test") == "a/b/c/test"
  {
    var d, x := "a/b/c", "test";
    assert JoinDir(d, WhiteoutPrefix + x) == "a/b/c/.wh.test" by {
      assert WhiteoutPrefix + x == ".wh.test";
    }
    assert JoinDir(d, x) == "a/b/c/test";
    WhiteoutTargetOfMarker(d, x);
  }

  /** A path without a trailing slash whose basename lacks the prefix is its own target,
      except that a single leading slash before the only component is dropped. */
  lemma WhiteoutTargetUnmarked(p: string)
    requires !EndsWith(p, "/")
    requires !StartsWith(AfterLastSlash(p), WhiteoutPrefix)
    requires !(StartsWith(p, "/") && '/' !in p[1..])
    ensures WhiteoutTarget(p) == p
  {
    assert TrimEndMatches(p, "/") == p;
    var (d, b) := SplitPath(p);
    if '/' in p {
      var i := LastIndexOf(p, '/').value;
      assert d == p[..i] && b == p[i + 1..];
    }
  }

  /** The leading slash quirk: `/.wh.x` targets `x`, not `/x`. */
  lemma WhiteoutTargetDropsLoneLeadingSlash(x: string)
    requires x != "" && '/' !in x
    ensures WhiteoutTarget("/" + WhiteoutPrefix + x) == x
  {
    assert "/" + WhiteoutPrefix + x == "" + "/" + (WhiteoutPrefix + x);
    WhiteoutTargetOfMarker("", x);
    SplitJoin("", WhiteoutPrefix + x);
  }

  /** An opaque marker clears the directory it sits in; a bare marker clears the root. */
  lemma OpaqueDirOfMarker(d: string)
    ensures OpaqueDir(JoinDir(d, OpaqueWhiteout)) == d
  {
    SplitJoin(d, OpaqueWhiteout);
  }

  /** The opaque-directory test for a nested marker: `a/b/c/.wh..wh..opq` clears `a/b/c`. */
  lemma OpaqueDirNested()
    ensures OpaqueDir("a/b/c/" + OpaqueWhiteout) == "a/b/c"
  {
    OpaqueDirOfMarker("a/b/c");
    assert JoinDir("a/b/c", OpaqueWhiteout) == "a/b/c" + "/" + OpaqueWhiteout;
    assert "a/b/c" + "/" == "a/b/c/";
  }

  /** The opaque-directory test for a bare marker: `.wh..wh..opq` clears the root. */
  lemma OpaqueDirBare()
    ensures OpaqueDir(".wh..wh..opq") == ""
  {
    OpaqueDirOfMarker("");
  }
}
