/** The merged filesystem tree (src/tree.rs): each directory owns its children, keyed by
    basename. Every operation resolves its path from the root; a node is addressed by the
    sequence of keys leading to it. */
module Tree {
  import opened Wrappers
  import opened Utils

  /** A tar header's mode, a Rust `u32`. */
  type Mode = x: int | 0 <= x < 0x1_0000_0000

  /** A tar header's uid or gid, a Rust `u64`. */
  type Id = x: int | 0 <= x < 0x1_0000_0000_0000_0000

  /** `NodeMetadata` without the never-read `uname`/`gname`. `isFile` is false for directories. */
  datatype Meta = Meta(
    isFile: bool,
    isSymlink: bool,
    symlinkTarget: Option<string>,
    hardlinkTarget: Option<string>,
    mode: Mode,
    uid: Id,
    gid: Id,
    layerHash: Option<string>)

  datatype Node = Node(children: map<string, Node>, meta: Meta)

  /** 0o755, the mode of the root and of directories `put_file` makes up. */
  const DefaultDirMode: Mode := 0x1ED

  /** `Node::new_dir`: an empty directory with the given mode and owner, no link data and no
      layer tag. */
  function NewDir(mode: Mode, uid: Id, gid: Id): (r: Node)
    ensures forall q :: q != [] ==> Get(r, q) == None
    ensures !r.meta.isFile && !r.meta.isSymlink && r.meta.symlinkTarget == None && r.meta.hardlinkTarget == None
    ensures r.meta.mode == mode && r.meta.uid == uid && r.meta.gid == gid && r.meta.layerHash == None
  {
    Node(map[], Meta(false, false, None, None, mode, uid, gid, None))
  }

  /** `Node::new_file`: the same, flagged as a file. */
  function NewFile(mode: Mode, uid: Id, gid: Id): (r: Node)
    ensures forall q :: q != [] ==> Get(r, q) == None
    ensures r.meta.isFile && !r.meta.isSymlink && r.meta.symlinkTarget == None && r.meta.hardlinkTarget == None
    ensures r.meta.mode == mode && r.meta.uid == uid && r.meta.gid == gid && r.meta.layerHash == None
  {
    Node(map[], Meta(true, false, None, None, mode, uid, gid, None))
  }

  /** The leaf `put_file` stores: a fresh file carrying the link flag, link text and layer tag. */
  function FileNode(mode: Mode, uid: Id, gid: Id, isSymlink: bool, linkTarget: Option<string>,
                    hash: Option<string>): Node
  {
    var f := NewFile(mode, uid, gid);
    f.(meta := f.meta.(isSymlink := isSymlink, symlinkTarget := linkTarget, layerHash := hash))
  }

  /** The node reached from `t` by following the keys of `path`. */
  function Get(t: Node, path: seq<string>): Option<Node>
    decreases |path|
  {
    if path == [] then Some(t)
    else if path[0] in t.children then Get(t.children[path[0]], path[1..])
    else None
  }

  /** The metadata of the node at `path`, if there is one. */
  function MetaAt(t: Node, path: seq<string>): Option<Meta> {
    match Get(t, path)
    case None => None
    case Some(n) => Some(n.meta)
  }

  /** The keys an operation on `p` addresses: the directory part's components, then the
      basename exactly as `split_path` returns it. */
  function LeafPath(p: string): seq<string> {
    var (d, b) := SplitPath(p);
    Components(d) + [b]
  }

  /** Metadata `ensure_path` leaves on a node along its path: an existing node keeps all of
      its metadata but the layer tag; a missing one becomes a fresh directory. */
  function Stamped(prior: Option<Node>, mode: Mode, uid: Id, gid: Id, hash: Option<string>): Meta {
    match prior
    case Some(n) => n.meta.(layerHash := hash)
    case None => NewDir(mode, uid, gid).meta.(layerHash := hash)
  }

  /** Replaces the children of the node at `path` by `f` of them; a missing node leaves the
      tree as it is. The common shape of `remove`, `mark_opaque` and the insertion in `put_file`. */
  function UpdateChildren(t: Node, path: seq<string>, f: map<string, Node> -> map<string, Node>): (r: Node)
    ensures r.meta == t.meta
    decreases |path|
  {
    if path == [] then t.(children := f(t.children))
    else if path[0] !in t.children then t
    else t.(children := t.children[path[0] := UpdateChildren(t.children[path[0]], path[1..], f)])
  }

  /** Walks the keys of `parts`, creating each missing one as a directory with the given
      metadata and re-tagging every node passed through. */
  function EnsureAt(t: Node, parts: seq<string>, mode: Mode, uid: Id, gid: Id, hash: Option<string>): (r: Node)
    ensures r.meta == t.meta
    decreases |parts|
  {
    if parts == [] then t
    else
      var child := if parts[0] in t.children then t.children[parts[0]] else NewDir(mode, uid, gid);
      var stamped := child.(meta := child.meta.(layerHash := hash));
      t.(children := t.children[parts[0] := EnsureAt(stamped, parts[1..], mode, uid, gid, hash)])
  }

  /** `ensure_path`: makes every component of `p` exist as a node. */
  function EnsurePath(t: Node, p: string, mode: Mode, uid: Id, gid: Id, hash: Option<string>): (r: Node)
    ensures r.meta == t.meta
    ensures Components(p) == [] ==> r == t
  {
    if p == "" || p == "." then t
    else EnsureAt(t, Components(p), mode, uid, gid, hash)
  }

  /** `put_file`: stores a fresh file at `p`, replacing whatever was there. */
  function PutFile(t: Node, p: string, mode: Mode, uid: Id, gid: Id, isSymlink: bool,
                   linkTarget: Option<string>, hash: Option<string>): (r: Node)
    ensures r.meta == t.meta
  {
    var (d, b) := SplitPath(p);
    var withParents := if d != "" then EnsurePath(t, d, DefaultDirMode, 0, 0, hash) else t;
    var file := FileNode(mode, uid, gid, isSymlink, linkTarget, hash);
    UpdateChildren(withParents, Components(d), cs => cs[b := file])
  }

  /** `remove`: deletes the node at `p` with its subtree. */
  function Remove(t: Node, p: string): (r: Node)
    ensures r.meta == t.meta
  {
    var (d, b) := SplitPath(p);
    UpdateChildren(t, Components(d), (cs: map<string, Node>) => cs - {b})
  }

  /** `mark_opaque`: drops every child of the directory at `p`. */
  function MarkOpaque(t: Node, p: string): (r: Node)
    ensures r.meta == t.meta
  {
    if p == "" || p == "." then t.(children := map[])
    else UpdateChildren(t, Components(p), cs => map[])
  }

  /** `set_hardlink_target`, whose definition src/tree.rs does not show: records the link text
      on the node at `p`, failing when there is no such node. */
  function SetHardlinkTarget(t: Node, p: string, target: string): (r: Result<Node, string>)
    ensures r.Failure? <==> Get(t, LeafPath(p)) == None
    ensures r.Success? ==> r.value.meta == t.meta
  {
    var (d, b) := SplitPath(p);
    match Get(t, Components(d) + [b])
    case None => Failure("no entry at " + p)
    case Some(n) =>
      var linked := n.(meta := n.meta.(hardlinkTarget := Some(target)));
      Success(UpdateChildren(t, Components(d), InsertFile(b, linked)))
  }

  /** What a successful `set_hardlink_target` must have done: exactly what `SetHardlinkTarget`
      does. */
  ghost predicate HonestAttach(f: (Node, string, string) -> Result<Node, string>) {
    forall t, p, target :: f(t, p, target).Success? ==> f(t, p, target) == SetHardlinkTarget(t, p, target)
  }

  /** The attachments `set_hardlink_target` may stand for: each may fail, on an absent leaf or
      for any other reason, but on success records the link text on the existing leaf and
      changes nothing else. */
  type Attach = f: (Node, string, string) -> Result<Node, string> | HonestAttach(f) witness SetHardlinkTarget

  // ---------------------------------------------------------------------------------------
  // Lookup

  /** Looking up `a + b` is looking up `a`, then `b` from there. */
  lemma {:induction false} GetAppend(t: Node, a: seq<string>, b: seq<string>)
    ensures Get(t, a + b) == (match Get(t, a) case None => None case Some(n) => Get(n, b))
    decreases |a|
  {
    if a == [] {
      assert a + b == b;
    } else {
      assert (a + b)[0] == a[0] && (a + b)[1..] == a[1..] + b;
      if a[0] in t.children {
        GetAppend(t.children[a[0]], a[1..], b);
      }
    }
  }

  /** Below a missing node there is nothing. */
  lemma GetBelowMissing(t: Node, a: seq<string>, q: seq<string>)
    requires Get(t, a) == None && a <= q
    ensures Get(t, q) == None
  {
    assert q == a + q[|a|..];
    GetAppend(t, a, q[|a|..]);
  }

  // ---------------------------------------------------------------------------------------
  // UpdateChildren

  /** A missing node makes the update a no-op. */
  lemma {:induction false} UpdateMissing(t: Node, path: seq<string>, f: map<string, Node> -> map<string, Node>)
    requires Get(t, path) == None
    ensures UpdateChildren(t, path, f) == t
    decreases |path|
  {
    var k := path[0];
    if k in t.children {
      UpdateMissing(t.children[k], path[1..], f);
      assert t.children[k := t.children[k]] == t.children;
    }
  }

  /** At the updated node and below it, the tree is what `f` made of that node's children. */
  lemma {:induction false} UpdateInside(t: Node, path: seq<string>, f: map<string, Node> -> map<string, Node>,
                                        n: Node, rest: seq<string>)
    requires Get(t, path) == Some(n)
    ensures Get(UpdateChildren(t, path, f), path + rest) == Get(Node(f(n.children), n.meta), rest)
    decreases |path|
  {
    if path == [] {
      assert path + rest == rest;
    } else {
      assert (path + rest)[0] == path[0] && (path + rest)[1..] == path[1..] + rest;
      UpdateInside(t.children[path[0]], path[1..], f, n, rest);
    }
  }

  /** Every node not strictly below the updated one keeps its metadata (and its presence). */
  lemma {:induction false} UpdateKeepsMeta(t: Node, path: seq<string>, f: map<string, Node> -> map<string, Node>,
                                           q: seq<string>)
    requires !(path < q)
    ensures MetaAt(UpdateChildren(t, path, f), q) == MetaAt(t, q)
    decreases |path|
  {
    if q != [] && path != [] && path[0] in t.children && q[0] == path[0] {
      UpdateKeepsMeta(t.children[path[0]], path[1..], f, q[1..]);
    }
  }

  /** A node on neither the updated node's path nor below it is untouched, subtree and all. */
  lemma {:induction false} UpdateBeside(t: Node, path: seq<string>, f: map<string, Node> -> map<string, Node>,
                                        q: seq<string>)
    requires !(q <= path) && !(path <= q)
    ensures Get(UpdateChildren(t, path, f), q) == Get(t, q)
    decreases |path|
  {
    if path[0] in t.children && q[0] == path[0] {
      assert !(q[1..] <= path[1..]) && !(path[1..] <= q[1..]) by {
        assert path == [path[0]] + path[1..] && q == [q[0]] + q[1..];
      }
      UpdateBeside(t.children[path[0]], path[1..], f, q[1..]);
    }
  }

  /** Strictly below the updated node, each path goes through one of `f`'s children. */
  lemma UpdateBelow(t: Node, path: seq<string>, f: map<string, Node> -> map<string, Node>,
                    n: Node, q: seq<string>)
    requires Get(t, path) == Some(n) && path < q
    ensures var k := q[|path|];
      Get(UpdateChildren(t, path, f), q)
        == (if k in f(n.children) then Get(f(n.children)[k], q[|path| + 1..]) else None)
  {
    var rest := q[|path|..];
    assert q == path + rest;
    UpdateInside(t, path, f, n, rest);
    assert rest[0] == q[|path|] && rest[1..] == q[|path| + 1..];
  }

  /** ... and the tree had the same node there when that child was left as it was. */
  lemma OriginalBelow(t: Node, path: seq<string>, n: Node, q: seq<string>)
    requires Get(t, path) == Some(n) && path < q
    ensures var k := q[|path|];
      Get(t, q) == (if k in n.children then Get(n.children[k], q[|path| + 1..]) else None)
  {
    var rest := q[|path|..];
    assert q == path + rest;
    GetAppend(t, path, rest);
    assert rest[0] == q[|path|] && rest[1..] == q[|path| + 1..];
  }

  // ---------------------------------------------------------------------------------------
  // ensure_path

  /** Every node along the walked keys exists afterwards: an existing one keeps its kind,
      mode, owner and link data and only takes the new layer tag; a missing one is a new
      directory with the given mode, uid and gid. */
  lemma {:induction false} EnsureAtAlong(t: Node, parts: seq<string>, mode: Mode, uid: Id, gid: Id,
                                         hash: Option<string>, q: seq<string>)
    requires q <= parts && q != []
    ensures MetaAt(EnsureAt(t, parts, mode, uid, gid, hash), q) == Some(Stamped(Get(t, q), mode, uid, gid, hash))
    decreases |parts|
  {
    var k := parts[0];
    var child := if k in t.children then t.children[k] else NewDir(mode, uid, gid);
    var stamped := child.(meta := child.meta.(layerHash := hash));
    var e := EnsureAt(stamped, parts[1..], mode, uid, gid, hash);
    var r := EnsureAt(t, parts, mode, uid, gid, hash);
    assert q[0] == k && r.children[k] == e;
    if |q| == 1 {
      assert Get(r, q) == Some(e);
    } else {
      assert q[1..] <= parts[1..];
      EnsureAtAlong(stamped, parts[1..], mode, uid, gid, hash, q[1..]);
      assert Get(r, q) == Get(e, q[1..]);
      assert Get(stamped, q[1..]) == Get(child, q[1..]);
      assert Get(t, q) == Get(child, q[1..]);
    }
  }

  /** Nodes that are not on the walked path (beside it or below its end) are untouched. */
  lemma {:induction false} EnsureAtBeside(t: Node, parts: seq<string>, mode: Mode, uid: Id, gid: Id,
                                          hash: Option<string>, q: seq<string>)
    requires !(q <= parts)
    ensures Get(EnsureAt(t, parts, mode, uid, gid, hash), q) == Get(t, q)
    decreases |parts|
  {
    if parts != [] && q[0] == parts[0] {
      var k := parts[0];
      var child := if k in t.children then t.children[k] else NewDir(mode, uid, gid);
      var stamped := child.(meta := child.meta.(layerHash := hash));
      assert !(q[1..] <= parts[1..]) by {
        assert q == [q[0]] + q[1..] && parts == [parts[0]] + parts[1..];
      }
      EnsureAtBeside(stamped, parts[1..], mode, uid, gid, hash, q[1..]);
    }
  }

  /** `ensure_path` in full: the root keeps its metadata; each node named by a non-empty prefix
      of the path's components exists, stamped as `Stamped` says; everything else is as it was. */
  lemma EnsurePathSpec(t: Node, p: string, mode: Mode, uid: Id, gid: Id, hash: Option<string>)
    ensures var r := EnsurePath(t, p, mode, uid, gid, hash);
      && r.meta == t.meta
      && (forall q :: q <= Components(p) && q != [] ==> MetaAt(r, q) == Some(Stamped(Get(t, q), mode, uid, gid, hash)))
      && (forall q :: !(q <= Components(p)) ==> Get(r, q) == Get(t, q))
  {
    ComponentsOfTrivial();
    var cs := Components(p);
    forall q | q <= cs && q != []
      ensures MetaAt(EnsurePath(t, p, mode, uid, gid, hash), q) == Some(Stamped(Get(t, q), mode, uid, gid, hash))
    {
      EnsureAtAlong(t, cs, mode, uid, gid, hash, q);
    }
    forall q | !(q <= cs)
      ensures Get(EnsurePath(t, p, mode, uid, gid, hash), q) == Get(t, q)
    {
      EnsureAtBeside(t, cs, mode, uid, gid, hash, q);
    }
  }

  /** `ensure_path("")` and `ensure_path(".")` change nothing. */
  lemma EnsurePathTrivial(t: Node, mode: Mode, uid: Id, gid: Id, hash: Option<string>)
    ensures EnsurePath(t, "", mode, uid, gid, hash) == t
    ensures EnsurePath(t, ".", mode, uid, gid, hash) == t
  {
  }

  /** After `ensure_path(p)` the whole chain of components of `p` exists. */
  lemma EnsurePathReaches(t: Node, p: string, mode: Mode, uid: Id, gid: Id, hash: Option<string>)
    ensures Get(EnsurePath(t, p, mode, uid, gid, hash), Components(p)).Some?
  {
    EnsurePathSpec(t, p, mode, uid, gid, hash);
    var cs := Components(p);
    if cs != [] {
      assert MetaAt(EnsurePath(t, p, mode, uid, gid, hash), cs).Some?;
    }
  }

  // ---------------------------------------------------------------------------------------
  // put_file

  /** The tree `put_file` inserts into: the input, with the parent chain made to exist. */
  function WithParents(t: Node, p: string, hash: Option<string>): Node {
    var (d, b) := SplitPath(p);
    if d != "" then EnsurePath(t, d, DefaultDirMode, 0, 0, hash) else t
  }

  /** The insertion `put_file` performs in the parent directory. */
  function InsertFile(b: string, file: Node): map<string, Node> -> map<string, Node> {
    (cs: map<string, Node>) => cs[b := file]
  }

  lemma PutFileUnfold(t: Node, p: string, mode: Mode, uid: Id, gid: Id, isSymlink: bool,
                      linkTarget: Option<string>, hash: Option<string>)
    ensures var (d, b) := SplitPath(p);
      && PutFile(t, p, mode, uid, gid, isSymlink, linkTarget, hash)
           == UpdateChildren(WithParents(t, p, hash), Components(d),
                             InsertFile(b, FileNode(mode, uid, gid, isSymlink, linkTarget, hash)))
      && Get(WithParents(t, p, hash), Components(d)).Some?
      && (forall q :: q <= Components(d) && q != [] ==>
            MetaAt(WithParents(t, p, hash), q) == Some(Stamped(Get(t, q), DefaultDirMode, 0, 0, hash)))
      && (forall q :: !(q <= Components(d)) ==> Get(WithParents(t, p, hash), q) == Get(t, q))
  {
    var (d, b) := SplitPath(p);
    ComponentsOfTrivial();
    EnsurePathSpec(t, d, DefaultDirMode, 0, 0, hash);
    EnsurePathReaches(t, d, DefaultDirMode, 0, 0, hash);
  }

  /** After `put_file(p)` the node at its leaf keys is exactly the new file: no children, no
      hard-link text, whatever was there before. */
  lemma PutFileLeaf(t: Node, p: string, mode: Mode, uid: Id, gid: Id, isSymlink: bool,
                    linkTarget: Option<string>, hash: Option<string>)
    ensures Get(PutFile(t, p, mode, uid, gid, isSymlink, linkTarget, hash), LeafPath(p))
            == Some(FileNode(mode, uid, gid, isSymlink, linkTarget, hash))
  {
    var (d, b) := SplitPath(p);
    var file := FileNode(mode, uid, gid, isSymlink, linkTarget, hash);
    PutFileUnfold(t, p, mode, uid, gid, isSymlink, linkTarget, hash);
    var w := WithParents(t, p, hash);
    UpdateInside(w, Components(d), InsertFile(b, file), Get(w, Components(d)).value, [b]);
  }

  /** `put_file` gives every ancestor of its leaf a node: an existing one re-tagged, a missing
      one a new 0o755 directory owned by uid 0 and gid 0. */
  lemma PutFileAncestors(t: Node, p: string, mode: Mode, uid: Id, gid: Id, isSymlink: bool,
                         linkTarget: Option<string>, hash: Option<string>, q: seq<string>)
    requires q <= Components(SplitPath(p).0) && q != []
    ensures MetaAt(PutFile(t, p, mode, uid, gid, isSymlink, linkTarget, hash), q)
            == Some(Stamped(Get(t, q), DefaultDirMode, 0, 0, hash))
  {
    var (d, b) := SplitPath(p);
    var file := FileNode(mode, uid, gid, isSymlink, linkTarget, hash);
    PutFileUnfold(t, p, mode, uid, gid, isSymlink, linkTarget, hash);
    UpdateKeepsMeta(WithParents(t, p, hash), Components(d), InsertFile(b, file), q);
  }

  /** `dir + [b]` is not a prefix of `q`, yet `dir` strictly is: then `q` leaves `dir` by
      another key than `b`. */
  lemma OtherKey(dir: seq<string>, b: string, q: seq<string>)
    requires dir < q && !(dir + [b] <= q)
    ensures q[|dir|] != b
  {
  }

  /** `put_file` leaves every node beside its leaf's path, and their subtrees, untouched. */
  lemma PutFileBeside(t: Node, p: string, mode: Mode, uid: Id, gid: Id, isSymlink: bool,
                      linkTarget: Option<string>, hash: Option<string>, q: seq<string>)
    requires !(q <= LeafPath(p)) && !(LeafPath(p) <= q)
    ensures Get(PutFile(t, p, mode, uid, gid, isSymlink, linkTarget, hash), q) == Get(t, q)
  {
    var (d, b) := SplitPath(p);
    var dir := Components(d);
    var file := FileNode(mode, uid, gid, isSymlink, linkTarget, hash);
    PutFileUnfold(t, p, mode, uid, gid, isSymlink, linkTarget, hash);
    var w := WithParents(t, p, hash);
    assert !(q <= dir);
    if dir <= q {
      OtherKey(dir, b, q);
      var n := Get(w, dir).value;
      UpdateBelow(w, dir, InsertFile(b, file), n, q);
      OriginalBelow(w, dir, n, q);
    } else {
      UpdateBeside(w, dir, InsertFile(b, file), q);
    }
  }

  /** A regular file replacing a directory takes none of the directory's subtree with it. */
  lemma PutFileDropsOldSubtree(t: Node, p: string, mode: Mode, uid: Id, gid: Id, isSymlink: bool,
                               linkTarget: Option<string>, hash: Option<string>, rest: seq<string>)
    requires rest != []
    ensures Get(PutFile(t, p, mode, uid, gid, isSymlink, linkTarget, hash), LeafPath(p) + rest) == None
  {
    PutFileLeaf(t, p, mode, uid, gid, isSymlink, linkTarget, hash);
    GetAppend(PutFile(t, p, mode, uid, gid, isSymlink, linkTarget, hash), LeafPath(p), rest);
  }

  // ---------------------------------------------------------------------------------------
  // remove

  /** The deletion `remove` performs in the parent directory. */
  function DropChild(b: string): map<string, Node> -> map<string, Node> {
    (cs: map<string, Node>) => cs - {b}
  }

  /** After `remove(p)` nothing is left at or below the leaf keys of `p`. */
  lemma RemoveGone(t: Node, p: string, q: seq<string>)
    requires LeafPath(p) <= q
    ensures Get(Remove(t, p), q) == None
  {
    var (d, b) := SplitPath(p);
    var dir := Components(d);
    assert Remove(t, p) == UpdateChildren(t, dir, DropChild(b));
    if Get(t, dir) == None {
      UpdateMissing(t, dir, DropChild(b));
      GetBelowMissing(t, dir, q);
    } else {
      assert q[|dir|] == b;
      UpdateBelow(t, dir, DropChild(b), Get(t, dir).value, q);
    }
  }

  /** `remove(p)` keeps every node that is not at or below the leaf keys of `p`, with its
      metadata. */
  lemma RemoveKeeps(t: Node, p: string, q: seq<string>)
    requires !(LeafPath(p) <= q)
    ensures MetaAt(Remove(t, p), q) == MetaAt(t, q)
  {
    var (d, b) := SplitPath(p);
    var dir := Components(d);
    assert Remove(t, p) == UpdateChildren(t, dir, DropChild(b));
    if Get(t, dir) == None {
      UpdateMissing(t, dir, DropChild(b));
    } else if dir < q {
      OtherKey(dir, b, q);
      var n := Get(t, dir).value;
      UpdateBelow(t, dir, DropChild(b), n, q);
      OriginalBelow(t, dir, n, q);
    } else {
      UpdateKeepsMeta(t, dir, DropChild(b), q);
    }
  }

  /** `remove(p)` takes exactly one child from the parent directory, and is a no-op when an
      ancestor is missing. */
  lemma RemoveParent(t: Node, p: string)
    ensures var (d, b) := SplitPath(p);
      && (forall n :: Get(t, Components(d)) == Some(n) ==>
            Get(Remove(t, p), Components(d)) == Some(Node(n.children - {b}, n.meta)))
      && (Get(t, Components(d)) == None ==> Remove(t, p) == t)
  {
    var (d, b) := SplitPath(p);
    var dir := Components(d);
    assert Remove(t, p) == UpdateChildren(t, dir, DropChild(b));
    if Get(t, dir) == None {
      UpdateMissing(t, dir, DropChild(b));
    } else {
      UpdateInside(t, dir, DropChild(b), Get(t, dir).value, []);
      assert dir + [] == dir;
    }
  }

  // ---------------------------------------------------------------------------------------
  // mark_opaque

  /** `mark_opaque` on "" or "." is the same update as on the root's (empty) components. */
  lemma MarkOpaqueIsUpdate(t: Node, p: string)
    ensures MarkOpaque(t, p) == UpdateChildren(t, Components(p), (cs: map<string, Node>) => map[])
  {
    ComponentsOfTrivial();
  }

  /** `mark_opaque` in full: the directory at `p` keeps its own metadata and loses every
      child, nothing outside its subtree changes, and a missing directory makes it a no-op. */
  lemma MarkOpaqueSpec(t: Node, p: string)
    ensures var r := MarkOpaque(t, p);
      && (forall q :: Components(p) < q ==> Get(r, q) == None)
      && (forall q :: !(Components(p) < q) ==> MetaAt(r, q) == MetaAt(t, q))
      && (forall n :: Get(t, Components(p)) == Some(n) ==> Get(r, Components(p)) == Some(Node(map[], n.meta)))
      && (Get(t, Components(p)) == None ==> r == t)
  {
    var r := MarkOpaque(t, p);
    var dir := Components(p);
    var f := (cs: map<string, Node>) => map[];
    MarkOpaqueIsUpdate(t, p);
    if Get(t, dir) == None {
      UpdateMissing(t, dir, f);
      forall q | dir < q
        ensures Get(r, q) == None
      {
        GetBelowMissing(t, dir, q);
      }
    } else {
      var n := Get(t, dir).value;
      UpdateInside(t, dir, f, n, []);
      assert dir + [] == dir;
      forall q | dir < q
        ensures Get(r, q) == None
      {
        UpdateBelow(t, dir, f, n, q);
      }
      forall q | !(dir < q)
        ensures MetaAt(r, q) == MetaAt(t, q)
      {
        UpdateKeepsMeta(t, dir, f, q);
      }
    }
  }

  // ---------------------------------------------------------------------------------------
  // set_hardlink_target

  /** Replacing a child by a node with the same children changes the metadata at that one
      key path and nowhere else. */
  lemma ReplaceKeepsOthers(t: Node, dir: seq<string>, b: string, n: Node, m: Node, q: seq<string>)
    requires Get(t, dir + [b]) == Some(n) && m.children == n.children && q != dir + [b]
    ensures MetaAt(UpdateChildren(t, dir, InsertFile(b, m)), q) == MetaAt(t, q)
  {
    var f := InsertFile(b, m);
    GetAppend(t, dir, [b]);
    var parent := Get(t, dir).value;
    if dir < q {
      UpdateBelow(t, dir, f, parent, q);
      OriginalBelow(t, dir, parent, q);
    } else {
      UpdateKeepsMeta(t, dir, f, q);
    }
  }

  /** Attaching link text leaves the metadata at every other key path as it was. */
  lemma SetHardlinkElsewhere(t: Node, p: string, target: string, n: Node, q: seq<string>)
    requires Get(t, LeafPath(p)) == Some(n) && q != LeafPath(p)
    ensures MetaAt(SetHardlinkTarget(t, p, target).value, q) == MetaAt(t, q)
  {
    var (d, b) := SplitPath(p);
    var linked := n.(meta := n.meta.(hardlinkTarget := Some(target)));
    assert SetHardlinkTarget(t, p, target).value == UpdateChildren(t, Components(d), InsertFile(b, linked));
    ReplaceKeepsOthers(t, Components(d), b, n, linked, q);
  }

  /** Attaching link text changes the hard-link field of the node at the leaf keys and nothing
      else anywhere in the tree. */
  lemma SetHardlinkSpec(t: Node, p: string, target: string, n: Node)
    requires Get(t, LeafPath(p)) == Some(n)
    ensures var r := SetHardlinkTarget(t, p, target);
      && r.Success?
      && Get(r.value, LeafPath(p)) == Some(n.(meta := n.meta.(hardlinkTarget := Some(target))))
      && (forall q :: q != LeafPath(p) ==> MetaAt(r.value, q) == MetaAt(t, q))
  {
    var (d, b) := SplitPath(p);
    var dir := Components(d);
    var linked := n.(meta := n.meta.(hardlinkTarget := Some(target)));
    var f := InsertFile(b, linked);
    assert SetHardlinkTarget(t, p, target).value == UpdateChildren(t, dir, f);
    GetAppend(t, dir, [b]);
    UpdateInside(t, dir, f, Get(t, dir).value, [b]);
    forall q | q != LeafPath(p)
      ensures MetaAt(SetHardlinkTarget(t, p, target).value, q) == MetaAt(t, q)
    {
      SetHardlinkElsewhere(t, p, target, n, q);
    }
  }

  /** Whatever attachment stands for `set_hardlink_target`, it fails on a path with no node. */
  lemma AttachAbsentFails(attach: Attach, t: Node, p: string, target: string)
    requires Get(t, LeafPath(p)) == None
    ensures attach(t, p, target).Failure?
  {
    assert SetHardlinkTarget(t, p, target).Failure?;
  }

  /** Whatever attachment stands for `set_hardlink_target`, when it succeeds on an existing
      leaf it has set that leaf's hard-link text and changed no other node's metadata. */
  lemma AttachSpec(attach: Attach, t: Node, p: string, target: string, n: Node)
    requires Get(t, LeafPath(p)) == Some(n)
    ensures var r := attach(t, p, target);
      r.Success? ==>
        && Get(r.value, LeafPath(p)) == Some(n.(meta := n.meta.(hardlinkTarget := Some(target))))
        && (forall q :: q != LeafPath(p) ==> MetaAt(r.value, q) == MetaAt(t, q))
  {
    SetHardlinkSpec(t, p, target, n);
  }

  /** Right after `put_file(p)`, attaching a hard-link text to `p` succeeds: the file is there. */
  lemma HardlinkAfterPutFile(t: Node, p: string, mode: Mode, uid: Id, gid: Id,
                             hash: Option<string>, target: string)
    ensures var r := SetHardlinkTarget(PutFile(t, p, mode, uid, gid, false, None, hash), p, target);
      && r.Success?
      && Get(r.value, LeafPath(p)) == Some(FileNode(mode, uid, gid, false, None, hash).(meta :=
           FileNode(mode, uid, gid, false, None, hash).meta.(hardlinkTarget := Some(target))))
  {
    PutFileLeaf(t, p, mode, uid, gid, false, None, hash);
    SetHardlinkSpec(PutFile(t, p, mode, uid, gid, false, None, hash), p, target,
                    FileNode(mode, uid, gid, false, None, hash));
  }
}
