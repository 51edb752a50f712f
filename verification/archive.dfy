/** The merge driver of src/archive.rs. One pass over the outer image archive stages the
    manifest and the layer blobs by name; the layers the manifest lists are then folded, in
    manifest order, onto a fresh root directory, entry by entry.

    What the source gets from libraries is given here as data or as parameters: a layer's
    tar stream is the sequence of headers the `tar` crate yields (each one possibly unreadable,
    each field read possibly failing), the manifest parser is `parse` and the layer decoder
    (gzip or plain tar, chosen by the staged flag) is `decode`. Diagnostics that the source
    prints to stderr are collected as `Warning`s. */
module Archive {
  import opened Wrappers
  import opened Strings
  import opened Utils
  import opened Whiteout
  import opened Tree

  type Bytes = seq<bv8>

  /** The tar entry types the engine tells apart; `Other` is every remaining type
      (devices, fifos, ...). */
  datatype EntryKind = Directory | Regular | Symlink | Link | Other

  /** A layer entry's header. Reading the path, mode, uid, gid or link name can fail. */
  datatype Header = Header(
    path: Result<string, string>,
    kind: EntryKind,
    mode: Result<Mode, string>,
    uid: Result<Id, string>,
    gid: Result<Id, string>,
    linkName: Result<Option<string>, string>)

  /** The recoverable problems the source reports on stderr and carries on after. */
  datatype Warning =
    | SkippedEntry(reason: string)
    | FailedEntry(reason: string)
    | HardlinkNotSet(reason: string)

  /** The tree so far, and the warnings issued so far. */
  datatype Applied = Applied(tree: Node, warnings: seq<Warning>)

  /** The errors that abort the whole run. */
  datatype ArchiveError =
    | EntryUnreadable(reason: string)
    | ManifestMissing
    | ManifestInvalid(reason: string)
    | LayerMissing(name: string)
    | LayerUnreadable(name: string, reason: string)

  /** Characters of the layer tag kept when layers are shown. */
  const HashLength: nat := 7

  function Min(a: nat, b: nat): nat {
    if a <= b then a else b
  }

  // ---------------------------------------------------------------------------------------
  // Layer tags

  /** The part of a layer name a tag is cut from: the `/layer.tar`, `.tar.gz` and `.tar`
      suffixes trimmed (each as often as it repeats, in that order), then the last
      slash-separated piece. */
  function LayerStem(name: string): string {
    AfterLastSlash(TrimEndMatches(TrimEndMatches(TrimEndMatches(name, "/layer.tar"), ".tar.gz"), ".tar"))
  }

  /** `extract_layer_hash`: at most `length` leading characters of the stem, none when the
      stem is empty. */
  function ExtractLayerHash(name: string, length: nat): (r: Option<string>)
    ensures r.None? <==> LayerStem(name) == ""
    ensures r.Some? ==> r.value <= LayerStem(name) && |r.value| == Min(length, |LayerStem(name)|)
    ensures r.Some? ==> '/' !in r.value
  {
    var stem := LayerStem(name);
    if stem == "" then None else Some(stem[..Min(length, |stem|)])
  }

  /** The tag of a layer: its abbreviated hash when layers are shown, none otherwise. */
  function LayerTag(name: string, showLayers: bool): (r: Option<string>)
    ensures r.Some? <==> showLayers && LayerStem(name) != ""
    ensures r.Some? ==> r.value <= LayerStem(name) && |r.value| == Min(HashLength, |LayerStem(name)|)
  {
    if showLayers then ExtractLayerHash(name, HashLength) else None
  }

  // ---------------------------------------------------------------------------------------
  // Entries of one layer

  /** The path an entry is applied at: leading "./" and trailing "/" removed, repeatedly.
      The result is a stretch of the input with only copies of "./" before it and only
      copies of "/" after it. */
  function NormalizePath(p: string): (r: string)
    ensures !StartsWith(r, "./") && !EndsWith(r, "/")
    ensures exists k :: FramedAt(p, k, r, "./", "/")
  {
    TrimBoth(p, "./", "/");
    TrimEndMatches(TrimStartMatches(p, "./"), "/")
  }

  /** The header reads `apply_entry` makes before dispatching succeed. */
  predicate HeaderReadable(h: Header) {
    h.path.Success? && h.mode.Success? && h.uid.Success? && h.gid.Success?
  }

  /** The whiteout branch of `apply_entry`: an opaque marker clears the directory it names,
      any other marker removes its target. */
  function ApplyMarker(t: Node, n: string): (r: Node)
    ensures r.meta == t.meta
  {
    if IsOpaque(n) then MarkOpaque(t, OpaqueDir(n)) else Remove(t, WhiteoutTarget(n))
  }

  /** The dispatch of `apply_entry` on the entry type, for a path that is not a whiteout. */
  function ApplyKind(t: Node, kind: EntryKind, linkName: Result<Option<string>, string>, n: string,
                     mode: Mode, uid: Id, gid: Id, hash: Option<string>, attach: Attach): (r: Result<Applied, string>)
    ensures r.Success? ==> r.value.tree.meta == t.meta
  {
    match kind
    case Directory => Success(Applied(EnsurePath(t, n, mode, uid, gid, hash), []))
    case Regular => Success(Applied(PutFile(t, n, mode, uid, gid, false, None, hash), []))
    case Symlink =>
      var link :- linkName;
      Success(Applied(PutFile(t, n, mode, uid, gid, true, link, hash), []))
    case Link =>
      var link :- linkName;
      Success(AttachLink(PutFile(t, n, mode, uid, gid, false, None, hash), n, link, attach))
    case Other => Success(Applied(t, []))
  }

  /** The second half of a hard-link entry: with a link name, the attachment is tried on the
      stored file; a failed attachment keeps the tree as stored and becomes a warning. */
  function AttachLink(stored: Node, n: string, link: Option<string>, attach: Attach): (r: Applied)
    ensures r.tree.meta == stored.meta
  {
    match link
    case None => Applied(stored, [])
    case Some(target) =>
      match attach(stored, n, target)
      case Success(linked) => Applied(linked, [])
      case Failure(e) => Applied(stored, [HardlinkNotSet(e)])
  }

  /** `apply_entry`: one layer entry applied to the tree. Whiteout markers are recognised
      before the entry type is looked at. */
  function ApplyEntry(t: Node, h: Header, hash: Option<string>, attach: Attach): (r: Result<Applied, string>)
    ensures r.Success? ==> r.value.tree.meta == t.meta
  {
    var path :- h.path;
    var n := NormalizePath(path);
    if n == "" then Success(Applied(t, []))
    else
      var mode :- h.mode;
      var uid :- h.uid;
      var gid :- h.gid;
      if IsWhiteout(n) then Success(Applied(ApplyMarker(t, n), []))
      else ApplyKind(t, h.kind, h.linkName, n, mode, uid, gid, hash, attach)
  }

  /** One turn of the loop of `process_layer_entries`: an unreadable entry, or one that
      `apply_entry` rejects, costs a warning and nothing else. */
  function Step(acc: Applied, e: Result<Header, string>, hash: Option<string>, attach: Attach): (r: Applied)
    ensures r.tree.meta == acc.tree.meta
    ensures acc.warnings <= r.warnings
  {
    match e
    case Failure(err) => Applied(acc.tree, acc.warnings + [SkippedEntry(err)])
    case Success(h) =>
      match ApplyEntry(acc.tree, h, hash, attach)
      case Failure(err) => Applied(acc.tree, acc.warnings + [FailedEntry(err)])
      case Success(a) => Applied(a.tree, acc.warnings + a.warnings)
  }

  /** The entries of one layer applied in stream order: a left fold of `Step`. */
  function FoldEntries(acc: Applied, entries: seq<Result<Header, string>>, hash: Option<string>, attach: Attach): (r: Applied)
    ensures r.tree.meta == acc.tree.meta
    ensures acc.warnings <= r.warnings
    decreases |entries|
  {
    if entries == [] then acc
    else FoldEntries(Step(acc, entries[0], hash, attach), entries[1..], hash, attach)
  }

  /** `process_layer_entries`, as the loop the source writes. */
  method ProcessLayerEntries(root: Node, entries: seq<Result<Header, string>>, hash: Option<string>, attach: Attach)
    returns (tree: Node, warnings: seq<Warning>)
    ensures Applied(tree, warnings) == FoldEntries(Applied(root, []), entries, hash, attach)
    ensures tree.meta == root.meta
  {
    tree, warnings := root, [];
    var i := 0;
    while i < |entries|
      invariant 0 <= i <= |entries|
      invariant FoldEntries(Applied(tree, warnings), entries[i..], hash, attach) == FoldEntries(Applied(root, []), entries, hash, attach)
      invariant tree.meta == root.meta
    {
      var next := Step(Applied(tree, warnings), entries[i], hash, attach);
      assert entries[i..][1..] == entries[i + 1..];
      tree, warnings := next.tree, next.warnings;
      i := i + 1;
    }
  }

  // ---------------------------------------------------------------------------------------
  // The outer archive

  /** An entry of the outer archive: its path, and its body, whose reading can fail. */
  datatype OuterEntry = OuterEntry(path: string, body: Result<Bytes, string>)

  datatype OuterKind = ManifestFile | LayerBlob(gzip: bool) | Ignored

  /** What the first pass makes of an outer entry, by name alone. A `/layer.tar` name also
      ends in `.tar`, so only the `.tar` and `.tar.gz` tests decide; the staged gzip flag
      agrees with the `.gz` test the second pass makes on the staged file. */
  function ClassifyOuter(name: string): (r: OuterKind)
    ensures r.ManifestFile? <==> name == "manifest.json"
    ensures r.Ignored? <==> name != "manifest.json" && !EndsWith(name, ".tar") && !EndsWith(name, ".tar.gz")
    ensures r.LayerBlob? ==> (r.gzip <==> EndsWith(name, ".gz"))
  {
    assert EndsWith(name, "/layer.tar") ==> name[|name| - 4..] == "/layer.tar"[6..];
    assert EndsWith(name, ".tar.gz") ==> name[|name| - 3..] == ".tar.gz"[4..];
    assert EndsWith(name, ".gz") ==> name[|name| - 1] == 'z';
    assert EndsWith(name, ".tar") ==> name[|name| - 1] == 'r';
    if name == "manifest.json" then ManifestFile
    else if EndsWith(name, "/layer.tar") || EndsWith(name, ".tar") || EndsWith(name, ".tar.gz") then
      LayerBlob(EndsWith(name, ".tar.gz"))
    else Ignored
  }

  /** A staged layer blob and whether it is gzip-compressed. */
  datatype Staged = Staged(blob: Bytes, gzip: bool)

  /** The outcome of the first pass: the last manifest seen and the layers staged by name. */
  datatype Scan = Scan(manifest: Option<Bytes>, layers: map<string, Staged>)

  /** Every staged name is a layer name, with the compression its name says. */
  predicate WellStaged(layers: map<string, Staged>) {
    forall name :: name in layers ==> ClassifyOuter(name) == LayerBlob(layers[name].gzip)
  }

  function ScanStep(acc: Scan, e: Result<OuterEntry, string>): (r: Result<Scan, ArchiveError>)
    ensures r.Failure? ==> r.error.EntryUnreadable?
  {
    match e
    case Failure(err) => Failure(EntryUnreadable(err))
    case Success(entry) =>
      match ClassifyOuter(entry.path)
      case Ignored => Success(acc)
      case ManifestFile =>
        (match entry.body
         case Failure(err) => Failure(EntryUnreadable(err))
         case Success(bytes) => Success(acc.(manifest := Some(bytes))))
      case LayerBlob(gzip) =>
        (match entry.body
         case Failure(err) => Failure(EntryUnreadable(err))
         case Success(bytes) => Success(acc.(layers := acc.layers[entry.path := Staged(bytes, gzip)])))
  }

  function ScanFrom(acc: Scan, es: seq<Result<OuterEntry, string>>): (r: Result<Scan, ArchiveError>)
    ensures r.Failure? ==> r.error.EntryUnreadable?
    decreases |es|
  {
    if es == [] then Success(acc)
    else
      var next :- ScanStep(acc, es[0]);
      ScanFrom(next, es[1..])
  }

  /** Every pass step keeps the staged layers well named. */
  lemma {:induction false} ScanFromWellStaged(acc: Scan, es: seq<Result<OuterEntry, string>>)
    requires WellStaged(acc.layers)
    ensures ScanFrom(acc, es).Success? ==> WellStaged(ScanFrom(acc, es).value.layers)
    decreases |es|
  {
    if es != [] && ScanStep(acc, es[0]).Success? {
      ScanFromWellStaged(ScanStep(acc, es[0]).value, es[1..]);
    }
  }

  /** The first pass of `process_archive`: it fails only on an unreadable entry, and stages
      only layer names, each with the compression its name says. */
  function ScanOuter(es: seq<Result<OuterEntry, string>>): (r: Result<Scan, ArchiveError>)
    ensures r.Failure? ==> r.error.EntryUnreadable?
    ensures r.Success? ==> WellStaged(r.value.layers)
  {
    ScanFromWellStaged(Scan(None, map[]), es);
    ScanFrom(Scan(None, map[]), es)
  }

  /** The second pass of `process_archive`: the named layers folded in the order given,
      each looked up by name among the staged blobs. */
  function MergeLayers(acc: Applied, names: seq<string>, staged: map<string, Staged>, showLayers: bool,
                       decode: (Bytes, bool) -> Result<seq<Result<Header, string>>, string>, attach: Attach)
    : (r: Result<Applied, ArchiveError>)
    ensures r.Success? ==> r.value.tree.meta == acc.tree.meta
    decreases |names|
  {
    if names == [] then Success(acc)
    else
      var name := names[0];
      if name !in staged then Failure(LayerMissing(name))
      else
        match decode(staged[name].blob, staged[name].gzip)
        case Failure(err) => Failure(LayerUnreadable(name, err))
        case Success(entries) =>
          MergeLayers(FoldEntries(acc, entries, LayerTag(name, showLayers), attach), names[1..], staged, showLayers, decode, attach)
  }

  /** `process_archive`: the merged tree of an image archive, with the warnings issued. */
  function ProcessArchive(outer: seq<Result<OuterEntry, string>>, showLayers: bool,
                          parse: Bytes -> Result<seq<string>, string>,
                          decode: (Bytes, bool) -> Result<seq<Result<Header, string>>, string>, attach: Attach)
    : (r: Result<Applied, ArchiveError>)
    ensures r.Success? ==> r.value.tree.meta == NewDir(DefaultDirMode, 0, 0).meta
  {
    var scan :- ScanOuter(outer);
    match scan.manifest
    case None => Failure(ManifestMissing)
    case Some(bytes) =>
      match parse(bytes)
      case Failure(err) => Failure(ManifestInvalid(err))
      case Success(names) =>
        MergeLayers(Applied(NewDir(DefaultDirMode, 0, 0), []), names, scan.layers, showLayers, decode, attach)
  }

  // ---------------------------------------------------------------------------------------
  // Properties: layer tags

  /** `<id>/layer.tar` is tagged with the leading characters of `<id>`. */
  lemma LayerHashOfLayerTar(h: string, length: nat)
    requires h != "" && '/' !in h && '.' !in h
    ensures ExtractLayerHash(h + "/layer.tar", length) == Some(h[..Min(length, |h|)])
  {
    TrimSingleSuffix(h, "/layer.tar", '.');
    TrimAbsentSuffix(h, ".tar.gz", '.');
    TrimAbsentSuffix(h, ".tar", '.');
    AfterLastSlashNoSlash(h);
  }

  /** `<id>.tar` is tagged with the leading characters of `<id>`. */
  lemma LayerHashOfTar(h: string, length: nat)
    requires h != "" && '/' !in h && '.' !in h
    ensures ExtractLayerHash(h + ".tar", length) == Some(h[..Min(length, |h|)])
  {
    var s := h + ".tar";
    assert !EndsWith(s, "/layer.tar") by {
      if |s| >= 10 {
        assert s[|s| - 10] == h[|h| - 6];
      }
    }
    assert !EndsWith(s, ".tar.gz") by {
      assert s[|s| - 1] == 'r';
    }
    TrimSingleSuffix(h, ".tar", '.');
    AfterLastSlashNoSlash(h);
  }

  /** `<id>.tar.gz` is tagged with the leading characters of `<id>`. */
  lemma LayerHashOfTarGz(h: string, length: nat)
    requires h != "" && '/' !in h && '.' !in h
    ensures ExtractLayerHash(h + ".tar.gz", length) == Some(h[..Min(length, |h|)])
  {
    var s := h + ".tar.gz";
    assert !EndsWith(s, "/layer.tar") by {
      assert s[|s| - 1] == 'z';
    }
    TrimSingleSuffix(h, ".tar.gz", '.');
    TrimAbsentSuffix(h, ".tar", '.');
    AfterLastSlashNoSlash(h);
  }

  // ---------------------------------------------------------------------------------------
  // Properties: path normalisation

  /** A path with no leading "./" and no trailing "/" is already normal. */
  lemma NormalizeClean(p: string)
    requires !StartsWith(p, "./") && !EndsWith(p, "/")
    ensures NormalizePath(p) == p
  {
  }

  /** Normalising twice is normalising once. */
  lemma NormalizeIdempotent(p: string)
    ensures NormalizePath(NormalizePath(p)) == NormalizePath(p)
  {
    NormalizeClean(NormalizePath(p));
  }

  /** Any number of leading "./" are insignificant. */
  lemma NormalizeDropsDotSlash(p: string)
    ensures NormalizePath("./" + p) == NormalizePath(p)
  {
    assert StartsWith("./" + p, "./");
    assert ("./" + p)[2..] == p;
  }

  /** "." alone is kept; "./" alone normalises to nothing. */
  lemma NormalizeDot()
    ensures NormalizePath(".") == "."
    ensures NormalizePath("./") == ""
  {
    NormalizeClean(".");
    NormalizeDropsDotSlash("");
    NormalizeClean("");
  }

  // ---------------------------------------------------------------------------------------
  // Properties: one entry

  /** A readable whiteout entry is its marker applied, whatever its type. */
  lemma ApplyMarkerUnfold(t: Node, h: Header, hash: Option<string>, attach: Attach)
    requires HeaderReadable(h)
    requires NormalizePath(h.path.value) != "" && IsWhiteout(NormalizePath(h.path.value))
    ensures ApplyEntry(t, h, hash, attach) == Success(Applied(ApplyMarker(t, NormalizePath(h.path.value)), []))
  {
  }

  /** A readable entry that is not a whiteout goes to the dispatch on its type. */
  lemma ApplyKindUnfold(t: Node, h: Header, hash: Option<string>, attach: Attach)
    requires HeaderReadable(h)
    requires NormalizePath(h.path.value) != "" && !IsWhiteout(NormalizePath(h.path.value))
    ensures ApplyEntry(t, h, hash, attach) ==
      ApplyKind(t, h.kind, h.linkName, NormalizePath(h.path.value), h.mode.value, h.uid.value, h.gid.value, hash, attach)
  {
  }

  /** An entry whose path reads but normalises to nothing changes nothing, whatever else
      its header holds. */
  lemma ApplyEmptyPath(t: Node, h: Header, hash: Option<string>, attach: Attach)
    requires h.path.Success? && NormalizePath(h.path.value) == ""
    ensures ApplyEntry(t, h, hash, attach) == Success(Applied(t, []))
  {
  }

  /** An unreadable mode, uid or gid on a non-empty path rejects the entry. */
  lemma ApplyUnreadableFails(t: Node, h: Header, hash: Option<string>, attach: Attach)
    requires h.path.Success? && NormalizePath(h.path.value) != "" && !HeaderReadable(h)
    ensures ApplyEntry(t, h, hash, attach).Failure?
  {
  }

  /** The type dispatch fails only on an unreadable link name of a symlink or hard link. */
  lemma ApplyKindFails(t: Node, kind: EntryKind, linkName: Result<Option<string>, string>, n: string,
                       mode: Mode, uid: Id, gid: Id, hash: Option<string>, attach: Attach)
    ensures ApplyKind(t, kind, linkName, n, mode, uid, gid, hash, attach).Failure? <==>
      (kind == Symlink || kind == Link) && linkName.Failure?
  {
  }

  /** The headers `apply_entry` rejects whatever the tree: an unreadable path; on a path that
      does not normalise to nothing, an unreadable mode, uid or gid; on a symlink or hard link
      that is not a whiteout, an unreadable link name. */
  predicate Rejected(h: Header) {
    || h.path.Failure?
    || (var n := NormalizePath(h.path.value);
        && n != ""
        && (|| !HeaderReadable(h)
            || (!IsWhiteout(n) && (h.kind == Symlink || h.kind == Link) && h.linkName.Failure?)))
  }

  /** `apply_entry` fails exactly on the rejected headers, so whether an entry is skipped
      never depends on the tree it meets. */
  lemma ApplyFailsIff(t: Node, h: Header, hash: Option<string>, attach: Attach)
    ensures ApplyEntry(t, h, hash, attach).Failure? <==> Rejected(h)
  {
    if h.path.Success? {
      var n := NormalizePath(h.path.value);
      if n == "" {
        ApplyEmptyPath(t, h, hash, attach);
      } else if !HeaderReadable(h) {
        ApplyUnreadableFails(t, h, hash, attach);
      } else if IsWhiteout(n) {
        ApplyMarkerUnfold(t, h, hash, attach);
      } else {
        ApplyKindUnfold(t, h, hash, attach);
        ApplyKindFails(t, h.kind, h.linkName, n, h.mode.value, h.uid.value, h.gid.value, hash, attach);
      }
    }
  }

  /** A whiteout entry, of whatever type, only takes nodes away: every node left keeps the
      metadata it had. An opaque marker empties the directory it names; a plain marker removes
      its target with the whole subtree. */
  lemma ApplyWhiteout(t: Node, h: Header, hash: Option<string>, attach: Attach)
    requires HeaderReadable(h)
    requires NormalizePath(h.path.value) != "" && IsWhiteout(NormalizePath(h.path.value))
    ensures var r := ApplyEntry(t, h, hash, attach); var n := NormalizePath(h.path.value);
      && r.Success? && r.value.warnings == []
      && (forall q :: MetaAt(r.value.tree, q).Some? ==> MetaAt(r.value.tree, q) == MetaAt(t, q))
      && (IsOpaque(n) ==> forall q :: Components(OpaqueDir(n)) < q ==> Get(r.value.tree, q) == None)
      && (IsOpaque(n) ==> forall q :: !(Components(OpaqueDir(n)) < q) ==> MetaAt(r.value.tree, q) == MetaAt(t, q))
      && (!IsOpaque(n) ==> forall q :: LeafPath(WhiteoutTarget(n)) <= q ==> Get(r.value.tree, q) == None)
      && (!IsOpaque(n) ==> forall q :: !(LeafPath(WhiteoutTarget(n)) <= q) ==> MetaAt(r.value.tree, q) == MetaAt(t, q))
  {
    var n := NormalizePath(h.path.value);
    ApplyMarkerUnfold(t, h, hash, attach);
    var r := ApplyMarker(t, n);
    if IsOpaque(n) {
      MarkOpaqueSpec(t, OpaqueDir(n));
    } else {
      forall q | LeafPath(WhiteoutTarget(n)) <= q
        ensures Get(r, q) == None
      {
        RemoveGone(t, WhiteoutTarget(n), q);
      }
      forall q | !(LeafPath(WhiteoutTarget(n)) <= q)
        ensures MetaAt(r, q) == MetaAt(t, q)
      {
        RemoveKeeps(t, WhiteoutTarget(n), q);
      }
    }
  }

  /** The entry `d/.wh.x` deletes `d/x`. */
  lemma WhiteoutRemovesSibling(t: Node, h: Header, hash: Option<string>, d: string, x: string, attach: Attach)
    requires HeaderReadable(h)
    requires NormalizePath(h.path.value) == JoinDir(d, WhiteoutPrefix + x)
    requires x != "" && '/' !in x && x != ".wh..opq"
    ensures var r := ApplyEntry(t, h, hash, attach);
      r.Success? && Get(r.value.tree, Components(d) + [x]) == None
  {
    var n := NormalizePath(h.path.value);
    PlainMarkerNotOpaque(d, x);
    WhiteoutTargetOfMarker(d, x);
    SplitJoin(d, x);
    ComponentsOfTrivial();
    assert LeafPath(WhiteoutTarget(n)) == Components(d) + [x];
    ApplyWhiteout(t, h, hash, attach);
  }

  /** The entry `d/.wh..wh..opq` empties `d` and leaves every other node as it was. */
  lemma OpaqueMarkerClears(t: Node, h: Header, hash: Option<string>, d: string, attach: Attach)
    requires HeaderReadable(h)
    requires NormalizePath(h.path.value) == JoinDir(d, OpaqueWhiteout)
    ensures var r := ApplyEntry(t, h, hash, attach);
      && r.Success?
      && (forall q :: Components(d) < q ==> Get(r.value.tree, q) == None)
      && (forall q :: !(Components(d) < q) ==> MetaAt(r.value.tree, q) == MetaAt(t, q))
  {
    IsWhiteoutIff(d, OpaqueWhiteout);
    OpaqueIsWhiteout(NormalizePath(h.path.value));
    ApplyMarkerUnfold(t, h, hash, attach);
    OpaqueDirOfMarker(d);
    MarkOpaqueSpec(t, d);
  }

  /** A directory entry makes its whole path exist. Nodes already there keep their kind, mode,
      owner and children and only take the layer tag; missing ones are new directories with
      the entry's mode, uid and gid. Nothing off the path changes. */
  lemma ApplyDirectory(t: Node, h: Header, hash: Option<string>, attach: Attach)
    requires HeaderReadable(h) && h.kind == Directory
    requires NormalizePath(h.path.value) != "" && !IsWhiteout(NormalizePath(h.path.value))
    ensures var r := ApplyEntry(t, h, hash, attach); var cs := Components(NormalizePath(h.path.value));
      && r.Success? && r.value.warnings == []
      && (forall q :: q <= cs && q != [] ==>
            MetaAt(r.value.tree, q) == Some(Stamped(Get(t, q), h.mode.value, h.uid.value, h.gid.value, hash)))
      && (forall q :: !(q <= cs) ==> Get(r.value.tree, q) == Get(t, q))
  {
    ApplyKindUnfold(t, h, hash, attach);
    EnsurePathSpec(t, NormalizePath(h.path.value), h.mode.value, h.uid.value, h.gid.value, hash);
  }

  /** A regular-file entry leaves exactly a fresh, non-symlink file at its path, and nothing
      beside that path changes. */
  lemma ApplyRegular(t: Node, h: Header, hash: Option<string>, attach: Attach)
    requires HeaderReadable(h) && h.kind == Regular
    requires NormalizePath(h.path.value) != "" && !IsWhiteout(NormalizePath(h.path.value))
    ensures var r := ApplyEntry(t, h, hash, attach); var leaf := LeafPath(NormalizePath(h.path.value));
      && r.Success? && r.value.warnings == []
      && Get(r.value.tree, leaf) == Some(FileNode(h.mode.value, h.uid.value, h.gid.value, false, None, hash))
      && (forall q :: !(q <= leaf) && !(leaf <= q) ==> Get(r.value.tree, q) == Get(t, q))
  {
    var n, mode, uid, gid := NormalizePath(h.path.value), h.mode.value, h.uid.value, h.gid.value;
    ApplyKindUnfold(t, h, hash, attach);
    var r := PutFile(t, n, mode, uid, gid, false, None, hash);
    assert ApplyEntry(t, h, hash, attach) == Success(Applied(r, []));
    PutFileLeaf(t, n, mode, uid, gid, false, None, hash);
    forall q | !(q <= LeafPath(n)) && !(LeafPath(n) <= q)
      ensures Get(r, q) == Get(t, q)
    {
      PutFileBeside(t, n, mode, uid, gid, false, None, hash, q);
    }
  }

  /** A symlink entry leaves a fresh file flagged as a symlink, holding the link name exactly
      as read, and nothing beside that path changes; an unreadable link name rejects the
      entry. */
  lemma ApplySymlink(t: Node, h: Header, hash: Option<string>, attach: Attach)
    requires HeaderReadable(h) && h.kind == Symlink
    requires NormalizePath(h.path.value) != "" && !IsWhiteout(NormalizePath(h.path.value))
    ensures var r := ApplyEntry(t, h, hash, attach); var leaf := LeafPath(NormalizePath(h.path.value));
      && (h.linkName.Failure? ==> r.Failure?)
      && (h.linkName.Success? ==>
            && r.Success? && r.value.warnings == []
            && Get(r.value.tree, leaf) == Some(FileNode(h.mode.value, h.uid.value, h.gid.value, true, h.linkName.value, hash))
            && (forall q :: !(q <= leaf) && !(leaf <= q) ==> Get(r.value.tree, q) == Get(t, q)))
  {
    var n, mode, uid, gid := NormalizePath(h.path.value), h.mode.value, h.uid.value, h.gid.value;
    ApplyKindUnfold(t, h, hash, attach);
    if h.linkName.Success? {
      var link := h.linkName.value;
      PutFileLeaf(t, n, mode, uid, gid, true, link, hash);
      forall q | !(q <= LeafPath(n)) && !(LeafPath(n) <= q)
        ensures Get(PutFile(t, n, mode, uid, gid, true, link, hash), q) == Get(t, q)
      {
        PutFileBeside(t, n, mode, uid, gid, true, link, hash, q);
      }
    }
  }

  /** What `put_file` leaves for a hard link: the fresh file at the leaf keys, and every
      node beside them with its old metadata. */
  lemma StoredLinkFile(t: Node, n: string, mode: Mode, uid: Id, gid: Id, hash: Option<string>)
    ensures var stored := PutFile(t, n, mode, uid, gid, false, None, hash); var leaf := LeafPath(n);
      && Get(stored, leaf) == Some(FileNode(mode, uid, gid, false, None, hash))
      && (forall q :: !(q <= leaf) && !(leaf <= q) ==> MetaAt(stored, q) == MetaAt(t, q))
  {
    var leaf := LeafPath(n);
    PutFileLeaf(t, n, mode, uid, gid, false, None, hash);
    forall q | !(q <= leaf) && !(leaf <= q)
      ensures MetaAt(PutFile(t, n, mode, uid, gid, false, None, hash), q) == MetaAt(t, q)
    {
      PutFileBeside(t, n, mode, uid, gid, false, None, hash, q);
    }
  }

  /** The attachment step keeps a node at the leaf and changes no other node: a successful
      attachment sets the leaf's hard-link text, a failed one keeps the stored tree and costs
      exactly one warning. */
  lemma AttachLinkSpec(stored: Node, n: string, link: Option<string>, attach: Attach, file: Node)
    requires Get(stored, LeafPath(n)) == Some(file)
    ensures var r := AttachLink(stored, n, link, attach); var leaf := LeafPath(n);
      && (forall q :: q != leaf ==> MetaAt(r.tree, q) == MetaAt(stored, q))
      && (link.None? ==> r == Applied(stored, []))
      && (link.Some? && attach(stored, n, link.value).Success? ==>
            && r.warnings == []
            && Get(r.tree, leaf) == Some(file.(meta := file.meta.(hardlinkTarget := link))))
      && (link.Some? && attach(stored, n, link.value).Failure? ==>
            r == Applied(stored, [HardlinkNotSet(attach(stored, n, link.value).error)]))
  {
    if link.Some? {
      AttachSpec(attach, stored, n, link.value, file);
    }
  }

  /** A hard-link entry first stores a fresh non-symlink file at its path, as a regular-file
      entry does, and with a link name then tries to attach it. A successful attachment
      records the link name on that file; a failed one leaves the file exactly as stored and
      costs one `HardlinkNotSet` warning. Either way a file sits at the path and nothing beside
      the path changes; an unreadable link name rejects the entry. */
  lemma ApplyHardlink(t: Node, h: Header, hash: Option<string>, attach: Attach)
    requires HeaderReadable(h) && h.kind == Link
    requires NormalizePath(h.path.value) != "" && !IsWhiteout(NormalizePath(h.path.value))
    ensures var r := ApplyEntry(t, h, hash, attach); var n := NormalizePath(h.path.value); var leaf := LeafPath(n);
      var file := FileNode(h.mode.value, h.uid.value, h.gid.value, false, None, hash);
      var stored := PutFile(t, n, h.mode.value, h.uid.value, h.gid.value, false, None, hash);
      && (h.linkName.Failure? ==> r.Failure?)
      && (h.linkName.Success? ==>
            && r.Success?
            && (forall q :: !(q <= leaf) && !(leaf <= q) ==> MetaAt(r.value.tree, q) == MetaAt(t, q))
            && (h.linkName.value.None? ==> r.value.warnings == [] && Get(r.value.tree, leaf) == Some(file))
            && (h.linkName.value.Some? && attach(stored, n, h.linkName.value.value).Success? ==>
                  && r.value.warnings == []
                  && Get(r.value.tree, leaf) == Some(file.(meta := file.meta.(hardlinkTarget := h.linkName.value))))
            && (h.linkName.value.Some? && attach(stored, n, h.linkName.value.value).Failure? ==>
                  && r.value.warnings == [HardlinkNotSet(attach(stored, n, h.linkName.value.value).error)]
                  && r.value.tree == stored
                  && Get(r.value.tree, leaf) == Some(file)))
  {
    ApplyKindUnfold(t, h, hash, attach);
    if h.linkName.Success? {
      var n, mode, uid, gid, link := NormalizePath(h.path.value), h.mode.value, h.uid.value, h.gid.value, h.linkName.value;
      var stored := PutFile(t, n, mode, uid, gid, false, None, hash);
      assert ApplyKind(t, Link, h.linkName, n, mode, uid, gid, hash, attach) == Success(AttachLink(stored, n, link, attach));
      StoredLinkFile(t, n, mode, uid, gid, hash);
      AttachLinkSpec(stored, n, link, attach, FileNode(mode, uid, gid, false, None, hash));
    }
  }

  /** Devices, fifos and the other entry types contribute nothing. */
  lemma ApplyOther(t: Node, h: Header, hash: Option<string>, attach: Attach)
    requires HeaderReadable(h) && h.kind == Other
    requires NormalizePath(h.path.value) != "" && !IsWhiteout(NormalizePath(h.path.value))
    ensures ApplyEntry(t, h, hash, attach) == Success(Applied(t, []))
  {
    ApplyKindUnfold(t, h, hash, attach);
  }

  // ---------------------------------------------------------------------------------------
  // Properties: one layer

  /** Applying `xs + ys` is applying `xs`, then `ys` to the result. */
  lemma {:induction false} FoldAppend(acc: Applied, xs: seq<Result<Header, string>>,
                                      ys: seq<Result<Header, string>>, hash: Option<string>, attach: Attach)
    ensures FoldEntries(acc, xs + ys, hash, attach) == FoldEntries(FoldEntries(acc, xs, hash, attach), ys, hash, attach)
    decreases |xs|
  {
    if xs == [] {
      assert xs + ys == ys;
    } else {
      assert (xs + ys)[0] == xs[0] && (xs + ys)[1..] == xs[1..] + ys;
      FoldAppend(Step(acc, xs[0], hash, attach), xs[1..], ys, hash, attach);
    }
  }

  /** The warnings issued so far never influence the tree. */
  lemma {:induction false} FoldTreeIgnoresWarnings(a: Applied, b: Applied, es: seq<Result<Header, string>>,
                                                   hash: Option<string>, attach: Attach)
    requires a.tree == b.tree
    ensures FoldEntries(a, es, hash, attach).tree == FoldEntries(b, es, hash, attach).tree
    decreases |es|
  {
    if es != [] {
      FoldTreeIgnoresWarnings(Step(a, es[0], hash, attach), Step(b, es[0], hash, attach), es[1..], hash, attach);
    }
  }

  /** An entry that cannot be read, or that `apply_entry` rejects, leaves the tree as it was
      and adds exactly one warning. */
  lemma FailedStepKeepsTree(acc: Applied, e: Result<Header, string>, hash: Option<string>, attach: Attach)
    requires e.Failure? || ApplyEntry(acc.tree, e.value, hash, attach).Failure?
    ensures Step(acc, e, hash, attach).tree == acc.tree
    ensures |Step(acc, e, hash, attach).warnings| == |acc.warnings| + 1
  {
  }

  /** An unreadable or rejected entry is skipped without disturbing the entries around it:
      the layer's tree is the one it would be without that entry. */
  lemma SkippedEntryIsolated(acc: Applied, xs: seq<Result<Header, string>>, e: Result<Header, string>,
                             ys: seq<Result<Header, string>>, hash: Option<string>, attach: Attach)
    requires e.Failure? || Rejected(e.value)
    ensures FoldEntries(acc, xs + [e] + ys, hash, attach).tree == FoldEntries(acc, xs + ys, hash, attach).tree
  {
    var mid := FoldEntries(acc, xs, hash, attach);
    if e.Success? {
      ApplyFailsIff(mid.tree, e.value, hash, attach);
    }
    FoldAppend(acc, xs + [e], ys, hash, attach);
    FoldAppend(acc, xs, [e], hash, attach);
    FoldAppend(acc, xs, ys, hash, attach);
    assert FoldEntries(mid, [e], hash, attach) == Step(mid, e, hash, attach);
    FoldTreeIgnoresWarnings(Step(mid, e, hash, attach), mid, ys, hash, attach);
  }

  // ---------------------------------------------------------------------------------------
  // Properties: the outer archive

  /** The usual layer names are staged, compressed exactly when they end in ".tar.gz". */
  lemma ClassifyLayerNames(h: string)
    ensures ClassifyOuter(h + "/layer.tar") == LayerBlob(false)
    ensures ClassifyOuter(h + ".tar") == LayerBlob(false)
    ensures ClassifyOuter(h + ".tar.gz") == LayerBlob(true)
  {
    assert (h + "/layer.tar")[|h| + 10 - 4..] == ".tar";
    assert !EndsWith(h + "/layer.tar", ".tar.gz") by {
      assert (h + "/layer.tar")[|h| + 9] == 'r';
    }
    assert (h + ".tar")[|h|..] == ".tar";
    assert !EndsWith(h + ".tar", ".tar.gz") by {
      assert (h + ".tar")[|h| + 3] == 'r';
    }
    assert (h + ".tar.gz")[|h|..] == ".tar.gz";
    assert (h + ".tar.gz") != "manifest.json" by {
      assert (h + ".tar.gz")[|h| + 6] == 'z';
    }
  }

  /** An outer entry the first pass can read: its header reads, and so does its body when
      the entry is a manifest or a layer. */
  predicate EntryReadable(e: Result<OuterEntry, string>) {
    e.Success? && (ClassifyOuter(e.value.path).Ignored? || e.value.body.Success?)
  }

  predicate OuterReadable(es: seq<Result<OuterEntry, string>>) {
    forall i :: 0 <= i < |es| ==> EntryReadable(es[i])
  }

  /** Reference: the body of the last readable manifest entry, searching from the back. */
  function LastManifest(es: seq<Result<OuterEntry, string>>): Option<Bytes>
    decreases |es|
  {
    if es == [] then None
    else
      var e := es[|es| - 1];
      if e.Success? && ClassifyOuter(e.value.path).ManifestFile? && e.value.body.Success? then
        Some(e.value.body.value)
      else LastManifest(es[..|es| - 1])
  }

  /** Reference: the blob of the last readable layer entry called `name`, searching from the
      back. */
  function LastLayer(es: seq<Result<OuterEntry, string>>, name: string): Option<Staged>
    decreases |es|
  {
    if es == [] then None
    else
      var e := es[|es| - 1];
      if e.Success? && e.value.path == name && ClassifyOuter(name).LayerBlob? && e.value.body.Success? then
        Some(Staged(e.value.body.value, ClassifyOuter(name).gzip))
      else LastLayer(es[..|es| - 1], name)
  }

  function Lookup(m: map<string, Staged>, name: string): Option<Staged> {
    if name in m then Some(m[name]) else None
  }

  /** The first pass over a non-empty list is the pass over all but the last entry, then one
      step for the last. */
  lemma {:induction false} ScanFromSnoc(acc: Scan, es: seq<Result<OuterEntry, string>>)
    requires es != []
    ensures ScanFrom(acc, es) ==
      match ScanFrom(acc, es[..|es| - 1])
      case Failure(err) => Failure(err)
      case Success(s) => ScanStep(s, es[|es| - 1])
    decreases |es|
  {
    var init := es[..|es| - 1];
    if |es| == 1 {
      assert init == [];
    } else {
      assert init[0] == es[0];
      assert init[1..] == es[1..][..|es| - 2];
      assert es[1..][|es| - 2] == es[|es| - 1];
      match ScanStep(acc, es[0])
      case Failure(_) =>
      case Success(next) =>
        ScanFromSnoc(next, es[1..]);
    }
  }

  /** The pass from an empty staging, by induction on the entries: it succeeds exactly when
      every entry it needs can be read, keeping the last manifest and the last blob per name. */
  lemma {:induction false} ScanFromEmptySpec(es: seq<Result<OuterEntry, string>>)
    ensures ScanFrom(Scan(None, map[]), es).Success? <==> OuterReadable(es)
    ensures ScanFrom(Scan(None, map[]), es).Success? ==> ScanFrom(Scan(None, map[]), es).value.manifest == LastManifest(es)
    ensures ScanFrom(Scan(None, map[]), es).Success? ==>
      forall name :: Lookup(ScanFrom(Scan(None, map[]), es).value.layers, name) == LastLayer(es, name)
    decreases |es|
  {
    if es != [] {
      var init := es[..|es| - 1];
      var e := es[|es| - 1];
      ScanFromSnoc(Scan(None, map[]), es);
      ScanFromEmptySpec(init);
      assert OuterReadable(es) <==> OuterReadable(init) && EntryReadable(e) by {
        if OuterReadable(init) && EntryReadable(e) {
          forall i | 0 <= i < |es|
            ensures EntryReadable(es[i])
          {
            if i < |init| {
              assert es[i] == init[i];
            }
          }
        }
        if OuterReadable(es) {
          forall i | 0 <= i < |init|
            ensures EntryReadable(init[i])
          {
            assert es[i] == init[i];
          }
        }
      }
    }
  }

  /** The first pass succeeds exactly when every entry it needs can be read; it then keeps
      the last manifest seen and, for every name, the last layer blob with that name. */
  lemma ScanOuterSpec(es: seq<Result<OuterEntry, string>>)
    ensures ScanOuter(es).Success? <==> OuterReadable(es)
    ensures ScanOuter(es).Success? ==> ScanOuter(es).value.manifest == LastManifest(es)
    ensures ScanOuter(es).Success? ==>
      forall name :: Lookup(ScanOuter(es).value.layers, name) == LastLayer(es, name)
  {
    ScanFromEmptySpec(es);
  }

  /** Where an image repeats a name, the layer it resolves to is the last entry with that name. */
  lemma LastEntryWins(es: seq<Result<OuterEntry, string>>, name: string, first: Bytes, last: Bytes)
    requires ClassifyOuter(name).LayerBlob? && OuterReadable(es + [Success(OuterEntry(name, Success(first)))])
    ensures var all := es + [Success(OuterEntry(name, Success(first))), Success(OuterEntry(name, Success(last)))];
      ScanOuter(all).Success? && Lookup(ScanOuter(all).value.layers, name) == Some(Staged(last, ClassifyOuter(name).gzip))
  {
    var all := es + [Success(OuterEntry(name, Success(first))), Success(OuterEntry(name, Success(last)))];
    var pre := es + [Success(OuterEntry(name, Success(first)))];
    assert all[..|all| - 1] == pre;
    assert OuterReadable(all) by {
      forall i | 0 <= i < |all|
        ensures EntryReadable(all[i])
      {
        if i < |pre| {
          assert all[i] == pre[i];
        }
      }
    }
    ScanOuterSpec(all);
  }

  // ---------------------------------------------------------------------------------------
  // Properties: merging the layers

  /** The layer named `name` can be staged and decoded. */
  predicate LayerAvailable(name: string, staged: map<string, Staged>,
                           decode: (Bytes, bool) -> Result<seq<Result<Header, string>>, string>) {
    name in staged && decode(staged[name].blob, staged[name].gzip).Success?
  }

  /** Merging fails exactly when some listed layer is missing or cannot be decoded. */
  lemma {:induction false} MergeSucceedsIff(acc: Applied, names: seq<string>, staged: map<string, Staged>,
                                            showLayers: bool,
                                            decode: (Bytes, bool) -> Result<seq<Result<Header, string>>, string>, attach: Attach)
    ensures MergeLayers(acc, names, staged, showLayers, decode, attach).Success? <==>
      forall i :: 0 <= i < |names| ==> LayerAvailable(names[i], staged, decode)
    decreases |names|
  {
    if names != [] && LayerAvailable(names[0], staged, decode) {
      var entries := decode(staged[names[0]].blob, staged[names[0]].gzip).value;
      MergeSucceedsIff(FoldEntries(acc, entries, LayerTag(names[0], showLayers), attach), names[1..], staged, showLayers, decode, attach);
      assert forall i :: 1 <= i < |names| ==> names[i] == names[1..][i - 1];
    }
  }

  /** A failed merge names a listed layer and says truthfully what is wrong with it. */
  lemma {:induction false} MergeErrorNamesLayer(acc: Applied, names: seq<string>, staged: map<string, Staged>,
                                                showLayers: bool,
                                                decode: (Bytes, bool) -> Result<seq<Result<Header, string>>, string>, attach: Attach)
    ensures var r := MergeLayers(acc, names, staged, showLayers, decode, attach);
      r.Failure? ==>
        || (r.error.LayerMissing? && r.error.name in names && r.error.name !in staged)
        || (r.error.LayerUnreadable? && r.error.name in names && r.error.name in staged &&
            decode(staged[r.error.name].blob, staged[r.error.name].gzip) == Failure(r.error.reason))
    decreases |names|
  {
    if names != [] && LayerAvailable(names[0], staged, decode) {
      var entries := decode(staged[names[0]].blob, staged[names[0]].gzip).value;
      MergeErrorNamesLayer(FoldEntries(acc, entries, LayerTag(names[0], showLayers), attach), names[1..], staged, showLayers, decode, attach);
    }
  }

  /** Only the blobs staged under the listed names matter. */
  lemma {:induction false} MergeByName(acc: Applied, names: seq<string>, staged: map<string, Staged>,
                                       other: map<string, Staged>, showLayers: bool,
                                       decode: (Bytes, bool) -> Result<seq<Result<Header, string>>, string>, attach: Attach)
    requires forall i :: 0 <= i < |names| ==> Lookup(staged, names[i]) == Lookup(other, names[i])
    ensures MergeLayers(acc, names, staged, showLayers, decode, attach) == MergeLayers(acc, names, other, showLayers, decode, attach)
    decreases |names|
  {
    if names != [] {
      assert Lookup(staged, names[0]) == Lookup(other, names[0]);
      if LayerAvailable(names[0], staged, decode) {
        var entries := decode(staged[names[0]].blob, staged[names[0]].gzip).value;
        assert forall i :: 0 <= i < |names[1..]| ==> names[1..][i] == names[i + 1];
        MergeByName(FoldEntries(acc, entries, LayerTag(names[0], showLayers), attach), names[1..], staged, other, showLayers, decode, attach);
      }
    }
  }

  /** Merging `xs + ys` is merging `xs`, then merging `ys` on top, stopping at the first error. */
  lemma {:induction false} MergeAppend(acc: Applied, xs: seq<string>, ys: seq<string>, staged: map<string, Staged>,
                                       showLayers: bool,
                                       decode: (Bytes, bool) -> Result<seq<Result<Header, string>>, string>, attach: Attach)
    ensures MergeLayers(acc, xs + ys, staged, showLayers, decode, attach) ==
      match MergeLayers(acc, xs, staged, showLayers, decode, attach)
      case Failure(err) => Failure(err)
      case Success(a) => MergeLayers(a, ys, staged, showLayers, decode, attach)
    decreases |xs|
  {
    if xs == [] {
      assert xs + ys == ys;
    } else {
      assert (xs + ys)[0] == xs[0] && (xs + ys)[1..] == xs[1..] + ys;
      if LayerAvailable(xs[0], staged, decode) {
        var entries := decode(staged[xs[0]].blob, staged[xs[0]].gzip).value;
        MergeAppend(FoldEntries(acc, entries, LayerTag(xs[0], showLayers), attach), xs[1..], ys, staged, showLayers, decode, attach);
      }
    }
  }

  /** One layer on top of what came before: its entries folded with its own tag. */
  lemma MergeOneLayer(acc: Applied, name: string, staged: map<string, Staged>, showLayers: bool,
                      decode: (Bytes, bool) -> Result<seq<Result<Header, string>>, string>, attach: Attach)
    requires LayerAvailable(name, staged, decode)
    ensures MergeLayers(acc, [name], staged, showLayers, decode, attach) ==
      Success(FoldEntries(acc, decode(staged[name].blob, staged[name].gzip).value, LayerTag(name, showLayers), attach))
  {
    assert [name][1..] == [];
  }

  // ---------------------------------------------------------------------------------------
  // Properties: the whole archive

  /** The outcomes of `process_archive`: an unreadable outer entry, a missing manifest and an
      invalid manifest are fatal; otherwise the merge succeeds exactly when every listed layer
      resolves, by the last entry of its name, to a blob that decodes; an empty layer list
      yields the bare root directory. */
  lemma ProcessArchiveOutcomes(outer: seq<Result<OuterEntry, string>>, showLayers: bool,
                               parse: Bytes -> Result<seq<string>, string>,
                               decode: (Bytes, bool) -> Result<seq<Result<Header, string>>, string>, attach: Attach)
    ensures var r := ProcessArchive(outer, showLayers, parse, decode, attach);
      && (!OuterReadable(outer) ==> r.Failure? && r.error.EntryUnreadable?)
      && (OuterReadable(outer) && LastManifest(outer).None? ==> r == Failure(ManifestMissing))
      && (OuterReadable(outer) && LastManifest(outer).Some? && parse(LastManifest(outer).value).Failure? ==>
            r == Failure(ManifestInvalid(parse(LastManifest(outer).value).error)))
      && (OuterReadable(outer) && LastManifest(outer).Some? && parse(LastManifest(outer).value) == Success([]) ==>
            r == Success(Applied(NewDir(DefaultDirMode, 0, 0), [])))
      && (OuterReadable(outer) && LastManifest(outer).Some? && parse(LastManifest(outer).value).Success? ==>
            var names := parse(LastManifest(outer).value).value;
            (r.Success? <==> forall i :: 0 <= i < |names| ==>
               LastLayer(outer, names[i]).Some? &&
               decode(LastLayer(outer, names[i]).value.blob, LastLayer(outer, names[i]).value.gzip).Success?))
  {
    ScanOuterSpec(outer);
    if OuterReadable(outer) && LastManifest(outer).Some? && parse(LastManifest(outer).value).Success? {
      var names := parse(LastManifest(outer).value).value;
      var staged := ScanOuter(outer).value.layers;
      MergeSucceedsIff(Applied(NewDir(DefaultDirMode, 0, 0), []), names, staged, showLayers, decode, attach);
      forall i | 0 <= i < |names|
        ensures LayerAvailable(names[i], staged, decode) <==>
          LastLayer(outer, names[i]).Some? &&
          decode(LastLayer(outer, names[i]).value.blob, LastLayer(outer, names[i]).value.gzip).Success?
      {
        assert Lookup(staged, names[i]) == LastLayer(outer, names[i]);
      }
    }
  }

  // ---------------------------------------------------------------------------------------
  // The first pass as written: staged files named by a counter

  /** A staged temp file as the first pass names it: `layer-<index>` plus ".tar.gz" or
      ".tar", the index being the number of distinct layer names staged so far. */
  datatype TempName = TempName(index: nat, gzip: bool)

  /** The first pass as written: names point at temp files, and the temp files hold bytes. */
  datatype StagingAsWritten = StagingAsWritten(manifest: Option<Bytes>, paths: map<string, TempName>,
                                               files: map<TempName, Bytes>)

  function StageStepAsWritten(acc: StagingAsWritten, e: Result<OuterEntry, string>)
    : (r: Result<StagingAsWritten, ArchiveError>)
    ensures r.Failure? <==> !EntryReadable(e)
  {
    match e
    case Failure(err) => Failure(EntryUnreadable(err))
    case Success(entry) =>
      match ClassifyOuter(entry.path)
      case Ignored => Success(acc)
      case ManifestFile =>
        (match entry.body
         case Failure(err) => Failure(EntryUnreadable(err))
         case Success(bytes) => Success(acc.(manifest := Some(bytes))))
      case LayerBlob(gzip) =>
        (match entry.body
         case Failure(err) => Failure(EntryUnreadable(err))
         case Success(bytes) =>
           var tmp := TempName(|acc.paths|, gzip);
           Success(acc.(paths := acc.paths[entry.path := tmp], files := acc.files[tmp := bytes])))
  }

  function StageFromAsWritten(acc: StagingAsWritten, es: seq<Result<OuterEntry, string>>)
    : (r: Result<StagingAsWritten, ArchiveError>)
    ensures r.Failure? <==> !OuterReadable(es)
    decreases |es|
  {
    if es == [] then Success(acc)
    else
      assert OuterReadable(es) <==> EntryReadable(es[0]) && OuterReadable(es[1..]) by {
        assert forall i :: 0 < i < |es| ==> es[i] == es[1..][i - 1];
      }
      var next :- StageStepAsWritten(acc, es[0]);
      StageFromAsWritten(next, es[1..])
  }

  /** What the second pass reads for `name` under the as-written staging: the bytes of the
      temp file the name points at, compressed as that file's extension says. */
  function ResolveAsWritten(s: StagingAsWritten, name: string): Option<Staged> {
    if name in s.paths && s.paths[name] in s.files then
      Some(Staged(s.files[s.paths[name]], s.paths[name].gzip))
    else None
  }

  /** The as-written staging holds the same manifest and the same names as the by-name one,
      and every name points at a temp file that exists and has the name's compression. */
  predicate Covers(s: StagingAsWritten, sc: Scan) {
    && s.manifest == sc.manifest
    && s.paths.Keys == sc.layers.Keys
    && forall name :: name in s.paths ==> s.paths[name] in s.files && s.paths[name].gzip == sc.layers[name].gzip
  }

  /** One outer entry is accepted by both passes or by neither, and keeps the as-written
      staging covering the by-name one; temp files are only ever added or overwritten. */
  lemma CoversStep(s: StagingAsWritten, sc: Scan, e: Result<OuterEntry, string>)
    requires Covers(s, sc)
    ensures StageStepAsWritten(s, e).Success? <==> ScanStep(sc, e).Success?
    ensures StageStepAsWritten(s, e).Success? ==> Covers(StageStepAsWritten(s, e).value, ScanStep(sc, e).value)
  {
    if e.Success? && ClassifyOuter(e.value.path).LayerBlob? && e.value.body.Success? {
      var n, gzip := e.value.path, ClassifyOuter(e.value.path).gzip;
      var tmp := TempName(|s.paths|, gzip);
      var paths, files := s.paths[n := tmp], s.files[tmp := e.value.body.value];
      var layers := sc.layers[n := Staged(e.value.body.value, gzip)];
      forall name | name in paths
        ensures paths[name] in files && paths[name].gzip == layers[name].gzip
      {
        if name != n {
          assert paths[name] == s.paths[name] && s.paths[name] in s.files;
        }
      }
    }
  }

  /** Covering is kept to the end of any list of entries, repeated names included. */
  lemma {:induction false} CoversFrom(s: StagingAsWritten, sc: Scan, es: seq<Result<OuterEntry, string>>)
    requires Covers(s, sc)
    ensures StageFromAsWritten(s, es).Success? <==> ScanFrom(sc, es).Success?
    ensures StageFromAsWritten(s, es).Success? ==> Covers(StageFromAsWritten(s, es).value, ScanFrom(sc, es).value)
    decreases |es|
  {
    if es != [] {
      CoversStep(s, sc, es[0]);
      if StageStepAsWritten(s, es[0]).Success? {
        CoversFrom(StageStepAsWritten(s, es[0]).value, ScanStep(sc, es[0]).value, es[1..]);
      }
    }
  }

  /** Whatever the entries, the first pass as written succeeds exactly when the by-name pass
      does, keeps the last manifest, and finds a blob for a name exactly when the image has a
      layer entry of that name, with the compression of the last one: the temp-file naming
      never makes a present layer missing and never changes its compression, it can only
      swap bytes (Archive.StagingCollision). */
  lemma StagingFindsEveryLayer(es: seq<Result<OuterEntry, string>>)
    ensures var s := StageFromAsWritten(StagingAsWritten(None, map[], map[]), es);
      && (s.Success? <==> OuterReadable(es))
      && (s.Success? ==>
            && s.value.manifest == LastManifest(es)
            && forall name :: (ResolveAsWritten(s.value, name).Some? <==> LastLayer(es, name).Some?)
                 && (ResolveAsWritten(s.value, name).Some? ==>
                       ResolveAsWritten(s.value, name).value.gzip == LastLayer(es, name).value.gzip))
  {
    CoversFrom(StagingAsWritten(None, map[], map[]), Scan(None, map[]), es);
    ScanOuterSpec(es);
  }

  /** An outer entry whose header reads and whose name makes it a layer. */
  predicate IsLayerEntry(e: Result<OuterEntry, string>) {
    e.Success? && ClassifyOuter(e.value.path).LayerBlob?
  }

  /** No two layer entries share a name, as in an ordinary image archive. */
  predicate NoRepeatedLayers(es: seq<Result<OuterEntry, string>>) {
    forall i, j :: 0 <= i < j < |es| && IsLayerEntry(es[i]) && IsLayerEntry(es[j]) ==>
      es[i].value.path != es[j].value.path
  }

  /** The as-written staging and the by-name staging hold the same manifest, the same names,
      and, through distinct temp files, the same blob for every name. */
  predicate Agree(s: StagingAsWritten, sc: Scan) {
    && s.manifest == sc.manifest
    && s.paths.Keys == sc.layers.Keys
    && forall name :: name in s.paths ==>
         && s.paths[name].index < |s.paths|
         && s.paths[name] in s.files
         && Staged(s.files[s.paths[name]], s.paths[name].gzip) == sc.layers[name]
  }

  /** Staging a new layer name in both passes keeps them in agreement: the as-written pass
      writes a temp file no name points at yet. */
  lemma AgreeAddLayer(s: StagingAsWritten, sc: Scan, n: string, gzip: bool, bytes: Bytes)
    requires Agree(s, sc) && n !in sc.layers
    ensures var tmp := TempName(|s.paths|, gzip);
      Agree(s.(paths := s.paths[n := tmp], files := s.files[tmp := bytes]),
            sc.(layers := sc.layers[n := Staged(bytes, gzip)]))
  {
    var tmp := TempName(|s.paths|, gzip);
    var paths, files := s.paths[n := tmp], s.files[tmp := bytes];
    var layers := sc.layers[n := Staged(bytes, gzip)];
    assert |paths| == |s.paths| + 1;
    assert paths.Keys == layers.Keys;
    forall name | name in paths
      ensures paths[name].index < |paths| && paths[name] in files
      ensures Staged(files[paths[name]], paths[name].gzip) == layers[name]
    {
      if name != n {
        var old_tmp := s.paths[name];
        assert old_tmp.index < |s.paths| && old_tmp != tmp;
        assert paths[name] == old_tmp && files[old_tmp] == s.files[old_tmp];
      }
    }
  }

  /** One entry whose name, if a layer's, is not staged yet keeps the two stagings in agreement. */
  lemma AgreeStep(s: StagingAsWritten, sc: Scan, e: Result<OuterEntry, string>)
    requires Agree(s, sc)
    requires IsLayerEntry(e) ==> e.value.path !in sc.layers
    ensures StageStepAsWritten(s, e).Success? <==> ScanStep(sc, e).Success?
    ensures StageStepAsWritten(s, e).Success? ==>
      && Agree(StageStepAsWritten(s, e).value, ScanStep(sc, e).value)
      && ScanStep(sc, e).value.layers.Keys <= sc.layers.Keys + (if IsLayerEntry(e) then {e.value.path} else {})
  {
    if e.Success? && ClassifyOuter(e.value.path).LayerBlob? && e.value.body.Success? {
      AgreeAddLayer(s, sc, e.value.path, ClassifyOuter(e.value.path).gzip, e.value.body.value);
    }
  }

  /** From agreeing stagings, entries with no repeated or already staged layer name keep the
      two passes in agreement to the end. */
  lemma {:induction false} AgreeFrom(s: StagingAsWritten, sc: Scan, es: seq<Result<OuterEntry, string>>)
    requires Agree(s, sc) && NoRepeatedLayers(es)
    requires forall i :: 0 <= i < |es| && IsLayerEntry(es[i]) ==> es[i].value.path !in sc.layers
    ensures StageFromAsWritten(s, es).Success? <==> ScanFrom(sc, es).Success?
    ensures StageFromAsWritten(s, es).Success? ==>
      Agree(StageFromAsWritten(s, es).value, ScanFrom(sc, es).value)
    decreases |es|
  {
    if es != [] {
      AgreeStep(s, sc, es[0]);
      if StageStepAsWritten(s, es[0]).Success? {
        var rest := es[1..];
        var sc' := ScanStep(sc, es[0]).value;
        assert NoRepeatedLayers(rest) by {
          forall i, j | 0 <= i < j < |rest| && IsLayerEntry(rest[i]) && IsLayerEntry(rest[j])
            ensures rest[i].value.path != rest[j].value.path
          {
            assert rest[i] == es[i + 1] && rest[j] == es[j + 1];
          }
        }
        forall i | 0 <= i < |rest| && IsLayerEntry(rest[i])
          ensures rest[i].value.path !in sc'.layers
        {
          assert rest[i] == es[i + 1];
        }
        AgreeFrom(StageStepAsWritten(s, es[0]).value, sc', rest);
      }
    }
  }

  /** When no layer name repeats, the first pass as written and the by-name pass agree: both
      succeed or both fail, they keep the same manifest, and every name resolves to the same
      blob. */
  lemma StagingAgreesWithoutRepeats(es: seq<Result<OuterEntry, string>>)
    requires NoRepeatedLayers(es)
    ensures var s := StageFromAsWritten(StagingAsWritten(None, map[], map[]), es);
      && (s.Success? <==> ScanOuter(es).Success?)
      && (s.Success? ==>
            && s.value.manifest == ScanOuter(es).value.manifest
            && forall name :: ResolveAsWritten(s.value, name) == Lookup(ScanOuter(es).value.layers, name))
  {
    AgreeFrom(StagingAsWritten(None, map[], map[]), Scan(None, map[]), es);
  }

  /** The three-entry list of the counterexample. */
  function CollidingEntries(a: string, b: string, x: Bytes, y: Bytes, z: Bytes): seq<Result<OuterEntry, string>> {
    [Success(OuterEntry(a, Success(x))), Success(OuterEntry(a, Success(y))), Success(OuterEntry(b, Success(z)))]
  }

  /** Staging a layer `a`, `a` again, then a different layer `b` of the same compression:
      the second `a` and `b` are both given index 1, so `b` overwrites what `a` points at. */
  lemma StagingCollisionSteps(a: string, b: string, x: Bytes, y: Bytes, z: Bytes)
    requires a != b && ClassifyOuter(a).LayerBlob? && ClassifyOuter(b) == ClassifyOuter(a)
    ensures var g := ClassifyOuter(a).gzip;
      StageFromAsWritten(StagingAsWritten(None, map[], map[]), CollidingEntries(a, b, x, y, z)) ==
      Success(StagingAsWritten(None, map[a := TempName(1, g), b := TempName(1, g)],
                               map[TempName(0, g) := x, TempName(1, g) := z]))
  {
    var g := ClassifyOuter(a).gzip;
    var es := CollidingEntries(a, b, x, y, z);
    var s0 := StagingAsWritten(None, map[], map[]);
    var s1 := StagingAsWritten(None, map[a := TempName(0, g)], map[TempName(0, g) := x]);
    var s2 := StagingAsWritten(None, map[a := TempName(1, g)], map[TempName(0, g) := x, TempName(1, g) := y]);
    var s3 := StagingAsWritten(None, map[a := TempName(1, g), b := TempName(1, g)],
                               map[TempName(0, g) := x, TempName(1, g) := z]);
    assert StageStepAsWritten(s0, es[0]) == Success(s1);
    assert s1.paths[a := TempName(1, g)] == s2.paths;
    assert StageStepAsWritten(s1, es[1]) == Success(s2);
    assert |s2.paths| == 1 by {
      assert s2.paths.Keys == {a};
    }
    assert s2.paths[b := TempName(1, g)] == s3.paths;
    assert s2.files[TempName(1, g) := z] == s3.files;
    assert StageStepAsWritten(s2, es[2]) == Success(s3);
    assert StageFromAsWritten(s2, es[2..]) == Success(s3);
    assert es[1..][1..] == es[2..];
    assert StageFromAsWritten(s1, es[1..]) == Success(s3);
  }

  /** Under the as-written staging, `a` resolves to `b`'s blob `z`, whereas the last entry
      named `a` holds `y`. */
  lemma StagingCollisionGeneral(a: string, b: string, x: Bytes, y: Bytes, z: Bytes)
    requires a != b && ClassifyOuter(a).LayerBlob? && ClassifyOuter(b) == ClassifyOuter(a)
    ensures var s := StageFromAsWritten(StagingAsWritten(None, map[], map[]), CollidingEntries(a, b, x, y, z));
      && s.Success?
      && ResolveAsWritten(s.value, a) == Some(Staged(z, ClassifyOuter(a).gzip))
      && LastLayer(CollidingEntries(a, b, x, y, z), a) == Some(Staged(y, ClassifyOuter(a).gzip))
  {
    StagingCollisionSteps(a, b, x, y, z);
    var es := CollidingEntries(a, b, x, y, z);
    assert es[..2][1] == es[1];
  }

  /** Counterexample: with outer entries `a.tar` holding 1, `a.tar` holding 2 and `b.tar`
      holding 3, the layer `a.tar` is read as 3, not as its own last blob 2. */
  lemma StagingCollision()
    ensures var es := CollidingEntries("a.tar", "b.tar", [1], [2], [3]);
      var s := StageFromAsWritten(StagingAsWritten(None, map[], map[]), es);
      && s.Success?
      && ResolveAsWritten(s.value, "a.tar") == Some(Staged([3], false))
      && LastLayer(es, "a.tar") == Some(Staged([2], false))
  {
    assert ClassifyOuter("a.tar") == LayerBlob(false) by {
      ClassifyLayerNames("a");
      assert "a" + ".tar" == "a.tar";
    }
    assert ClassifyOuter("b.tar") == LayerBlob(false) by {
      ClassifyLayerNames("b");
      assert "b" + ".tar" == "b.tar";
    }
    StagingCollisionGeneral("a.tar", "b.tar", [1], [2], [3]);
  }
}
