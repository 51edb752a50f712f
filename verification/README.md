# contree layer merge, in Dafny

A model of the layer-merge engine of `contree`, a viewer for the filesystem inside a Docker image
archive (`docker save` output). It covers three stages:

- Reading the outer archive: `manifest.json` and the layer blobs are staged by entry name.
- Folding the manifest's layers, in order, onto a fresh root directory (mode 0o755, owner 0:0).
- Applying each tar entry of each layer to a tree of nodes, which holds:
  - whiteout handling: a `.wh.<name>` marker deletes `<name>`, and a `.wh..wh..opq` marker empties its directory;
  - path normalisation;
  - directories, regular files, symlinks and hard links;
  - the abbreviated layer tag, stamped on every node that a directory, file, symlink or hard-link entry creates or passes through (whiteouts and skipped entry types stamp nothing).

Modules, one file each:

- `Wrappers` (`wrappers.dfy`): `Option` and `Result`.
- `Strings` (`strings.dfy`): the `str` methods the source relies on (`rfind`, `trim_start_matches`, `trim_end_matches`).
- `Utils` (`utils.dfy`):
  - `split_path`, which the source defines three times with identical bodies;
  - the `split('/')` / filter walk that turns a path into the keys of a tree walk.
- `Whiteout` (`whiteout.dfy`): the marker predicates and their targets.
- `Tree` (`tree.dfy`):
  - the `Node` tree, as a map of children plus metadata;
  - `new_dir`, `new_file`, `ensure_path`, `put_file`, `remove` and `mark_opaque`;
  - a hard-link attachment step, given to the engine as a parameter.
- `Archive` (`archive.dfy`):
  - `extract_layer_hash`;
  - `apply_entry`, `process_layer_entries` (as a function and as a loop);
  - the two passes of `process_archive`;
  - the first pass as written, for the finding below, and its agreement with the by-name pass when no layer name repeats.

What the source gets from outside is given as data or parameters:

- Tar and gzip decoding become a `decode` parameter. It yields the sequence of headers the `tar` crate would produce. Each header may be unreadable, and each field read may fail.
- JSON parsing of the manifest becomes a `parse` parameter.
- Lines printed to stderr become a list of `Warning`s.

Trees are compared by the node found at a key path (`Tree.Get`) or its metadata (`Tree.MetaAt`), so each property below is stated for every path in the tree.

## Model

| member | source | states |
|---|---|---|
| Strings.LastIndexOf | src/utils.rs:11 | `rfind`: absent exactly when the character does not occur; otherwise an index holding it with none after it |
| Strings.TrimEndMatches | src/archive.rs:18-20 | `trim_end_matches`: the result is a prefix of the input that no longer ends with the pattern, and what was cut is a whole number of copies of the pattern |
| Strings.TrimStartMatches | src/archive.rs:160 | `trim_start_matches`: the result is a suffix that no longer starts with the pattern, and what was cut is a whole number of copies of the pattern |
| Strings.TrimBoth | src/archive.rs:160 | trimming copies of one pattern off the front and then copies of another off the back leaves a stretch of the input that neither starts with the first nor ends with the second, with only whole copies of the first before it and of the second after it |
| Strings.TrimEndKeepsStart | src/archive.rs:160 | trimming the back cannot make a string start with a pattern it did not start with |
| Strings.TrimBothFramed | src/archive.rs:160 | the input is the trimmed stretch framed by whole copies of the two patterns |
| Utils.AfterLastSlash | src/whiteout.rs:8 | `rsplit('/').next()`: a slash-free suffix of the path, preceded by a slash unless it is the whole path |
| Utils.BasenameStartUnique | src/whiteout.rs:8 | exactly one position starts the basename: the one just after the last slash, or 0 when there is none |
| Utils.SplitPath | src/utils.rs:9-16 | after trailing slashes are trimmed, either directory + "/" + basename rebuilds the path exactly, or there is no slash and the directory is empty; the basename never holds a slash |
| Utils.SplitJoin | src/utils.rs:9-16 | splitting undoes joining: `d/b` splits into `(d, b)` and a bare `b` into `("", b)` for every slash-free non-empty `b` |
| Utils.SplitPathOneLevel | src/utils.rs:24 | `foo/bar` splits into `foo` and `bar` |
| Utils.SplitPathTwoLevels | src/utils.rs:25 | `foo/bar/baz` splits into `foo/bar` and `baz` |
| Utils.SplitPathBare | src/utils.rs:26 | `file` has an empty directory part |
| Utils.SplitPathTrailing | src/utils.rs:27 | a trailing slash on `foo/bar/` is ignored |
| Utils.SplitPathRootedDir | src/utils.rs:28 | `/root/file` keeps its leading slash in the directory part |
| Utils.SplitPathRootedFile | src/utils.rs:29 | `/file` has an empty directory part |
| Utils.SplitIgnoresTrailingSlash | src/utils.rs:10 | a trailing slash never changes the split |
| Utils.SplitBaseIsLastPiece | src/utils.rs:9-16 | the basename is the last slash-separated piece of the trimmed path |
| Utils.Segments | src/tree.rs:83 | `split('/')` yields at least one piece, no piece holds a slash, and joining the pieces with `/` gives back the path exactly |
| Utils.Components | src/tree.rs:83 | the keys a path walks are never empty and never `.` |
| Utils.ComponentsOfSlashFree | src/tree.rs:83 | a slash-free name walks to itself as a single key, unless it is empty or `.`, which walk nowhere |
| Utils.ComponentsIgnoreTrailingSlashes | src/tree.rs:83 | trailing slashes do not change the keys a path walks |
| Utils.ComponentsOfSplit | src/tree.rs:105-118 | walking the directory part and then taking the basename reaches the same keys as walking the whole path, except that an empty or `.` basename adds no key |
| Utils.ComponentsOfTrivial | src/tree.rs:79-81 | `""` and `"."` walk no keys |
| Utils.ComponentsOfAppend | src/tree.rs:83 | appending `/b` appends the key `b`, unless it is empty or `.` |
| Utils.ComponentsOfJoin | src/tree.rs:83 | joining keys with `/` and walking the result gives back the same keys |
| Whiteout.AfterLastSlashOfJoin | src/whiteout.rs:8 | the basename the marker tests look at is the last piece of `d/b` |
| Whiteout.IsWhiteout | src/whiteout.rs:7-10 | a path is a whiteout exactly when the text from its basename's start (just after the last slash, trailing slashes not trimmed) begins with `.wh.` |
| Whiteout.IsOpaque | src/whiteout.rs:13-16 | a path is opaque exactly when the text from its basename's start is `.wh..wh..opq` |
| Whiteout.WhiteoutTarget | src/whiteout.rs:20-35 | the target keeps the marker's directory part and joins it to the basename with exactly one `.wh.` removed when it starts with one, otherwise to the basename unchanged |
| Whiteout.OpaqueDir | src/whiteout.rs:39-42 | the cleared directory is a prefix of the marker path, and a path ending in `/.wh..wh..opq` names exactly what precedes that suffix |
| Whiteout.MarkerSuffixSplit | src/whiteout.rs:39-42 | a path ending in `/.wh..wh..opq` splits just before the marker |
| Whiteout.IsWhiteoutIff | src/whiteout.rs:7-16 | a path is a whiteout exactly when its basename starts with `.wh.`, and opaque exactly when its basename is `.wh..wh..opq` |
| Whiteout.OpaqueIsWhiteout | src/whiteout.rs:7-16 | every opaque marker is a whiteout, so the opaque branch is reachable inside the whiteout branch |
| Whiteout.PlainMarkerNotOpaque | src/whiteout.rs:13-16 | `d/.wh.x` is a non-opaque whiteout for every `x` other than `.wh..opq` |
| Whiteout.WhiteoutTargetOfMarker | src/whiteout.rs:20-35 | the marker `d/.wh.x` targets exactly `d/x`, and `.wh.x` targets `x` |
| Whiteout.EmptyMarkerTargetsDir | src/whiteout.rs:20-35 | a marker with nothing after the prefix, `d/.wh.`, targets `d/`, which splits like `d`: it deletes `d` itself |
| Whiteout.WhiteoutTargetBare | src/whiteout.rs:76 | `.wh.file` targets `file` |
| Whiteout.WhiteoutTargetNested | src/whiteout.rs:78 | `a/b/c/.wh.test` targets `a/b/c/test` |
| Whiteout.WhiteoutTargetUnmarked | src/whiteout.rs:24-28 | a clean path whose basename lacks the prefix is its own target |
| Whiteout.WhiteoutTargetDropsLoneLeadingSlash | src/whiteout.rs:21-34 | `/.wh.x` targets `x`: a single leading slash is lost with the empty directory part |
| Whiteout.OpaqueDirOfMarker | src/whiteout.rs:39-42 | the opaque marker in `d` names `d` |
| Whiteout.OpaqueDirNested | src/whiteout.rs:84 | `a/b/c/` followed by the opaque marker names `a/b/c` |
| Whiteout.OpaqueDirBare | src/whiteout.rs:85 | a top-level opaque marker names the root |
| Tree.NewDir | src/tree.rs:39-56 | a new directory has no children, is neither a file nor a symlink, has no link text and no layer tag, and carries the given mode, uid and gid |
| Tree.NewFile | src/tree.rs:58-75 | a new file has no children, is a file but not a symlink, has no link text and no layer tag, and carries the given mode, uid and gid |
| Tree.EnsurePath | src/tree.rs:78-92 | the node itself keeps its metadata; a path with no keys changes nothing |
| Tree.EnsurePathSpec | src/tree.rs:78-92 | every node on the path exists afterwards: an existing one keeps its kind, mode, owner and children and only takes the layer tag, a missing one is a new directory with the given mode and owner; nodes off the path are untouched |
| Tree.EnsurePathTrivial | src/tree.rs:79-81 | `""` and `"."` change nothing |
| Tree.EnsurePathReaches | src/tree.rs:190-197 | after `ensure_path(p)` the whole chain of `p`'s keys exists |
| Tree.EnsureAtAlong | src/tree.rs:86-91 | each walked key ends up with a node carrying the layer tag, keeping its old metadata otherwise |
| Tree.EnsureAtBeside | src/tree.rs:86-91 | nodes not on the walked keys keep their whole subtree |
| Tree.PutFile | src/tree.rs:95-127 | the root keeps its own metadata |
| Tree.PutFileUnfold | src/tree.rs:105-126 | `put_file` creates the parents with 0o755 and owner 0:0 only when the directory part is non-empty, then inserts under the basename |
| Tree.PutFileLeaf | src/tree.rs:120-126 | the node at the path is exactly the new file, with no children, the given mode and owner, link flag, link text and tag |
| Tree.PutFileAncestors | src/tree.rs:107-110 | every ancestor exists afterwards, re-tagged if it existed and otherwise a new 0o755 directory owned by 0:0 |
| Tree.PutFileBeside | src/tree.rs:95-127 | nothing beside the file's path changes |
| Tree.PutFileDropsOldSubtree | src/tree.rs:126 | a file replacing a directory keeps none of its subtree |
| Tree.Remove | src/tree.rs:130-145 | the root keeps its own metadata |
| Tree.RemoveGone | src/tree.rs:130-145 | nothing remains at or below the removed path |
| Tree.RemoveKeeps | src/tree.rs:130-145 | every node not at or below the removed path keeps its metadata |
| Tree.RemoveParent | src/tree.rs:133-144 | exactly one child leaves the parent, and a missing parent makes removal a no-op |
| Tree.MarkOpaque | src/tree.rs:148-164 | the root keeps its own metadata |
| Tree.MarkOpaqueIsUpdate | src/tree.rs:149-152 | clearing at `""` or `"."` is clearing the root |
| Tree.MarkOpaqueSpec | src/tree.rs:148-164 | the named directory keeps its metadata and loses every descendant; everything not below it is untouched; a missing directory changes nothing |
| Tree.SetHardlinkTarget | src/archive.rs:208-213 | the reference attachment: it fails exactly when no node sits at the path; every attachment the engine may be given (`Tree.Attach`) agrees with it whenever it succeeds |
| Tree.SetHardlinkElsewhere | src/archive.rs:208-213 | attaching link text leaves every other node's metadata as it was |
| Tree.SetHardlinkSpec | src/archive.rs:208-213 | a successful attachment changes only the hard-link field of that one node |
| Tree.HardlinkAfterPutFile | src/archive.rs:204-213 | right after `put_file` the attachment cannot fail |
| Tree.AttachAbsentFails | src/archive.rs:208-213 | any attachment fails where no node sits at the path |
| Tree.AttachSpec | src/archive.rs:208-213 | a successful attachment, whichever one the engine is given, sets only the hard-link text of the node at the path and leaves every other node's metadata as it was |
| Archive.ExtractLayerHash | src/archive.rs:15-30 | no tag exactly when the stem is empty; otherwise the first `length` characters of the slash-free stem |
| Archive.LayerHashOfLayerTar | src/archive.rs:13-30 | `<id>/layer.tar` is tagged with the leading characters of `<id>` |
| Archive.LayerHashOfTar | src/archive.rs:15-30 | `<id>.tar` is tagged with the leading characters of `<id>` |
| Archive.LayerHashOfTarGz | src/archive.rs:15-30 | `<id>.tar.gz` is tagged with the leading characters of `<id>` |
| Archive.LayerTag | src/archive.rs:87-92 | a layer gets a tag exactly when layers are shown and its stem is non-empty; the tag is the first min(7, stem length) characters of the stem |
| Archive.NormalizePath | src/archive.rs:159-160 | the result has no leading `./` and no trailing `/`, and the input is the result with only whole copies of `./` before it and whole copies of `/` after it |
| Archive.NormalizeClean | src/archive.rs:160 | a path that is already clean is unchanged |
| Archive.NormalizeIdempotent | src/archive.rs:160 | normalising twice is normalising once |
| Archive.NormalizeDropsDotSlash | src/archive.rs:160 | a leading `./` never matters |
| Archive.NormalizeDot | src/archive.rs:160 | `.` is kept as is, while `./` normalises to nothing |
| Archive.ApplyEntry | src/archive.rs:150-221 | applying an entry never changes the root's own metadata |
| Archive.ApplyEmptyPath | src/archive.rs:162-164 | a path that normalises to nothing is accepted and changes nothing, even if the mode cannot be read |
| Archive.ApplyFailsIff | src/archive.rs:150-221 | an entry is rejected exactly when its path cannot be read, or its path is non-empty and its mode, uid or gid cannot be read (whiteouts included), or it is a non-whiteout symlink or hard link whose link name cannot be read; the tree never decides it |
| Archive.ApplyKindFails | src/archive.rs:185-218 | once the marker checks are past, the type dispatch fails exactly for a symlink or hard link whose link name cannot be read; directories, regular files and the skipped kinds always succeed |
| Archive.ApplyMarker | src/archive.rs:173-182 | the whiteout branch never changes the root's own metadata |
| Archive.ApplyKind | src/archive.rs:185-218 | a successful type dispatch never changes the root's own metadata |
| Archive.AttachLink | src/archive.rs:207-213 | the attachment step never changes the root's own metadata |
| Archive.StoredLinkFile | src/archive.rs:205 | the stored hard-link file is a plain file with no link text, the entry's mode, owner and tag, and nothing beside its path changes |
| Archive.AttachLinkSpec | src/archive.rs:207-213 | without a link name the stored tree is kept; a successful attachment only sets the leaf's hard-link text; a failed one keeps the stored tree exactly and adds exactly one warning carrying the attachment's message |
| Archive.ApplyWhiteout | src/archive.rs:173-182 | a whiteout of any entry type succeeds silently and only deletes: an opaque marker empties its directory and leaves every node not strictly below it as it was; a plain marker removes its target's subtree and leaves every node not at or below the target as it was |
| Archive.WhiteoutRemovesSibling | src/archive.rs:178-181 | the entry `d/.wh.x` leaves no `d/x` |
| Archive.OpaqueMarkerClears | src/archive.rs:174-177 | the entry `d/.wh..wh..opq` leaves `d` with no descendants and every other node as it was |
| Archive.ApplyDirectory | src/archive.rs:186-188 | a directory entry makes its path exist, re-tagging existing nodes without changing their mode or owner; nothing off the path changes |
| Archive.ApplyRegular | src/archive.rs:189-191 | a regular file leaves a fresh non-symlink file at its path, and nothing beside it changes |
| Archive.ApplySymlink | src/archive.rs:192-197 | a symlink leaves a symlink file holding its link name, and no node beside its path (neither above nor below it) changes; an unreadable link name rejects the entry |
| Archive.ApplyHardlink | src/archive.rs:198-214 | a hard link leaves a plain file at its path and nothing beside the path changes; with a link name and a successful attachment the file carries that name as hard-link text; when the attachment fails the file stays exactly as stored and exactly one warning carries the attachment's message; an unreadable link name rejects the entry |
| Archive.ApplyOther | src/archive.rs:215-217 | other entry types change nothing |
| Archive.Step | src/archive.rs:131-143 | one entry never changes the root's metadata and never loses an earlier warning |
| Archive.FoldEntries | src/archive.rs:125-147 | a layer never changes the root's metadata, and warnings only accumulate |
| Archive.ProcessLayerEntries | src/archive.rs:125-147 | the loop computes the entry-by-entry fold |
| Archive.FoldAppend | src/archive.rs:130-144 | applying two runs of entries is applying the first run, then the second |
| Archive.FoldTreeIgnoresWarnings | src/archive.rs:130-144 | earlier warnings never influence the tree |
| Archive.FailedStepKeepsTree | src/archive.rs:131-143 | an unreadable or rejected entry leaves the tree as it was and adds exactly one warning |
| Archive.SkippedEntryIsolated | src/archive.rs:130-144 | an unreadable or rejected entry can be deleted from a layer without changing the tree; the entries after it are still applied |
| Archive.ScanStep | src/archive.rs:44-74 | the first pass fails only because an entry cannot be read |
| Archive.ScanFrom | src/archive.rs:44-75 | the first pass fails only because an entry cannot be read |
| Archive.ScanOuter | src/archive.rs:44-75 | the first pass fails only on an unreadable entry, and it stages only layer names, each with the compression its name says |
| Archive.ScanFromWellStaged | src/archive.rs:49-73 | every step of the first pass keeps each staged name a layer name whose compression flag matches the name |
| Archive.ClassifyOuter | src/archive.rs:49-65 | `manifest.json` is the manifest; any other name ending in `.tar` or `.tar.gz` is a layer (a `/layer.tar` name already ends in `.tar`); everything else is ignored; a layer is flagged compressed exactly when its name ends in `.gz`, the test the second pass makes at src/archive.rs:106 |
| Archive.ClassifyLayerNames | src/archive.rs:49-65 | `<id>/layer.tar` and `<id>.tar` are staged uncompressed, `<id>.tar.gz` compressed |
| Archive.ScanFromEmptySpec | src/archive.rs:44-75 | by induction over the entries: the pass succeeds exactly when every needed entry reads, keeping the last manifest and the last blob per name |
| Archive.ScanOuterSpec | src/archive.rs:44-75 | the first pass succeeds exactly when every manifest and layer entry can be read; it keeps the last manifest and, for every name, the last layer blob with that name |
| Archive.LastEntryWins | src/archive.rs:73 | when a layer name repeats, the later blob is the one kept |
| Archive.MergeLayers | src/archive.rs:84-97 | merging never changes the root's metadata |
| Archive.MergeSucceedsIff | src/archive.rs:84-95 | merging succeeds exactly when every listed layer is staged and decodes |
| Archive.MergeErrorNamesLayer | src/archive.rs:84-95 | a failed merge is caused by a listed layer that is really missing (the error at src/archive.rs:84-85 names it), or by a listed layer that really fails to open or decode, with the decoder's reason; the model labels that second error with the layer's name |
| Archive.MergeByName | src/archive.rs:84-85 | only the blobs staged under listed names matter |
| Archive.MergeAppend | src/archive.rs:83-95 | merging two runs of layers is merging the first, then the second on top, stopping at the first error |
| Archive.MergeOneLayer | src/archive.rs:83-95 | one layer is its entries folded with its own tag |
| Archive.ProcessArchive | src/archive.rs:77-97 | a merged tree's root is always the fresh 0o755 directory owned by 0:0 |
| Archive.ProcessArchiveOutcomes | src/archive.rs:44-97 | an unreadable outer entry, a missing manifest and an invalid manifest are fatal; otherwise the result succeeds exactly when each listed layer's last blob decodes; an empty layer list yields the bare root |
| Archive.StageStepAsWritten | src/archive.rs:66-73 | the as-written first pass fails exactly when a needed entry cannot be read |
| Archive.StageFromAsWritten | src/archive.rs:44-75 | the as-written first pass fails exactly when some entry it needs cannot be read |
| Archive.StagingFindsEveryLayer | src/archive.rs:44-85 | for every list of outer entries, repeated names included, the first pass as written succeeds exactly when every needed entry reads and keeps the last manifest; the lookup at src/archive.rs:84-85 then finds a temp file for a name exactly when the image has a layer entry of that name, flagged compressed exactly when that name is: the temp-file naming never makes a present layer "not found" and never changes its compression, it can only swap bytes |
| Archive.CoversStep | src/archive.rs:49-73 | one outer entry is accepted by both first passes or by neither, and every staged name keeps pointing at an existing temp file with the name's compression |
| Archive.CoversFrom | src/archive.rs:44-75 | by induction over the entries, repeated names included: both first passes succeed or fail together, and every staged name points at an existing temp file with the name's compression |
| Archive.AgreeAddLayer | src/archive.rs:66-73 | staging a name not staged before writes a temp file no other name points at, so the as-written and by-name stagings keep the same blob for every name |
| Archive.AgreeStep | src/archive.rs:49-73 | one outer entry whose layer name is not staged yet is accepted by both passes or by neither, and keeps them in agreement |
| Archive.AgreeFrom | src/archive.rs:44-75 | from agreeing stagings, entries with no repeated and no already staged layer name leave both passes agreeing to the end |
| Archive.StagingAgreesWithoutRepeats | src/archive.rs:44-75 | when no two layer entries share a name, the first pass as written succeeds exactly when the by-name pass does, keeps the same manifest, and resolves every name to the same blob |
| Archive.StagingCollisionSteps | src/archive.rs:66-73 | as written, with layers `a`, `a`, `b` of one compression, the first `a` is staged at index 0 and the second `a` and `b` are both given index 1, so `b` overwrites the file the name `a` points at |
| Archive.StagingCollisionGeneral | src/archive.rs:66-73 | as written, `a` then resolves to `b`'s blob, while the last entry named `a` holds a different blob |
| Archive.StagingCollision | src/archive.rs:66-73 | for `a.tar`=1, `a.tar`=2, `b.tar`=3, the layer `a.tar` is read as 3 instead of 2 |

## Left out

- File I/O is not modelled: opening the image, creating the temp directory, copying layers to temp files, and failures of `archive.entries()` on the outer archive. The temp files appear only in the as-written staging.
- Tar and gzip decoding are the `decode` parameter. A layer that cannot be opened or decoded at all is a fatal `LayerUnreadable` error, as the `?` at src/archive.rs:94 makes it.
- Parsing `manifest.json` (src/manifest.rs) is the `parse` parameter. The manifest and its parser are not part of this model.
- Rendering, theming and the command line (src/render.rs, src/theme.rs, src/main.rs) are not part of this model.
- `uname` and `gname` are dropped from the node metadata, because the source never sets or reads them.
- `HashMap` iteration order is not modelled. Children are a Dafny `map`, and nothing in the engine depends on the order.
- Tree.SetHardlinkTarget: the definition of `set_hardlink_target` is not part of this model. The engine takes the attachment as a parameter of type `Tree.Attach`: any operation that may fail with a message, but that, when it succeeds, does what Tree.SetHardlinkTarget does (record the link text on the node at the path). A failure is therefore possible and is modelled as the warning at src/archive.rs:211-212 (Archive.ApplyHardlink). With Tree.SetHardlinkTarget itself it cannot happen, because `put_file` has just created the node (Tree.HardlinkAfterPutFile).
- Applying the same layer twice is not proved to give the same tree as applying it once. The model states each entry's effect on every path instead, and composes runs of entries (Archive.FoldAppend), but no lemma states idempotence of Archive.FoldEntries.
- Archive.ScanOuter: stages blobs by name, the corrected first pass. It may differ from src/archive.rs:66-73 only when a repeated layer name is followed by another layer name with the same extension (Archive.StagingCollision); without repeated layer names the two agree (Archive.StagingAgreesWithoutRepeats).
- Archive.ScanFromEmptySpec: "the last blob per name" is stated for the corrected by-name pass. The first pass as written may differ only when a repeated layer name is followed by another layer name with the same extension; the staging as written is Archive.StageFromAsWritten.
- Archive.ScanOuterSpec: describes the corrected by-name first pass. The first pass as written (Archive.StageFromAsWritten) may differ only when a repeated layer name is followed by another layer name with the same extension, and agrees with it when no layer name repeats (Archive.StagingAgreesWithoutRepeats).
- Archive.ProcessArchive: runs the corrected first pass. It may differ from src/archive.rs:44-97 only when a repeated layer name is followed by another layer name with the same extension; when no layer name repeats, both passes stage the same manifest and blobs (Archive.StagingAgreesWithoutRepeats).
- Archive.ProcessArchiveOutcomes: states the outcomes of the corrected first pass. The source as written may read another layer's blob only when a repeated layer name is followed by another layer name with the same extension (Archive.StagingCollision); when no layer name repeats, both passes stage the same manifest and blobs (Archive.StagingAgreesWithoutRepeats).
- Archive.MergeErrorNamesLayer: the layer name carried by `LayerUnreadable` is the model's label. In the source only the missing-layer error names the layer (src/archive.rs:84-85); a layer that cannot be opened is reported by its temp path (src/archive.rs:102-103), and one whose entries cannot be read by "Failed to read layer entries" with no name (src/archive.rs:130).

## Behaviour taken from the code

Where the repository's prose describes the engine differently, the model follows the code:

- Path normalisation (Archive.NormalizePath) strips leading `./` and trailing `/` repeatedly, whatever the comment at src/archive.rs:159 says. A lone `.` survives, and `put_file(".")` then creates a child named `.` (Archive.NormalizeDot).
- A directory entry (Archive.ApplyDirectory) leaves an existing node on its path with its mode, owner and kind, even when that node is a file. The node only takes the layer tag.
- The whiteout test (Archive.ApplyWhiteout) precedes the type dispatch, so a marker of any entry type deletes.
- An opaque marker also clears entries added earlier in the same layer.
- A whiteout whose mode, uid or gid cannot be read is rejected and skipped.
- Layer tags (Archive.ExtractLayerHash) are cut to the fixed length 7 that src/archive.rs:89 passes. `chars().take` counts Unicode scalar values, which is what a Dafny `char` sequence counts.
- A manifest listing no layers is accepted and yields the bare root (Archive.ProcessArchiveOutcomes).

## Findings

| source | as written | input that shows it | evidently intended | confidence | as-written member | corrected member |
|---|---|---|---|---|---|---|
| src/archive.rs:66-73 | the staged temp file is named `layer-{layer_paths.len()}{ext}`, and `len()` does not grow when a name repeats | outer entries `a.tar` (bytes 1), `a.tar` (bytes 2), `b.tar` (bytes 3): the second `a.tar` and `b.tar` both get `layer-1.tar`, so `a.tar` reads as 3 | each layer name resolves to the last blob staged under that name (2 here) | not executed | Archive.StagingCollision | Archive.ScanOuterSpec |
