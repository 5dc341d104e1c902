# keywordfs: the keyword graph, the resolver and its cache

keywordfs mounts a directory tree (the *reference root*) as a FUSE file
system in which directories are reached by keywords rather than by
position. Every directory below the root is tagged with the non-empty
segments of its path relative to the root. A virtual path such as `/b/a` is
a set of keywords. It resolves to the accumulation of its known keywords:
the real directories tagged with all of them when some directory is, and
otherwise what the reseed rule below leaves. The shortest of them becomes the *canonical*
directory, whose real files are shown. The other tags of the matched
directories are offered as further keywords, and a link `@` points back at
the canonical directory.

This project models the core of `keywordfs.js`:

- the bipartite graph of `BadgeNode`s (keywords) and `BadgeEntry`s (real directories), together with `#insertDir` and the detach step of `#rmdir`;
- the resolver `#getActualEntry` with its cache of `KeywordCacheEntry` views;
- the decisions the FUSE handlers `open`, `opendir`, `access`, `getattr`, `readlink` and `readdir` take for a path;
- the graph and cache effects of `mkdir`, `rmdir`, `create` and `unlink`.

It proves that these operations keep the graph consistent, and it states
exactly what each of them answers.

Modules:

- `Paths` (`paths.dfy`): `#splitPath`, `path.relative` below the root, `dirname` and `basename`.
- `KeywordGraph` (`graph.dfy`): the graph as a value.
  - Nodes and entries live in two arenas; an object's identity is its index.
  - `Insert` is `#insertDir`; `Detach` is the removal step of `#rmdir`.
  - The invariant `Valid` says three things:
    - node lists and entry lists mirror each other, as multisets, for every entry still registered in some node;
    - the two maps point at objects carrying their key as name;
    - every entry is tagged, in order, by the segments of its relative path.
- `Resolution` (`resolution.dfy`): the resolver.
  - `Matched` is the accumulation with its reseed rule.
  - `IsView` states what a resolution of a path is.
  - The loops of `#getActualEntry` are methods proved against those definitions.
- `KeywordFileSystem` (`keywordfs.dfy`): the `KeywordFS` object as a class.
  - Its fields are the graph's arrays, the two maps and the cache.
  - Its handlers return a `Reply`: the callback's error code, or what the callback would receive, or `Crash` where the JavaScript throws a `TypeError` and never calls back.
  - The invariant `Valid()` adds the rule that every cached view is a resolution of its key on the current graph.

The real tree is a fixed oracle `Disk`, mapping a real path to its ordered
entries `(name, isFile)`. It stands in for `readdirSync`, `statSync` and
`existsSync`. `existsSync(dir + "/" + name)` is true for the empty name (the directory
itself), for `.` and `..`, and for a listed name.

Behaviour of the code that the model keeps as written:

- The accumulation reseeds: a known keyword whose entries meet an empty accumulator replaces it. This applies even after an earlier intersection came out empty, so `/a/b/c` can resolve although no directory carries all three tags (`ReseedAfterEmpty`). When some entry carries every known keyword, the result is the exact intersection (`IntersectionLaw`).
- Nodes are never pruned. After the only directory tagged `a` is removed, the root listing still offers `a`, while `/a` no longer resolves (`DeadKeywordStaysListed`). This holds for a directory inserted once, such as one created by `mkdir` after mounting. A directory found by both scans keeps its first entry object (next item), so `/a` still resolves after its `rmdir`. If `a` is also gone from the root's real listing, opening `/a` re-resolves it and reads `.path` of `undefined` (`Crash`, `DeadKeywordOpenCrashes`). The disk is a fixed oracle that `rmdir` does not change, so this needs a disk on which `a` is already absent. While `a` is still listed on disk, the real child is opened instead.
- The tree is scanned twice: once by the constructor (keywordfs.js:124) and once by `mount()` (keywordfs.js:535). So every directory has two entry objects, and the path map keeps the second one. `rmdir` detaches only that one; the first stays attached in the graph (`ReinsertLeavesStale`). On the model's fixed disk it keeps resolving, and a second `rmdir` of the same directory finds no map entry and throws (`Rmdir` answers `Crash`). On a real tree the directory is gone after `rmdirSync`, so a resolution whose shortest match is the stale entry throws earlier, at the `readdirSync(actualPath)` of keywordfs.js:213.
- `getattr` answers the link name before it checks the parent. With an unresolvable parent it reads `.path` of `undefined` (`Crash`).

## Model

| member | source | states |
|---|---|---|
| Paths.Split | keywordfs.js:131-133 | every element of the split is a non-empty segment without a separator |
| Paths.SplitConcat | keywordfs.js:131-133 | splitting `a + "/" + b` gives the segments of `a` followed by those of `b` |
| Paths.SplitJoin | keywordfs.js:131-133 | splitting the joined path of a list of segments gives the list back |
| Paths.RelativeChild | keywordfs.js:436-437 | a child `c + "/" + b` of the root or of a directory below it lies below the root, and its relative segments are those of `c` followed by those of `b` |
| Paths.DirnameBasename | keywordfs.js:248-251 | a path's segments are those of its directory part followed by those of its base name, which holds no separator |
| Paths.DirnameJoin | keywordfs.js:261 | a path with a separator after its first character is its directory part, `/` and its base name |
| KeywordGraph.EmptyValid | keywordfs.js:116-118 | the empty graph satisfies the invariant |
| KeywordGraph.AddTagStep | keywordfs.js:140-146 | fetching or creating the node named `x` and linking it both ways keeps the structure; the entry gains exactly that node, whose name is `x`; other entries are unchanged and only `x` is added to the node map |
| KeywordGraph.AddTagsNames | keywordfs.js:139-147 | tagging a fresh entry with `segs` leaves its node list named exactly `segs` in order, duplicates kept, and registers exactly the names of `segs` in the node map |
| KeywordGraph.InsertValid | keywordfs.js:135-148 | `#insertDir(p)` keeps the invariant; the new entry is the last, is named `p`, is tagged with the relative segments of `p` in order, and is what the path map now holds for `p`; older entries are unchanged; every older node keeps its count of every older entry, and a node it creates lists only the new entry |
| KeywordGraph.AddTagsOthers | keywordfs.js:139-147 | tagging entry `e` changes no node's count of any other entry, and every node it creates lists only `e` |
| KeywordGraph.InsertKeepsDetached | keywordfs.js:135-148 | an entry that no node lists (one removed by `rmdir`) is still listed by no node after a later `#insertDir` |
| KeywordGraph.InsertGrows | keywordfs.js:136-137 | inserting `p` adds one entry and maps `p` to it, overwriting an earlier entry for `p` |
| KeywordGraph.InsertAllValid | keywordfs.js:150-161 | a scan that inserts directories below the root keeps the invariant |
| KeywordGraph.InsertAllGrows | keywordfs.js:150-161 | a scan adds one entry per visited directory and registers each of them |
| KeywordGraph.WithoutCount | keywordfs.js:76-78 | `removeEntry` drops every occurrence of the entry and keeps every other entry with its multiplicity |
| KeywordGraph.DetachStructured | keywordfs.js:450-453 | removing the entry registered under `p` from all its nodes and unregistering `p` keeps the structure; no node lists that entry any more; every other entry keeps its count in every node |
| KeywordGraph.DetachValid | keywordfs.js:450-453 | the detach step keeps the whole invariant, nodes included (none is pruned) |
| KeywordGraph.ReinsertLeavesStale | keywordfs.js:450-453 | after inserting `p` twice (the constructor's scan and `mount()`'s) and detaching `p`, the first entry for `p` is still attached and tagged, the second is detached, and `p` is no longer registered |
| Resolution.NoKnownNoMatch | keywordfs.js:195-202 | a path of unknown keywords accumulates nothing |
| Resolution.MatchedListed | keywordfs.js:195-202 | every accumulated entry is listed by the node of some known segment |
| Resolution.MatchedContainsCommon | keywordfs.js:195-202 | an entry listed by the node of every known segment is accumulated |
| Resolution.IntersectionLaw | keywordfs.js:195-202 | when some entry carries every known keyword, the accumulation is exactly the set of such entries |
| Resolution.UnknownSegmentIgnored | keywordfs.js:196-197 | inserting an unknown segment anywhere in a path does not change the accumulation |
| Resolution.ReseedAfterEmpty | keywordfs.js:200 | on three sibling directories `a`, `b`, `c`, the path `/a/b/c` accumulates `{c}` although no directory carries all three keywords |
| Resolution.CanonicalIsShortest | keywordfs.js:207-212 | the canonical directory is the path of a matched entry, and no matched entry has a shorter path |
| Resolution.QuerySegmentNotOffered | keywordfs.js:216-224 | no segment of the query and no relative segment of the canonical directory is offered as a keyword |
| Resolution.RootListsAllNodes | keywordfs.js:178-192 | the root view is the reference root; it lists every registered keyword and ends with `.` and `..` |
| Resolution.KeywordChildResolves | keywordfs.js:204-226 | a keyword offered below a non-root path `q` extends the query by one segment and `q/keyword` resolves |
| Resolution.OwnPathMatches | keywordfs.js:195-202 | every attached directory is matched by its own relative path read as a virtual path, which therefore resolves |
| Resolution.DetachKeepsNodes | keywordfs.js:450-453 | removing a directory leaves the keyword names the root lists unchanged |
| Resolution.DetachedNeverMatched | keywordfs.js:195-202 | an entry that no node lists is in the accumulation of no path |
| Resolution.RemovedStaysOut | keywordfs.js:426-456 | after `rmdir` removes a directory and `mkdir` inserts any directory, even at the same path, the removed entry is matched by no path |
| Resolution.DeadKeywordStaysListed | keywordfs.js:178-209 | on a graph from one scan, after removing the only directory tagged `a`, the root still lists `a` but `/a` no longer resolves |
| Resolution.ViewResolvable | keywordfs.js:208-209 | a view exists only for a path that resolves |
| Resolution.EntriesOf | keywordfs.js:198-199 | the loop collects exactly the entries the node lists, as a set |
| Resolution.Accumulate | keywordfs.js:195-202 | the loop computes the accumulation `Matched` of the segments |
| Resolution.CollectKeywords | keywordfs.js:204-205 | the loop collects the names of all nodes tagging a matched entry |
| Resolution.DeleteAll | keywordfs.js:217-224 | the loop removes exactly the given segments from the keyword set |
| Resolution.FilesOf | keywordfs.js:228-231 | the loop keeps exactly the names of the listing that are files, in order |
| Resolution.NodeNamesOf | keywordfs.js:179-180 | the loop lists the names of all nodes in registration order |
| Resolution.ListOf | keywordfs.js:226 | the loop lists every element of the set exactly once |
| Resolution.InsertByLength | keywordfs.js:207 | inserting an entry into a list sorted by path length keeps it sorted and adds exactly that entry |
| Resolution.SortByLength | keywordfs.js:207 | the result is sorted by path length and is a permutation of the input |
| Resolution.RootView | keywordfs.js:178-192 | the computed root listing is the root's view |
| Resolution.MatchView | keywordfs.js:195-239 | the result is present exactly when the path resolves, and is then a view of the path: sorted distinct references equal to the accumulation, the canonical path of the first, the offered keywords each once, the canonical directory's files, `.`, `..` and the link |
| Resolution.NonRootView | keywordfs.js:212-237 | the listing assembled from the sorted matches and the offered keywords satisfies the view's definition |
| KeywordFileSystem.ChildKind | keywordfs.js:251-263 | the classification the handlers share: a name is a real child exactly when it is found in the canonical directory's real listing, and it then passes the `existsSync` check too, so its real path is the directory plus the name; the empty name is never found |
| KeywordFileSystem.OpenAnswerDetermined | keywordfs.js:243-265 | the reply of `#open` is determined by the graph, the disk and the cache: two replies that both satisfy it are equal |
| KeywordFileSystem.DeadKeywordOpenCrashes | keywordfs.js:251-263 | on a graph from one scan, after the only directory tagged `a` is removed, and with `a` gone from the root's real listing, opening `/a` with any coherent cache throws, reading the root's view from the cache |
| KeywordFileSystem.OfferedKeywordOpens | keywordfs.js:274-279 | a keyword offered below a non-root parent is classified as found and its full path resolves, so `open`/`opendir` do not throw on it |
| KeywordFileSystem.KeywordFS.constructor | keywordfs.js:121-125 | the object starts from the empty graph scanned once, with an empty cache, and satisfies the invariant |
| KeywordFileSystem.KeywordFS.InsertDir | keywordfs.js:135-148 | the fields become `Insert` of the old graph and the graph invariant is kept |
| KeywordFileSystem.KeywordFS.Scan | keywordfs.js:150-161 | the fields become the graph with each visited directory inserted in order |
| KeywordFileSystem.KeywordFS.Mount | keywordfs.js:533-535 | the second scan keeps the invariant |
| KeywordFileSystem.KeywordFS.Resolve | keywordfs.js:167-240 | a cache hit returns the stored view and changes nothing; otherwise the result is a view exactly when the path resolves, it is stored under the path, and a failure is not cached; no other key changes, and every earlier key keeps its view |
| KeywordFileSystem.KeywordFS.ListDir | keywordfs.js:307-310 | the path's view is cached afterwards and the listing is its content; an unresolvable path throws; earlier cached views are kept, and only `path` may be added |
| KeywordFileSystem.KeywordFS.Open | keywordfs.js:243-265 | `/` opens the root; the link name gets handle 0 without resolving; otherwise unresolved parent, real child, keyword (re-resolved, throwing if that fails) or ENOENT, in that order, classified against the parent's cached view and opening the path's cached view; earlier cached views are kept, only the parent may be added, and the path only when it is re-resolved as a keyword |
| KeywordFileSystem.KeywordFS.OpenDir | keywordfs.js:268-283 | `/` opens the root; a real or offered name in the parent's cached view is re-resolved and the canonical directory of its cached view opened; otherwise ENOENT; earlier cached views are kept, only the parent may be added, and the path only when it is re-resolved |
| KeywordFileSystem.KeywordFS.Access | keywordfs.js:285-304 | `/` and the link name are granted; a real child is granted when access is permitted, else EACCES; an offered keyword is granted; otherwise ENOENT, all against the parent's cached view; earlier cached views are kept, and only the parent may be added |
| KeywordFileSystem.KeywordFS.GetAttr | keywordfs.js:370-424 | the parent is resolved first; `/` is a directory, and its view is cached; the link name gets the length of the canonical path of the parent's cached view as size, or throws when the parent does not resolve; then real file, offered keyword or ENOENT against that view; earlier cached views are kept, and only the parent may be added |
| KeywordFileSystem.KeywordFS.ReadLink | keywordfs.js:474-491 | `/` is ENOENT; the link name reads as the canonical directory of the parent's cached view; an existing child reads its real link; otherwise ENOENT; earlier cached views are kept, and only the parent may be added |
| KeywordFileSystem.KeywordFS.Mkdir | keywordfs.js:426-439 | `/` is EEXIST and an unresolved parent ENOENT, both leaving graph and cache unchanged; otherwise the cache is emptied and the parent's canonical directory plus the base name is inserted, the parent's view being the cached one when there was one |
| KeywordFileSystem.KeywordFS.Rmdir | keywordfs.js:441-456 | `/` is EPERM and an unresolved path ENOENT, both leaving graph and cache unchanged; otherwise the cache is emptied and the entry registered under the canonical directory (of the cached view when there was one) is detached, or the handler throws when none is registered |
| KeywordFileSystem.KeywordFS.Unregister | keywordfs.js:450-453 | the removal loop leaves the graph equal to `Detach` of the old graph |
| KeywordFileSystem.KeywordFS.Create | keywordfs.js:509-518 | `/` is EEXIST and an unresolved parent ENOENT; otherwise only the parent's cache key is dropped and the file is created in the parent's canonical directory, taken from the cached view when there was one |
| KeywordFileSystem.KeywordFS.Unlink | keywordfs.js:493-507 | `/` is EISDIR and an unresolved parent ENOENT; otherwise the parent's cache key is dropped, even when the file then does not exist, and an existing file is unlinked from the parent's canonical directory, taken from the cached view when there was one |

## Left out

- FUSE wiring, mounting, signal handling and argument parsing (keywordfs.js:1-32, 536-583): foreign library calls and process plumbing.
- Raw descriptor I/O (`read`, `write`, `flush`, `ftruncate`, `release`, `releasedir`, `statfs`, `utimens`): these forward to `fs` and decide nothing.
- `truncate`: it references an undefined `flags` at line 460 and throws before doing anything.
- `rename`: it is a stub.
- `fgetattr` (keywordfs.js:365-368): it only forwards the path to `getattr`, so `GetAttr` covers it; the descriptor is unused.
- `getReference`: it is unused by the handlers.
- The disk walk of `#readDir`: the scan takes the list of directories it would visit, in visiting order, as a parameter (`Scan`, `Mount`, the constructor).
- The real tree is a fixed oracle.
  - `mkdir`, `rmdir`, `create` and `unlink` do not change it. Their effect on disk is the path carried by the `Reply`.
  - A missing path reads as an empty directory rather than throwing. This includes the unused `readdirSync(actualPath)` at line 213.
  - Storage failures, and the order between the graph update and `mkdirSync`/`rmdirSync`, are not modelled.
- `getattr` metadata (timestamps, mode bits, uid/gid, `stat` forwarding): the model keeps only which branch answers, plus the link size.
- The `Set.prototype` shims and JavaScript iteration order. The accumulation, the keyword set and the sort are stated up to order:
  - the references are the matched entries, each once, sorted by path length, with ties in any order;
    so a fresh resolution may pick any of the tied shortest directories as canonical; once cached, every handler answers from that cached view until the key is dropped;
  - the keyword part of a listing holds each offered keyword once, in any order;
  - the root lists node names in registration order.
- `console.log` tracing.
- The `link` setter: the link name is the constant `@`.
- `Paths.Dirname`, `Paths.Basename`: a path with a trailing separator is not handled as `path.dirname`/`path.basename` do.
- `Paths.Relative`: a path outside the root is returned unchanged rather than with `..` segments; the scan and `mkdir` only ever insert paths below the root.
- JavaScript string lengths count UTF-16 code units; the model counts characters.
- `KeywordFileSystem.KeywordFS.Mount` requires the cache to be empty, as it is straight after the constructor. A cached view is not invalidated by the second scan.
- Cached views of a directory other than the parent are not re-checked against the disk after `create` and `unlink`. With a fixed oracle they stay views of their keys; on a real tree they may list stale files.
- Object identity is an index into the node and entry arenas. `removeEntry` compares by identity, which the model does by index.
