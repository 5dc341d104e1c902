/**
 * The `KeywordFS` object: the keyword graph, the resolution cache, and the
 * handlers that classify a path and update the graph and the cache. Only the
 * decisions and the graph and cache effects of the handlers are modelled;
 * what they do on the real tree is the `Reply` they produce.
 */
module KeywordFileSystem {
  import opened Wrappers
  import opened Paths
  import opened KeywordGraph
  import opened Resolution

  /** The error codes the handlers answer with. */
  datatype Errno = ENOENT | EEXIST | EPERM | EACCES | EISDIR

  /** What a handler passes to its callback, or that it throws instead. */
  datatype Reply =
    | Fail(errno: Errno)        // cb(fuse.E...)
    | Crash                     // a TypeError thrown inside the handler: no callback
    | Opened(realPath: string)      // cb(0, fs.openSync(realPath, ...))
    | LinkHandle                // cb(0, 0): the link name gets no descriptor
    | Granted                   // cb(0) from access
    | DirAttrs                  // synthetic directory attributes
    | LinkAttrs(size: nat)      // synthetic link attributes; the size is the target's length
    | FileAttrs(realPath: string)   // the attributes `statSync(realPath)` reports
    | LinkTarget(target: string)  // readlink of the link name
    | ReadLinkOf(realPath: string)  // cb(0, fs.readlinkSync(realPath))
    | Listing(content: seq<string>)  // readdir
    | MadeDir(realPath: string)     // cb(0, fs.mkdirSync(realPath))
    | RemovedDir(realPath: string)  // cb(0, fs.rmdirSync(realPath))
    | Created(realPath: string)     // cb(0, fs.openSync(realPath, 'w'))
    | Unlinked(realPath: string)    // cb(0, fs.unlinkSync(realPath))

  /**
   * Where a name `base` below a resolved parent `pv` leads: a name in the
   * canonical directory's real listing is real; otherwise a name in the
   * parent's listing is virtual; otherwise it does not exist.
   */
  datatype Child = RealChild(realPath: string) | KeywordChild | NoChild

  function ChildKind(disk: Disk, pv: View, base: string): (c: Child)
    ensures c.RealChild? <==> Finds(Names(ReadDir(disk, pv.path)), base)
    ensures c.RealChild? ==> Exists(disk, pv.path, base) && c.realPath == pv.path + "/" + base
    ensures base == "" ==> c.NoChild?
  {
    if Finds(Names(ReadDir(disk, pv.path)), base) then RealChild(pv.path + "/" + base)
    else if Finds(pv.content, base) then KeywordChild
    else NoChild
  }

  // ---------------------------------------------------------------------------
  // What each handler answers, for a path other than `/`. A handler answers
  // from the views `#getActualEntry` returned, which are the views cached
  // under the resolved keys afterwards; `cache` is the cache after the call.

  /** `fs.openSync(this.#getActualEntry(path).path)`: the directory of the view cached for `path`, or a TypeError. */
  predicate ReopenAnswer(g: Graph, path: string, cache: map<string, View>, r: Reply) {
    if Resolvable(g, path) then path in cache && r == Opened(cache[path].path)
    else r == Crash
  }

  /** `#open` below the parent's view `pv` (keywordfs.js:251-264). */
  predicate OpenChild(g: Graph, disk: Disk, path: string, pv: View, cache: map<string, View>, r: Reply) {
    match ChildKind(disk, pv, Basename(path))
    case RealChild(p) => r == Opened(p)
    case KeywordChild => ReopenAnswer(g, path, cache, r)
    case NoChild => r == Fail(ENOENT)
  }

  /** `#open` for a path whose base name is not the link (keywordfs.js:248-264). */
  predicate OpenAnswer(g: Graph, disk: Disk, path: string, cache: map<string, View>, r: Reply) {
    var dir := Dirname(path);
    if !Resolvable(g, dir) then r == Fail(ENOENT)
    else dir in cache && OpenChild(g, disk, path, cache[dir], cache, r)
  }

  /** `#opendir` below the parent's view `pv`: a real or virtual name is re-resolved (keywordfs.js:274-282). */
  predicate OpenDirChild(g: Graph, disk: Disk, path: string, pv: View, cache: map<string, View>, r: Reply) {
    if ChildKind(disk, pv, Basename(path)).NoChild? then r == Fail(ENOENT)
    else ReopenAnswer(g, path, cache, r)
  }

  /** `#opendir` for a path other than `/` (keywordfs.js:271-282). */
  predicate OpenDirAnswer(g: Graph, disk: Disk, path: string, cache: map<string, View>, r: Reply) {
    var dir := Dirname(path);
    if !Resolvable(g, dir) then r == Fail(ENOENT)
    else dir in cache && OpenDirChild(g, disk, path, cache[dir], cache, r)
  }

  /** `#access` below the parent's view `pv`; `permitted` is whether `accessSync` succeeds (keywordfs.js:293-303). */
  predicate AccessChild(disk: Disk, path: string, pv: View, permitted: bool, r: Reply) {
    match ChildKind(disk, pv, Basename(path))
    case RealChild(_) => r == if permitted then Granted else Fail(EACCES)
    case KeywordChild => r == Granted
    case NoChild => r == Fail(ENOENT)
  }

  /** `#access` for a path whose base name is not the link (keywordfs.js:290-303). */
  predicate AccessAnswer(g: Graph, disk: Disk, path: string, permitted: bool, cache: map<string, View>, r: Reply) {
    var dir := Dirname(path);
    if !Resolvable(g, dir) then r == Fail(ENOENT)
    else dir in cache && AccessChild(disk, path, cache[dir], permitted, r)
  }

  /** `#getattr` below the parent's view `pv` (keywordfs.js:392-422). */
  predicate GetAttrChild(disk: Disk, path: string, pv: View, r: Reply) {
    match ChildKind(disk, pv, Basename(path))
    case RealChild(p) => r == FileAttrs(p)
    case KeywordChild => r == DirAttrs
    case NoChild => r == Fail(ENOENT)
  }

  /**
   * `#getattr` for a path other than `/` (keywordfs.js:372-422): the link
   * name is answered before the parent is checked, so an unresolved parent
   * makes it read `.path` of undefined.
   */
  predicate GetAttrAnswer(g: Graph, disk: Disk, link: string, path: string, cache: map<string, View>, r: Reply) {
    var dir := Dirname(path);
    if Basename(path) == link then
      if Resolvable(g, dir) then dir in cache && r == LinkAttrs(|cache[dir].path|)
      else r == Crash
    else if !Resolvable(g, dir) then r == Fail(ENOENT)
    else dir in cache && GetAttrChild(disk, path, cache[dir], r)
  }

  /** `#readlink` below the parent's view `pv` (keywordfs.js:480-490). */
  predicate ReadLinkChild(disk: Disk, link: string, path: string, pv: View, r: Reply) {
    var base := Basename(path);
    if base == link then r == LinkTarget(pv.path)
    else if Exists(disk, pv.path, base) then r == ReadLinkOf(pv.path + "/" + base)
    else r == Fail(ENOENT)
  }

  /** `#readlink` for a path other than `/` (keywordfs.js:478-490). */
  predicate ReadLinkAnswer(g: Graph, disk: Disk, link: string, path: string, cache: map<string, View>, r: Reply) {
    var dir := Dirname(path);
    if !Resolvable(g, dir) then r == Fail(ENOENT)
    else dir in cache && ReadLinkChild(disk, link, path, cache[dir], r)
  }

  /** `#open` answers one way only: the graph, the disk and the cache determine the reply. */
  lemma OpenAnswerDetermined(g: Graph, disk: Disk, path: string, cache: map<string, View>, r1: Reply, r2: Reply)
    requires OpenAnswer(g, disk, path, cache, r1) && OpenAnswer(g, disk, path, cache, r2)
    ensures r1 == r2
  {
    var dir := Dirname(path);
    if Resolvable(g, dir) {
      assert OpenChild(g, disk, path, cache[dir], cache, r1) && OpenChild(g, disk, path, cache[dir], cache, r2);
      var c := ChildKind(disk, cache[dir], Basename(path));
      if c.KeywordChild? {
        assert ReopenAnswer(g, path, cache, r1) && ReopenAnswer(g, path, cache, r2);
      }
    }
  }

  /**
   * A keyword offered in a non-root listing can be entered: the child path
   * resolves and is classified as found, so `#open` and `#opendir` re-resolve
   * it without a TypeError.
   */
  lemma OfferedKeywordOpens(g: Graph, disk: Disk, ref: string, link: string, path: string, pv: View)
    requires Valid(g, ref) && LastSep(path) > 0 && Dirname(path) != "/"
    requires IsView(g, disk, ref, link, Dirname(path), pv) && Basename(path) in KeywordPart(disk, pv)
    ensures Resolvable(g, path)
    ensures !ChildKind(disk, pv, Basename(path)).NoChild?
  {
    OfferedChildResolves(g, disk, ref, link, path, pv);
    FrontListed(pv.content, |Files(ReadDir(disk, pv.path))| + 3, Basename(path));
  }

  /** The path of an offered keyword resolves, and its base name is a segment. */
  lemma OfferedChildResolves(g: Graph, disk: Disk, ref: string, link: string, path: string, pv: View)
    requires Valid(g, ref) && LastSep(path) > 0 && Dirname(path) != "/"
    requires IsView(g, disk, ref, link, Dirname(path), pv) && Basename(path) in KeywordPart(disk, pv)
    ensures Resolvable(g, path) && Segment(Basename(path))
  {
    DirnameJoin(path);
    KeywordChildResolves(g, disk, ref, link, Dirname(path), pv, Basename(path));
    assert Basename(path) in Split(Dirname(path) + "/" + Basename(path));
  }

  /**
   * Opening a keyword whose only directory, inserted once, was removed
   * throws. After `/p/a` is removed from the sibling graph (one scan, so one
   * entry object per directory), and with `a` gone from the real
   * listing of `/p`, the root still offers `a`, so `#open("/a")` re-resolves
   * `/a` and reads `.path` of undefined. (Were `a` still on disk, the real
   * child would be opened instead.)
   */
  lemma DeadKeywordOpenCrashes(disk: Disk, cache: map<string, View>, r: Reply)
    requires "a" !in Names(ReadDir(disk, "/p"))
    requires CacheCoherent(Detach(Siblings(), "/p/a"), disk, "/p", "@", cache)
    ensures OpenAnswer(Detach(Siblings(), "/p/a"), disk, "/a", cache, r) <==> "/" in cache && r == Crash
  {
    DeadKeywordStaysListed();
    assert LastSep("/a"[..1]) == 0;
    assert Dirname("/a") == "/" && Basename("/a") == "a";
    if "/" in cache {
      DeadKeywordOffered(disk, cache["/"]);
    }
  }

  /** The root view of the graph without `/p/a` offers `a` as a keyword when `a` is not on disk. */
  lemma DeadKeywordOffered(disk: Disk, pv: View)
    requires "a" !in Names(ReadDir(disk, "/p"))
    requires IsView(Detach(Siblings(), "/p/a"), disk, "/p", "@", "/", pv)
    ensures ChildKind(disk, pv, "a") == KeywordChild
  {
    DeadKeywordStaysListed();
    assert "a" in pv.content;
  }

  // ---------------------------------------------------------------------------
  // The file system object

  /** Every cached view is what resolving its key computes on `g`. */
  predicate CacheCoherent(g: Graph, disk: Disk, ref: string, link: string, cache: map<string, View>) {
    forall q :: q in cache ==> IsView(g, disk, ref, link, q, cache[q])
  }

  lemma CacheStore(g: Graph, disk: Disk, ref: string, link: string, cache: map<string, View>, q: string, v: View)
    requires CacheCoherent(g, disk, ref, link, cache) && IsView(g, disk, ref, link, q, v)
    ensures CacheCoherent(g, disk, ref, link, cache[q := v])
  {
  }

  /** Storing under `q` changes no other key. */
  lemma StoreOnlyAt(cache: map<string, View>, q: string, v: View)
    ensures cache[q := v] - {q} == cache - {q}
  {
    assert forall k :: k in cache[q := v] - {q} <==> k in cache - {q};
  }

  /** `c1` keeps every view of `c0` unchanged and holds new keys only among `keys`. */
  predicate CacheGrows(c0: map<string, View>, c1: map<string, View>, keys: set<string>) {
    && (forall k :: k in c0 ==> k in c1 && c1[k] == c0[k])
    && (forall k :: k in c1 ==> k in c0 || k in keys)
  }

  /** Two resolutions in a row add keys only among those of either. */
  lemma CacheGrowsTrans(c0: map<string, View>, c1: map<string, View>, c2: map<string, View>, k1: set<string>, k2: set<string>)
    requires CacheGrows(c0, c1, k1) && CacheGrows(c1, c2, k2)
    ensures CacheGrows(c0, c2, k1 + k2)
  {
  }

  lemma CacheDrop(g: Graph, disk: Disk, ref: string, link: string, cache: map<string, View>, q: string)
    requires CacheCoherent(g, disk, ref, link, cache)
    ensures CacheCoherent(g, disk, ref, link, cache - {q})
  {
  }

  class KeywordFS {
    const referencepoint: string
    const link: string
    const disk: Disk
    var nodes: seq<BadgeNode>
    var entries: seq<BadgeEntry>
    var badgeNodes: map<string, NodeId>
    var badgeEntries: map<string, EntryId>
    var cache: map<string, View>

    /** The keyword graph held in the fields. */
    function Model(): Graph
      reads this`nodes, this`entries, this`badgeNodes, this`badgeEntries
    {
      Graph(nodes, entries, badgeNodes, badgeEntries)
    }

    /** Every cached view is what resolving its key computes on the current graph. */
    predicate Coherent()
      reads this
    {
      CacheCoherent(Model(), disk, referencepoint, link, cache)
    }

    /** The graph invariant, the link name `@` (keywordfs.js:119), and a coherent cache. */
    predicate Valid()
      reads this
    {
      KeywordGraph.Valid(Model(), referencepoint) && link == "@" && Coherent()
    }

    /**
     * The constructor (keywordfs.js:121-125): an empty graph, then one scan
     * of the reference tree, given as the directories `#readDir` would visit.
     */
    constructor (ref: string, disk: Disk, dirs: seq<string>)
      requires forall d :: d in dirs ==> Under(ref, d)
      ensures referencepoint == ref && this.disk == disk
      ensures Model() == InsertAll(Empty(), ref, dirs) && cache == map[]
      ensures Valid()
    {
      referencepoint := ref;
      link := "@";
      this.disk := disk;
      nodes := [];
      entries := [];
      badgeNodes := map[];
      badgeEntries := map[];
      cache := map[];
      new;
      EmptyValid(ref);
      Scan(dirs);
    }

    /**
     * `#insertDir(p)` (keywordfs.js:135-148): a new entry registered under
     * `p`, then for each relative segment the node of that name, fetched or
     * created, linked both ways with the entry.
     */
    method InsertDir(p: string)
      requires KeywordGraph.Valid(Model(), referencepoint) && Under(referencepoint, p)
      modifies this`nodes, this`entries, this`badgeNodes, this`badgeEntries
      ensures Model() == Insert(old(Model()), referencepoint, p)
      ensures KeywordGraph.Valid(Model(), referencepoint)
    {
      ghost var g0 := Model();
      var e: EntryId := |entries|;
      entries := entries + [BadgeEntry(p, [])];
      badgeEntries := badgeEntries[p := e];
      ghost var g1 := Model();
      assert g1 == Register(g0, p);
      RegisterStructured(g0, p);
      var segs := Split(Relative(referencepoint, p));
      var i := 0;
      while i < |segs|
        invariant 0 <= i <= |segs|
        invariant Model() == AddTags(g1, e, segs[..i]) && e < |entries|
      {
        ghost var h := Model();
        AddTagsStructured(g1, e, segs[..i]);
        AddTagsNext(g1, e, segs, i);
        assert NamesOk(h);
        var x := segs[i];
        var n: NodeId;
        if x in badgeNodes {
          n := badgeNodes[x];
        } else {
          n := |nodes|;
          nodes := nodes + [BadgeNode(x, [])];
          badgeNodes := badgeNodes[x := n];
          assert Model() == NewNode(h, x);
        }
        var node := nodes[n];
        var entry := entries[e];
        nodes := nodes[n := node.(entries := node.entries + [e])];
        entries := entries[e := entry.(nodes := entry.nodes + [n])];
        assert Model() == AddTag(h, e, x);
        i := i + 1;
      }
      assert segs[..i] == segs;
      InsertKeeps(g0, referencepoint, p);
    }

    /** `#readDir(referencepoint)` (keywordfs.js:150-161), given the directories it visits in order. */
    method Scan(dirs: seq<string>)
      requires KeywordGraph.Valid(Model(), referencepoint) && forall d :: d in dirs ==> Under(referencepoint, d)
      modifies this`nodes, this`entries, this`badgeNodes, this`badgeEntries
      ensures Model() == InsertAll(old(Model()), referencepoint, dirs)
      ensures KeywordGraph.Valid(Model(), referencepoint)
    {
      var i := 0;
      while i < |dirs|
        invariant 0 <= i <= |dirs|
        invariant Model() == InsertAll(old(Model()), referencepoint, dirs[..i])
        invariant KeywordGraph.Valid(Model(), referencepoint)
      {
        assert dirs[i] in dirs;
        InsertDir(dirs[i]);
        assert dirs[..i + 1][..i] == dirs[..i];
        i := i + 1;
      }
      assert dirs[..i] == dirs;
    }

    /**
     * The graph part of `mount()` (keywordfs.js:533-535): the tree is
     * scanned a second time. It runs once, straight after the constructor,
     * while the cache is still empty.
     */
    method Mount(dirs: seq<string>)
      requires Valid() && cache == map[] && forall d :: d in dirs ==> Under(referencepoint, d)
      modifies this`nodes, this`entries, this`badgeNodes, this`badgeEntries
      ensures Model() == InsertAll(old(Model()), referencepoint, dirs)
      ensures Valid()
    {
      Scan(dirs);
    }

    /**
     * `#getActualEntry(q)` (keywordfs.js:167-240): a cache hit returns the
     * stored view; otherwise the view is computed, stored under `q` when it
     * exists, and `None` (undefined) is returned, and not stored, exactly
     * when `q` is not the root and its accumulation is empty.
     */
    method Resolve(q: string) returns (r: Option<View>)
      requires Valid()
      modifies this`cache
      ensures Valid()
      ensures r.Some? <==> Resolvable(Model(), q)
      ensures r.Some? ==> IsView(Model(), disk, referencepoint, link, q, r.value)
      ensures r.Some? ==> q in cache && cache[q] == r.value
      ensures q in old(cache) ==> r == Some(old(cache)[q]) && cache == old(cache)
      ensures q !in old(cache) ==> cache == if r.Some? then old(cache)[q := r.value] else old(cache)
      ensures cache - {q} == old(cache) - {q}
      ensures CacheGrows(old(cache), cache, {q})
    {
      if q in cache {
        r := Some(cache[q]);
        assert IsView(Model(), disk, referencepoint, link, q, r.value);
        ViewResolvable(Model(), disk, referencepoint, link, q, r.value);
        return;
      }
      ghost var g := Model();
      if q == "/" {
        var v := RootView(Model(), disk, referencepoint, link);
        r := Some(v);
      } else {
        r := MatchView(Model(), disk, referencepoint, link, q);
      }
      assert Model() == g;
      if r.Some? {
        CacheStore(g, disk, referencepoint, link, cache, q, r.value);
        StoreOnlyAt(cache, q, r.value);
        cache := cache[q := r.value];
      }
    }

    /** `#readdir` (keywordfs.js:307-310): the listing of the view cached for the path, or a TypeError. */
    method ListDir(path: string) returns (r: Reply)
      requires Valid()
      modifies this`cache
      ensures Valid()
      ensures CacheGrows(old(cache), cache, {path})
      ensures Resolvable(Model(), path) ==> path in cache && r == Listing(cache[path].content)
      ensures !Resolvable(Model(), path) ==> r == Crash && cache == old(cache)
    {
      var v := Resolve(path);
      if v.None? {
        return Crash;
      }
      return Listing(v.value.content);
    }

    /** `#open` (keywordfs.js:243-265). */
    method Open(path: string) returns (r: Reply)
      requires Valid()
      modifies this`cache
      ensures Valid()
      ensures CacheGrows(old(cache), cache, {Dirname(path), path})
      ensures path == "/" ==> r == Opened(referencepoint) && cache == old(cache)
      ensures path != "/" && Basename(path) == link ==> r == LinkHandle && cache == old(cache)
      ensures path != "/" && Basename(path) != link ==> OpenAnswer(Model(), disk, path, cache, r)
      ensures (path != "/" && Basename(path) != link
               && !(Dirname(path) in cache && ChildKind(disk, cache[Dirname(path)], Basename(path)).KeywordChild?)) ==>
        CacheGrows(old(cache), cache, {Dirname(path)})
    {
      if path == "/" {
        return Opened(referencepoint);
      }
      if Basename(path) == link {
        return LinkHandle;
      }
      ghost var g := Model();
      var basePath := Resolve(Dirname(path));
      ghost var c1 := cache;
      assert Model() == g;
      if basePath.None? {
        return Fail(ENOENT);
      }
      var pv := basePath.value;
      var base := Basename(path);
      if Finds(Names(ReadDir(disk, pv.path)), base) {
        if Exists(disk, pv.path, base) {
          r := Opened(pv.path + "/" + base);
          assert OpenChild(g, disk, path, cache[Dirname(path)], cache, r);
          return;
        }
      }
      if Finds(pv.content, base) {
        var v := Resolve(path);
        CacheGrowsTrans(old(cache), c1, cache, {Dirname(path)}, {path});
        assert Model() == g;
        if v.None? {
          r := Crash;
        } else {
          r := Opened(v.value.path);
        }
        assert cache[Dirname(path)] == pv;
        assert OpenChild(g, disk, path, cache[Dirname(path)], cache, r);
        return;
      }
      r := Fail(ENOENT);
      assert OpenChild(g, disk, path, cache[Dirname(path)], cache, r);
    }

    /** `#opendir` (keywordfs.js:268-283): no link check; a found name is re-resolved. */
    method OpenDir(path: string) returns (r: Reply)
      requires Valid()
      modifies this`cache
      ensures Valid()
      ensures CacheGrows(old(cache), cache, {Dirname(path), path})
      ensures path == "/" ==> r == Opened(referencepoint) && cache == old(cache)
      ensures path != "/" ==> OpenDirAnswer(Model(), disk, path, cache, r)
      ensures path != "/" && !(Dirname(path) in cache && !ChildKind(disk, cache[Dirname(path)], Basename(path)).NoChild?) ==>
        CacheGrows(old(cache), cache, {Dirname(path)})
    {
      if path == "/" {
        return Opened(referencepoint);
      }
      ghost var g := Model();
      var basePath := Resolve(Dirname(path));
      ghost var c1 := cache;
      assert Model() == g;
      if basePath.None? {
        return Fail(ENOENT);
      }
      var pv := basePath.value;
      var base := Basename(path);
      if Finds(Names(ReadDir(disk, pv.path)), base) || Finds(pv.content, base) {
        var v := Resolve(path);
        CacheGrowsTrans(old(cache), c1, cache, {Dirname(path)}, {path});
        assert Model() == g;
        if v.None? {
          r := Crash;
        } else {
          r := Opened(v.value.path);
        }
        assert cache[Dirname(path)] == pv;
        assert OpenDirChild(g, disk, path, cache[Dirname(path)], cache, r);
        return;
      }
      r := Fail(ENOENT);
      assert OpenDirChild(g, disk, path, cache[Dirname(path)], cache, r);
    }

    /** `#access` (keywordfs.js:285-304); `permitted` is whether `accessSync` succeeds. */
    method Access(path: string, permitted: bool) returns (r: Reply)
      requires Valid()
      modifies this`cache
      ensures Valid()
      ensures CacheGrows(old(cache), cache, {Dirname(path)})
      ensures path == "/" ==> r == Granted && cache == old(cache)
      ensures path != "/" && Basename(path) == link ==> r == Granted && cache == old(cache)
      ensures path != "/" && Basename(path) != link ==> AccessAnswer(Model(), disk, path, permitted, cache, r)
    {
      if path == "/" {
        return Granted;
      }
      if Basename(path) == link {
        return Granted;
      }
      ghost var g := Model();
      var basePath := Resolve(Dirname(path));
      assert Model() == g;
      if basePath.None? {
        return Fail(ENOENT);
      }
      var pv := basePath.value;
      var base := Basename(path);
      if Finds(Names(ReadDir(disk, pv.path)), base) {
        r := if permitted then Granted else Fail(EACCES);
      } else if Finds(pv.content, base) {
        r := Granted;
      } else {
        r := Fail(ENOENT);
      }
      assert AccessChild(disk, path, pv, permitted, r);
    }

    /** `#getattr` (keywordfs.js:370-424): the parent is resolved first, for every path. */
    method GetAttr(path: string) returns (r: Reply)
      requires Valid()
      modifies this`cache
      ensures Valid()
      ensures CacheGrows(old(cache), cache, {Dirname(path)})
      ensures path == "/" ==> r == DirAttrs && "/" in cache
      ensures path != "/" ==> GetAttrAnswer(Model(), disk, link, path, cache, r)
    {
      ghost var g := Model();
      var basePath := Resolve(Dirname(path));
      assert Model() == g;
      if path == "/" || Basename(path) == link {
        if path == "/" {
          return DirAttrs;
        }
        if basePath.None? {
          return Crash;
        }
        return LinkAttrs(|basePath.value.path|);
      }
      if basePath.None? {
        return Fail(ENOENT);
      }
      var pv := basePath.value;
      var base := Basename(path);
      if Finds(Names(ReadDir(disk, pv.path)), base) && Exists(disk, pv.path, base) {
        r := FileAttrs(pv.path + "/" + base);
      } else if Finds(pv.content, base) {
        r := DirAttrs;
      } else {
        r := Fail(ENOENT);
      }
      assert GetAttrChild(disk, path, pv, r);
    }

    /** `#readlink` (keywordfs.js:474-491): the link name reads as the parent's canonical directory. */
    method ReadLink(path: string) returns (r: Reply)
      requires Valid()
      modifies this`cache
      ensures Valid()
      ensures CacheGrows(old(cache), cache, {Dirname(path)})
      ensures path == "/" ==> r == Fail(ENOENT) && cache == old(cache)
      ensures path != "/" ==> ReadLinkAnswer(Model(), disk, link, path, cache, r)
    {
      if path == "/" {
        return Fail(ENOENT);
      }
      ghost var g := Model();
      var basePath := Resolve(Dirname(path));
      assert Model() == g;
      if basePath.None? {
        return Fail(ENOENT);
      }
      var pv := basePath.value;
      if Basename(path) == link {
        r := LinkTarget(pv.path);
      } else {
        var actualFile := pv.path + "/" + Basename(path);
        if Exists(disk, pv.path, Basename(path)) {
          r := ReadLinkOf(actualFile);
        } else {
          r := Fail(ENOENT);
        }
      }
      assert ReadLinkChild(disk, link, path, pv, r);
    }

    /** A resolved view's canonical directory is the root or lies below it. */
    static lemma ViewPathUnder(g: Graph, disk: Disk, ref: string, link: string, q: string, v: View)
      requires KeywordGraph.Valid(g, ref) && IsView(g, disk, ref, link, q, v)
      ensures v.path == ref || Under(ref, v.path)
    {
      if q != "/" {
        assert v.references.arr[0] < |g.entries|;
      }
    }

    /**
     * `#mkdir` (keywordfs.js:426-439): `/` exists already; an unresolved
     * parent is ENOENT; otherwise the whole cache is cleared and the new
     * directory, named under the parent's canonical directory, is inserted.
     */
    method Mkdir(path: string) returns (r: Reply)
      requires Valid()
      modifies this`nodes, this`entries, this`badgeNodes, this`badgeEntries, this`cache
      ensures Valid()
      ensures path == "/" ==> r == Fail(EEXIST) && Model() == old(Model()) && cache == old(cache)
      ensures path != "/" && !Resolvable(old(Model()), Dirname(path)) ==>
        r == Fail(ENOENT) && Model() == old(Model()) && cache == old(cache)
      ensures path != "/" && Resolvable(old(Model()), Dirname(path)) ==>
        exists pv :: IsView(old(Model()), disk, referencepoint, link, Dirname(path), pv)
          && (Dirname(path) in old(cache) ==> pv == old(cache)[Dirname(path)])
          && var newDir := pv.path + "/" + Basename(path);
          && r == MadeDir(newDir) && Model() == Insert(old(Model()), referencepoint, newDir) && cache == map[]
    {
      if path == "/" {
        return Fail(EEXIST);
      }
      ghost var g0 := Model();
      var basePath := Resolve(Dirname(path));
      assert Model() == g0;
      if basePath.None? {
        return Fail(ENOENT);
      }
      var pv := basePath.value;
      assert IsView(g0, disk, referencepoint, link, Dirname(path), pv);
      cache := map[];
      var newDir := pv.path + "/" + Basename(path);
      ViewPathUnder(g0, disk, referencepoint, link, Dirname(path), pv);
      RelativeChild(referencepoint, pv.path, Basename(path));
      InsertDir(newDir);
      return MadeDir(newDir);
    }

    /**
     * `#rmdir` (keywordfs.js:441-456): `/` is refused; an unresolved path is
     * ENOENT; otherwise the whole cache is cleared and the entry registered
     * under the canonical directory is detached from its nodes and
     * unregistered. When no entry is registered under it, reading
     * `entry.nodes` throws.
     */
    method Rmdir(path: string) returns (r: Reply)
      requires Valid()
      modifies this`nodes, this`badgeEntries, this`cache
      ensures Valid()
      ensures path == "/" ==> r == Fail(EPERM) && Model() == old(Model()) && cache == old(cache)
      ensures path != "/" && !Resolvable(old(Model()), path) ==>
        r == Fail(ENOENT) && Model() == old(Model()) && cache == old(cache)
      ensures path != "/" && Resolvable(old(Model()), path) ==>
        exists v :: IsView(old(Model()), disk, referencepoint, link, path, v)
          && (path in old(cache) ==> v == old(cache)[path])
          && r == (if v.path in old(badgeEntries) then RemovedDir(v.path) else Crash)
          && Model() == Detach(old(Model()), v.path) && cache == map[]
    {
      if path == "/" {
        return Fail(EPERM);
      }
      ghost var g0 := Model();
      var basePath := Resolve(path);
      assert Model() == g0;
      if basePath.None? {
        return Fail(ENOENT);
      }
      var v := basePath.value;
      assert IsView(g0, disk, referencepoint, link, path, v);
      cache := map[];
      if v.path !in badgeEntries {
        assert Model() == g0;
        return Crash;
      }
      assert g0.badgeEntries[v.path] < |g0.entries| by {
        assert NamesOk(g0);
      }
      Unregister(v.path);
      DetachValid(g0, referencepoint, v.path);
      assert CacheCoherent(Model(), disk, referencepoint, link, cache);
      return RemovedDir(v.path);
    }

    /**
     * The removal loop of `#rmdir` (keywordfs.js:449-454, with
     * `removeEntry` at keywordfs.js:76-78): the entry registered under `p` is
     * taken off each of its nodes, then `p` is unregistered.
     */
    method Unregister(p: string)
      requires p in badgeEntries && badgeEntries[p] < |entries|
      modifies this`nodes, this`badgeEntries
      ensures Model() == Detach(old(Model()), p)
    {
      ghost var g0 := Model();
      var e := badgeEntries[p];
      var ns := entries[e].nodes;
      var i := 0;
      while i < |ns|
        invariant 0 <= i <= |ns|
        invariant Model() == DropFrom(g0, e, ns[..i]).(badgeEntries := g0.badgeEntries)
      {
        var n := ns[i];
        if n < |nodes| {
          nodes := nodes[n := nodes[n].(entries := Without(nodes[n].entries, e))];
        }
        assert ns[..i + 1][..i] == ns[..i];
        i := i + 1;
      }
      assert ns[..i] == ns;
      badgeEntries := badgeEntries - {p};
    }

    /**
     * `#create` (keywordfs.js:509-518): `/` exists already; an unresolved
     * parent is ENOENT; otherwise only the parent's cache key is dropped.
     */
    method Create(path: string) returns (r: Reply)
      requires Valid()
      modifies this`cache
      ensures Valid()
      ensures path == "/" ==> r == Fail(EEXIST) && cache == old(cache)
      ensures path != "/" && !Resolvable(Model(), Dirname(path)) ==> r == Fail(ENOENT) && cache == old(cache)
      ensures path != "/" && Resolvable(Model(), Dirname(path)) ==>
        exists pv :: IsView(Model(), disk, referencepoint, link, Dirname(path), pv)
          && (Dirname(path) in old(cache) ==> pv == old(cache)[Dirname(path)])
          && r == Created(pv.path + "/" + Basename(path))
          && cache == old(cache) - {Dirname(path)}
    {
      if path == "/" {
        return Fail(EEXIST);
      }
      ghost var g := Model();
      var basePath := Resolve(Dirname(path));
      assert Model() == g;
      if basePath.None? {
        return Fail(ENOENT);
      }
      assert IsView(g, disk, referencepoint, link, Dirname(path), basePath.value);
      CacheDrop(g, disk, referencepoint, link, cache, Dirname(path));
      cache := cache - {Dirname(path)};
      assert cache == old(cache) - {Dirname(path)};
      r := Created(basePath.value.path + "/" + Basename(path));
    }

    /**
     * `#unlink` (keywordfs.js:493-507): `/` is a directory; an unresolved
     * parent is ENOENT; otherwise the parent's cache key is dropped, even
     * when the file then turns out not to exist.
     */
    method Unlink(path: string) returns (r: Reply)
      requires Valid()
      modifies this`cache
      ensures Valid()
      ensures path == "/" ==> r == Fail(EISDIR) && cache == old(cache)
      ensures path != "/" && !Resolvable(Model(), Dirname(path)) ==> r == Fail(ENOENT) && cache == old(cache)
      ensures path != "/" && Resolvable(Model(), Dirname(path)) ==>
        exists pv :: IsView(Model(), disk, referencepoint, link, Dirname(path), pv)
          && (Dirname(path) in old(cache) ==> pv == old(cache)[Dirname(path)])
          && r == (if Exists(disk, pv.path, Basename(path)) then Unlinked(pv.path + "/" + Basename(path))
                   else Fail(ENOENT))
          && cache == old(cache) - {Dirname(path)}
    {
      if path == "/" {
        return Fail(EISDIR);
      }
      ghost var g := Model();
      var basePath := Resolve(Dirname(path));
      assert Model() == g;
      if basePath.None? {
        return Fail(ENOENT);
      }
      var pv := basePath.value;
      assert IsView(g, disk, referencepoint, link, Dirname(path), pv);
      CacheDrop(g, disk, referencepoint, link, cache, Dirname(path));
      cache := cache - {Dirname(path)};
      assert cache == old(cache) - {Dirname(path)};
      var actualFile := pv.path + "/" + Basename(path);
      if Exists(disk, pv.path, Basename(path)) {
        r := Unlinked(actualFile);
      } else {
        r := Fail(ENOENT);
      }
    }
  }
}
