/**
 * The query resolver of keywordfs (`#getActualEntry`): a virtual path is a
 * sequence of keywords; the entries tagged by its known keywords are
 * intersected, the entry with the shortest real path becomes the canonical
 * directory, and the listing offers the other keywords of the matched
 * entries, the real files of the canonical directory and `.`, `..` and the
 * link name. The root `/` has a listing of its own.
 *
 * The real tree is a fixed oracle (`Disk`): the listing of each real
 * directory, each line flagged with what `statSync(...).isFile()` reports.
 */
module Resolution {
  import opened Wrappers
  import opened Paths
  import opened KeywordGraph

  /** One name returned by `readdirSync`, with whether it is a regular file. */
  datatype DirEnt = DirEnt(name: string, isFile: bool)

  /** The listing of every real directory; a path that is not a key lists nothing. */
  type Disk = map<string, seq<DirEnt>>

  /** `readdirSync(p)`. */
  function ReadDir(disk: Disk, p: string): seq<DirEnt> {
    if p in disk then disk[p] else []
  }

  /** The names of a listing, in order. */
  function Names(ls: seq<DirEnt>): seq<string> {
    seq(|ls|, i requires 0 <= i < |ls| => ls[i].name)
  }

  /** The names of the regular files of a listing, in order. */
  function Files(ls: seq<DirEnt>): seq<string> {
    if ls == [] then []
    else Files(ls[..|ls| - 1]) + (if ls[|ls| - 1].isFile then [ls[|ls| - 1].name] else [])
  }

  /** `xs.find((x) => x === base)` used as a condition: an empty name is never truthy. */
  predicate Finds(xs: seq<string>, x: string) {
    x != "" && x in xs
  }

  /** `existsSync(dir + '/' + base)`: the directory itself, its `.` and `..`, or a listed name. */
  predicate Exists(disk: Disk, dir: string, base: string) {
    base == "" || base == "." || base == ".." || base in Names(ReadDir(disk, dir))
  }

  /** The third field of a `KeywordCacheEntry`: the query string for the root, the sorted matches otherwise. */
  datatype Refs = Query(query: string) | Matches(arr: seq<EntryId>)

  /** A `KeywordCacheEntry`: the canonical real directory, the listing, the references. */
  datatype View = View(path: string, content: seq<string>, references: Refs)

  predicate Distinct<T(==)>(xs: seq<T>) {
    forall i, j :: 0 <= i < j < |xs| ==> xs[i] != xs[j]
  }

  function Elems<T>(xs: seq<T>): set<T> {
    set x | x in xs
  }

  // ---------------------------------------------------------------------------
  // Matching (keywordfs.js:195-202)

  /** The entries node `n` lists, as a set: `node.entries.map((x) => newEntries.add(x))`. */
  function NodeEntries(g: Graph, n: NodeId): set<EntryId>
    requires n < |g.nodes|
  {
    set e | e in g.nodes[n].entries
  }

  /**
   * One segment of the accumulation: an unknown keyword is skipped; a known
   * one seeds an empty accumulator and is intersected with a non-empty one.
   */
  function Step(g: Graph, acc: set<EntryId>, x: string): set<EntryId> {
    if Known(g, x) then
      var es := NodeEntries(g, g.badgeNodes[x]);
      if acc == {} then es else acc * es
    else acc
  }

  /** The accumulator after the segments `segs`, starting from the empty set. */
  function Matched(g: Graph, segs: seq<string>): set<EntryId> {
    if segs == [] then {} else Step(g, Matched(g, segs[..|segs| - 1]), segs[|segs| - 1])
  }

  /** Some segment of `segs` names a node. */
  predicate AnyKnown(g: Graph, segs: seq<string>) {
    exists x :: x in segs && Known(g, x)
  }

  /** Entry `e` is listed by the node of every known segment of `segs`. */
  predicate InAll(g: Graph, segs: seq<string>, e: EntryId) {
    forall x :: x in segs && Known(g, x) ==> e in g.nodes[g.badgeNodes[x]].entries
  }

  /** A virtual path resolves: it is the root, or its accumulation is non-empty. */
  predicate Resolvable(g: Graph, q: string) {
    q == "/" || Matched(g, Split(q)) != {}
  }

  /** A path made only of unknown keywords matches nothing. */
  lemma {:induction false} NoKnownNoMatch(g: Graph, segs: seq<string>)
    requires !AnyKnown(g, segs)
    ensures Matched(g, segs) == {}
  {
    if segs != [] {
      var pre := segs[..|segs| - 1];
      assert !AnyKnown(g, pre) by {
        forall x | x in pre ensures !Known(g, x) {
          assert x in segs;
        }
      }
      NoKnownNoMatch(g, pre);
      assert segs[|segs| - 1] in segs;
    }
  }

  /** Every matched entry is listed by the node of some known segment. */
  lemma {:induction false} MatchedListed(g: Graph, segs: seq<string>, e: EntryId)
    requires e in Matched(g, segs)
    ensures exists x :: x in segs && Known(g, x) && e in g.nodes[g.badgeNodes[x]].entries
  {
    var pre := segs[..|segs| - 1];
    var x := segs[|segs| - 1];
    assert x in segs;
    if Known(g, x) && e in NodeEntries(g, g.badgeNodes[x]) {
    } else {
      MatchedListed(g, pre, e);
      var y :| y in pre && Known(g, y) && e in g.nodes[g.badgeNodes[y]].entries;
      assert y in segs;
    }
  }

  /** When some keyword is known, every entry common to all known keywords is matched. */
  lemma {:induction false} MatchedContainsCommon(g: Graph, segs: seq<string>, e: EntryId)
    requires AnyKnown(g, segs) && InAll(g, segs, e)
    ensures e in Matched(g, segs)
  {
    var pre := segs[..|segs| - 1];
    var x := segs[|segs| - 1];
    assert InAll(g, pre, e) by {
      forall y | y in pre && Known(g, y) ensures e in g.nodes[g.badgeNodes[y]].entries {
        assert y in segs;
      }
    }
    assert x in segs;
    if AnyKnown(g, pre) {
      MatchedContainsCommon(g, pre, e);
    } else {
      NoKnownNoMatch(g, pre);
      assert forall y :: y in segs ==> y in pre || y == x by {
        assert segs == pre + [x];
      }
    }
  }

  /**
   * The intersection law: when the known keywords of `segs` have a common
   * entry `e0`, the accumulation is exactly the set of common entries.
   * Without a common entry the reseed quirk applies (see ReseedAfterEmpty).
   */
  lemma {:induction false} IntersectionLaw(g: Graph, segs: seq<string>, e0: EntryId)
    requires AnyKnown(g, segs) && InAll(g, segs, e0)
    ensures forall e :: e in Matched(g, segs) <==> InAll(g, segs, e)
  {
    var pre := segs[..|segs| - 1];
    var x := segs[|segs| - 1];
    assert x in segs;
    assert forall y :: y in segs <==> y in pre || y == x by {
      assert segs == pre + [x];
    }
    forall e | InAll(g, segs, e)
      ensures e in Matched(g, segs)
    {
      MatchedContainsCommon(g, segs, e);
    }
    assert InAll(g, pre, e0);
    if AnyKnown(g, pre) {
      IntersectionLaw(g, pre, e0);
      MatchedContainsCommon(g, pre, e0);
    } else {
      NoKnownNoMatch(g, pre);
    }
  }

  /** An unknown keyword anywhere in a path changes nothing about the match. */
  lemma {:induction false} UnknownSegmentIgnored(g: Graph, a: seq<string>, x: string, b: seq<string>)
    requires !Known(g, x)
    ensures Matched(g, a + [x] + b) == Matched(g, a + b)
    decreases |b|
  {
    if b == [] {
      assert (a + [x] + b)[..|a| + 1 - 1] == a && a + b == a;
    } else {
      var b' := b[..|b| - 1];
      var y := b[|b| - 1];
      UnknownSegmentIgnored(g, a, x, b');
      assert (a + [x] + b)[..|a + [x] + b| - 1] == a + [x] + b';
      assert (a + b)[..|a + b| - 1] == a + b';
    }
  }

  /** Three sibling directories `/p/a`, `/p/b`, `/p/c`, each tagged with its own name. */
  function Siblings(): Graph {
    Graph(
      [BadgeNode("a", [0]), BadgeNode("b", [1]), BadgeNode("c", [2])],
      [BadgeEntry("/p/a", [0]), BadgeEntry("/p/b", [1]), BadgeEntry("/p/c", [2])],
      map["a" := 0, "b" := 1, "c" := 2],
      map["/p/a" := 0, "/p/b" := 1, "/p/c" := 2])
  }

  lemma SiblingAttached(e: EntryId)
    requires e < 3
    ensures EntryWf(Siblings(), e) && Attached(Siblings(), e) && NodeWf(Siblings(), e)
  {
    var g := Siblings();
    assert g.entries[e].nodes == [e] && g.nodes[e].entries == [e];
    forall n | 0 <= n < 3
      ensures multiset(g.nodes[n].entries)[e] == multiset(g.entries[e].nodes)[n]
    {
      assert g.nodes[n].entries == [n];
      assert multiset([n])[e] == if n == e then 1 else 0;
      assert multiset([e])[n] == if n == e then 1 else 0;
    }
  }

  lemma SiblingsStructured()
    ensures Structured(Siblings())
  {
    var g := Siblings();
    forall e | 0 <= e < 3
      ensures EntryWf(g, e) && Attached(g, e) && NodeWf(g, e)
    {
      SiblingAttached(e);
    }
    assert NamesOk(g);
  }

  lemma SiblingTagged(e: EntryId)
    requires e < 3
    ensures EntryWf(Siblings(), e) && Tagged(Siblings(), "/p", e) && Under("/p", Siblings().entries[e].name)
  {
    var g := Siblings();
    var x := g.entries[e].name[3..];
    assert g.entries[e].name == "/p" + "/" + x;
    SplitSegment(x);
    RelativeChild("/p", "/p", x);
    assert g.entries[e].nodes == [e];
  }

  /** The sibling graph is what one scan of `/p` builds: it satisfies the graph invariant. */
  lemma SiblingsValid()
    ensures Valid(Siblings(), "/p")
  {
    SiblingsStructured();
    forall e | 0 <= e < 3
      ensures Tagged(Siblings(), "/p", e) && Under("/p", Siblings().entries[e].name)
    {
      SiblingTagged(e);
    }
  }

  /**
   * The reseed quirk: `a` then `b` empties the accumulator, and `c` then
   * reseeds it, so the path `/a/b/c` resolves to the entry of `c` although
   * no entry carries all three keywords.
   */
  lemma ReseedAfterEmpty()
    ensures Matched(Siblings(), ["a", "b", "c"]) == {2}
    ensures !InAll(Siblings(), ["a", "b", "c"], 2)
  {
    var g := Siblings();
    var segs := ["a", "b", "c"];
    assert segs[..2] == ["a", "b"] && segs[..2][..1] == ["a"] && ["a"][..0] == [];
    assert NodeEntries(g, 0) == {0} && NodeEntries(g, 1) == {1} && NodeEntries(g, 2) == {2};
    assert Matched(g, ["a"]) == {0};
    assert Matched(g, ["a", "b"]) == {};
    assert "a" in segs && Known(g, "a") && 2 !in g.nodes[0].entries;
  }

  // ---------------------------------------------------------------------------
  // Views (keywordfs.js:176-240)

  /** The names of all nodes in creation order: `Array.from(badgeNodes.values()).map((x) => x.name)`. */
  function NodeNames(g: Graph): seq<string> {
    seq(|g.nodes|, i requires 0 <= i < |g.nodes| => g.nodes[i].name)
  }

  /** The names of the nodes `ns` that exist, as a set. */
  function NamesOf(g: Graph, ns: seq<NodeId>): set<string> {
    set n | n in ns && n < |g.nodes| :: g.nodes[n].name
  }

  /** The tag names of the entries `m`: `entries.forEach((x) => x.nodes.map((x) => nodes.add(x.name)))`. */
  function Keywords(g: Graph, m: set<EntryId>): set<string> {
    set e, n | e in m && e < |g.entries| && n in g.entries[e].nodes && n < |g.nodes| :: g.nodes[n].name
  }

  /** The keywords a non-root listing offers: the tags of the matches minus the consumed segments. */
  function Offered(g: Graph, ref: string, q: string, m: set<EntryId>, path: string): set<string> {
    Keywords(g, m) - Elems(Split(q)) - Elems(Split(Relative(ref, path)))
  }

  /** Entries sorted by the length of their path, shortest first. */
  predicate SortedByLength(g: Graph, arr: seq<EntryId>) {
    && (forall i :: 0 <= i < |arr| ==> arr[i] < |g.entries|)
    && (forall i, j :: 0 <= i < j < |arr| ==> |g.entries[arr[i]].name| <= |g.entries[arr[j]].name|)
  }

  /** The part of a listing before its last `k` names. */
  function Front(content: seq<string>, k: nat): seq<string> {
    if k <= |content| then content[..|content| - k] else []
  }

  /** The keyword part of a non-root listing: what precedes the real files and the three fixed names. */
  function KeywordPart(disk: Disk, v: View): seq<string> {
    Front(v.content, |Files(ReadDir(disk, v.path))| + 3)
  }

  /**
   * `v` is what `#getActualEntry(q)` computes on graph `g`. For the root: the
   * reference root, every node name, the real files of the root, `.` and
   * `..`. Otherwise: the accumulation is non-empty; the references are its
   * entries, each once, sorted by path length; the canonical path is the
   * first one's; the listing is the offered keywords (each once, in some
   * order), the real files of the canonical directory, `.`, `..` and the link.
   */
  predicate IsView(g: Graph, disk: Disk, ref: string, link: string, q: string, v: View) {
    if q == "/" then
      v == View(ref, NodeNames(g) + Files(ReadDir(disk, ref)) + [".", ".."], Query(q))
    else
      var m := Matched(g, Split(q));
      && v.references.Matches?
      && var arr := v.references.arr;
      && |arr| > 0 && Distinct(arr) && Elems(arr) == m && SortedByLength(g, arr)
      && v.path == g.entries[arr[0]].name
      && var files := Files(ReadDir(disk, v.path));
      && |files| + 3 <= |v.content|
      && v.content[|v.content| - |files| - 3..] == files + [".", "..", link]
      && Distinct(KeywordPart(disk, v))
      && Elems(KeywordPart(disk, v)) == Offered(g, ref, q, m, v.path)
  }

  /**
   * The canonical directory of a non-root view is the path of a matched
   * entry, and no matched entry has a shorter path.
   */
  lemma CanonicalIsShortest(g: Graph, disk: Disk, ref: string, link: string, q: string, v: View)
    requires q != "/" && IsView(g, disk, ref, link, q, v)
    ensures exists e :: e in Matched(g, Split(q)) && e < |g.entries| && g.entries[e].name == v.path
    ensures forall e :: e in Matched(g, Split(q)) ==> e < |g.entries| && |v.path| <= |g.entries[e].name|
  {
    var arr := v.references.arr;
    assert arr[0] in arr;
    forall e | e in Matched(g, Split(q))
      ensures e < |g.entries| && |v.path| <= |g.entries[e].name|
    {
      assert e in Elems(arr);
      var i :| 0 <= i < |arr| && arr[i] == e;
      if i > 0 {
        assert |g.entries[arr[0]].name| <= |g.entries[arr[i]].name|;
      }
    }
  }

  /** No segment of the query is offered as a keyword below it. */
  lemma QuerySegmentNotOffered(g: Graph, disk: Disk, ref: string, link: string, q: string, v: View)
    requires q != "/" && IsView(g, disk, ref, link, q, v)
    ensures forall y :: y in Split(q) ==> y !in KeywordPart(disk, v)
    ensures forall y :: y in Split(Relative(ref, v.path)) ==> y !in KeywordPart(disk, v)
  {
    forall y | y in KeywordPart(disk, v)
      ensures y !in Split(q) && y !in Split(Relative(ref, v.path))
    {
      assert y in Elems(KeywordPart(disk, v));
    }
  }

  /** Every registered keyword is listed at the root, whatever it still tags. */
  lemma RootListsAllNodes(g: Graph, disk: Disk, ref: string, link: string, v: View)
    requires NamesOk(g) && IsView(g, disk, ref, link, "/", v)
    ensures v.path == ref && v.content[|v.content| - 2..] == [".", ".."]
    ensures forall x :: x in g.badgeNodes ==> x in v.content
  {
    forall x | x in g.badgeNodes
      ensures x in v.content
    {
      var n := g.badgeNodes[x];
      assert NodeNames(g)[n] == x;
      assert v.content[n] == x;
    }
  }

  /** An entry listed by a node of a structured graph is attached, so it lists that node. */
  lemma ListedIsAttached(g: Graph, n: NodeId, e: EntryId)
    requires Structured(g) && n < |g.nodes| && e in g.nodes[n].entries
    ensures e < |g.entries| && Attached(g, e)
  {
    assert NodeWf(g, n);
  }

  /** A tag of an attached entry is a registered segment whose node lists the entry back. */
  lemma TagOfAttached(g: Graph, ref: string, e: EntryId, n: NodeId)
    requires Valid(g, ref) && e < |g.entries| && Attached(g, e) && n in g.entries[e].nodes
    ensures n < |g.nodes| && Segment(g.nodes[n].name) && e in g.nodes[n].entries
    ensures Known(g, g.nodes[n].name) && g.badgeNodes[g.nodes[n].name] == n
  {
    assert EntryWf(g, e) && Tagged(g, ref, e);
    assert multiset(g.entries[e].nodes)[n] > 0;
    assert multiset(g.nodes[n].entries)[e] > 0;
    assert NodeWf(g, n);
    var i :| 0 <= i < |g.entries[e].nodes| && g.entries[e].nodes[i] == n;
    assert TagNames(g, g.entries[e].nodes)[i] == g.nodes[n].name;
    assert g.nodes[n].name in Split(Relative(ref, g.entries[e].name));
  }

  /**
   * A keyword offered in a non-root listing leads somewhere: appending it to
   * the query gives a path that resolves too.
   */
  lemma KeywordChildResolves(g: Graph, disk: Disk, ref: string, link: string, q: string, v: View, y: string)
    requires Valid(g, ref) && q != "/" && IsView(g, disk, ref, link, q, v)
    requires y in KeywordPart(disk, v)
    ensures Split(q + "/" + y) == Split(q) + [y]
    ensures Resolvable(g, q + "/" + y)
  {
    var m := Matched(g, Split(q));
    assert y in Elems(KeywordPart(disk, v));
    assert y in Keywords(g, m);
    var e, n :| e in m && e < |g.entries| && n in g.entries[e].nodes && n < |g.nodes| && g.nodes[n].name == y;
    MatchedListed(g, Split(q), e);
    var x :| x in Split(q) && Known(g, x) && e in g.nodes[g.badgeNodes[x]].entries;
    ListedIsAttached(g, g.badgeNodes[x], e);
    TagOfAttached(g, ref, e, n);
    SplitConcat(q, y);
    SplitSegment(y);
    MatchedSnoc(g, Split(q), y, e);
  }

  /** An entry matched by `segs` and listed by the node of `y` is matched by `segs + [y]`. */
  lemma MatchedSnoc(g: Graph, segs: seq<string>, y: string, e: EntryId)
    requires e in Matched(g, segs) && Known(g, y) && e in g.nodes[g.badgeNodes[y]].entries
    ensures e in Matched(g, segs + [y])
  {
    assert (segs + [y])[..|segs|] == segs;
  }

  /**
   * Every attached directory below the root is reached by its own relative
   * path read as a virtual path: the segments of that path match it.
   */
  lemma OwnPathMatches(g: Graph, ref: string, e: EntryId)
    requires Valid(g, ref) && e < |g.entries| && Attached(g, e)
    requires Split(Relative(ref, g.entries[e].name)) != []
    ensures var segs := Split(Relative(ref, g.entries[e].name));
      Split(Join(segs)) == segs && e in Matched(g, segs) && Resolvable(g, Join(segs))
  {
    var segs := Split(Relative(ref, g.entries[e].name));
    assert EntryWf(g, e) && Tagged(g, ref, e);
    var ns := g.entries[e].nodes;
    forall x | x in segs
      ensures Known(g, x) && e in g.nodes[g.badgeNodes[x]].entries
    {
      var i :| 0 <= i < |segs| && segs[i] == x;
      assert TagNames(g, ns)[i] == x;
      assert ns[i] in ns;
      TagOfAttached(g, ref, e, ns[i]);
    }
    assert segs[0] in segs;
    MatchedContainsCommon(g, segs, e);
    SplitJoin(segs);
  }

  /** Removing a directory never removes a node: the root keeps listing every keyword. */
  lemma DetachKeepsNodes(g: Graph, ref: string, p: string)
    requires Valid(g, ref) && p in g.badgeEntries
    ensures NodeNames(Detach(g, p)) == NodeNames(g)
  {
    DetachValid(g, ref, p);
  }

  /** An entry no node lists is matched by no path. */
  lemma DetachedNeverMatched(g: Graph, segs: seq<string>, f: EntryId)
    requires Detached(g, f)
    ensures f !in Matched(g, segs)
  {
    if f in Matched(g, segs) {
      MatchedListed(g, segs, f);
      assert false;
    }
  }

  /**
   * A directory removed by `#rmdir` stays out of every resolution after a
   * later `#mkdir`, even one that re-creates the same path: the new entry
   * object is a different one, and the removed one is never relinked.
   */
  lemma RemovedStaysOut(g: Graph, ref: string, p: string, d: string, q: string)
    requires Valid(g, ref) && p in g.badgeEntries && Under(ref, d)
    ensures g.badgeEntries[p] !in Matched(Insert(Detach(g, p), ref, d), Split(q))
  {
    DetachValid(g, ref, p);
    InsertKeepsDetached(Detach(g, p), ref, d, g.badgeEntries[p]);
    DetachedNeverMatched(Insert(Detach(g, p), ref, d), Split(q), g.badgeEntries[p]);
  }

  /**
   * After `/p/a` is removed from the sibling graph (one scan, so one entry
   * object per directory), its keyword `a` is still a node (and so still
   * listed at the root) but the path `/a` no longer resolves.
   */
  lemma DeadKeywordStaysListed()
    ensures "a" in NodeNames(Detach(Siblings(), "/p/a"))
    ensures !Resolvable(Detach(Siblings(), "/p/a"), "/a")
  {
    var g := Siblings();
    var r := Detach(g, "/p/a");
    assert r == DropFrom(g, 0, [0]).(badgeEntries := g.badgeEntries - {"/p/a"});
    assert [0][..0] == [];
    assert Without([0], 0) == [] by {
      assert [0][..0] == [];
    }
    assert r.nodes[0] == BadgeNode("a", []);
    assert NodeNames(r)[0] == "a";
    SplitConcat("", "a");
    SplitSegment("a");
    assert "/a" == "" + "/" + "a";
    assert Split("/a") == ["a"];
    assert ["a"][..0] == [];
    assert NodeEntries(r, 0) == {};
  }

  // ---------------------------------------------------------------------------
  // The loops of `#getActualEntry`

  /** `node.entries.map((x) => newEntries.add(x))` (keywordfs.js:198-199). */
  method EntriesOf(g: Graph, n: NodeId) returns (s: set<EntryId>)
    requires n < |g.nodes|
    ensures s == NodeEntries(g, n)
  {
    var es := g.nodes[n].entries;
    s := {};
    var i := 0;
    while i < |es|
      invariant 0 <= i <= |es|
      invariant s == set e | e in es[..i]
    {
      assert es[..i + 1] == es[..i] + [es[i]];
      s := s + {es[i]};
      i := i + 1;
    }
    assert es[..i] == es;
  }

  /** The accumulation over the query's segments (keywordfs.js:195-202). */
  method Accumulate(g: Graph, segs: seq<string>) returns (acc: set<EntryId>)
    ensures acc == Matched(g, segs)
  {
    acc := {};
    var i := 0;
    while i < |segs|
      invariant 0 <= i <= |segs|
      invariant acc == Matched(g, segs[..i])
    {
      var x := segs[i];
      if Known(g, x) {
        var newEntries := EntriesOf(g, g.badgeNodes[x]);
        acc := if |acc| == 0 then newEntries else acc * newEntries;
      }
      assert segs[..i + 1][..i] == segs[..i];
      i := i + 1;
    }
    assert segs[..i] == segs;
  }

  /** Adding one entry to a set of matches adds that entry's tag names. */
  lemma KeywordsAdd(g: Graph, a: set<EntryId>, e: EntryId)
    requires e < |g.entries|
    ensures Keywords(g, a + {e}) == Keywords(g, a) + NamesOf(g, g.entries[e].nodes)
  {
    var ns := g.entries[e].nodes;
    forall y | y in NamesOf(g, ns)
      ensures y in Keywords(g, a + {e})
    {
      var n :| n in ns && n < |g.nodes| && g.nodes[n].name == y;
      assert e in a + {e};
    }
  }

  /** The tag names of all matched entries (keywordfs.js:204-205). */
  method CollectKeywords(g: Graph, m: set<EntryId>) returns (names: set<string>)
    ensures names == Keywords(g, m)
  {
    names := {};
    var rest := m;
    while rest != {}
      invariant rest <= m
      invariant names == Keywords(g, m - rest)
      decreases |rest|
    {
      var e :| e in rest;
      if e < |g.entries| {
        var ns := g.entries[e].nodes;
        var j := 0;
        while j < |ns|
          invariant 0 <= j <= |ns|
          invariant names == Keywords(g, m - rest) + NamesOf(g, ns[..j])
        {
          assert ns[..j + 1] == ns[..j] + [ns[j]];
          if ns[j] < |g.nodes| {
            names := names + {g.nodes[ns[j]].name};
          }
          j := j + 1;
        }
        assert ns[..j] == ns;
        KeywordsAdd(g, m - rest, e);
      }
      assert m - (rest - {e}) == (m - rest) + {e};
      rest := rest - {e};
    }
    assert m - rest == m;
  }

  /** `segs.forEach((x) => { nodes.delete(x); })` (keywordfs.js:217-224). */
  method DeleteAll(names: set<string>, segs: seq<string>) returns (r: set<string>)
    ensures r == names - Elems(segs)
  {
    r := names;
    var i := 0;
    while i < |segs|
      invariant 0 <= i <= |segs|
      invariant r == names - Elems(segs[..i])
    {
      assert segs[..i + 1] == segs[..i] + [segs[i]];
      r := r - {segs[i]};
      i := i + 1;
    }
    assert segs[..i] == segs;
  }

  /** `Array.from(s)` or `s.forEach((x) => listing.push(x))`: each element once, in some order. */
  method ListOf<T>(s: set<T>) returns (xs: seq<T>)
    ensures Distinct(xs) && Elems(xs) == s && |xs| == |s|
  {
    xs := [];
    var rest := s;
    while rest != {}
      invariant rest <= s
      invariant Distinct(xs) && Elems(xs) == s - rest && |xs| + |rest| == |s|
      decreases |rest|
    {
      var x :| x in rest;
      assert x !in Elems(xs);
      assert Elems(xs + [x]) == Elems(xs) + {x};
      xs := xs + [x];
      rest := rest - {x};
    }
  }

  /** The names of the regular files of a listing (keywordfs.js:181-185, 228-231). */
  method FilesOf(ls: seq<DirEnt>) returns (fs: seq<string>)
    ensures fs == Files(ls)
  {
    fs := [];
    var i := 0;
    while i < |ls|
      invariant 0 <= i <= |ls|
      invariant fs == Files(ls[..i])
    {
      assert ls[..i + 1][..i] == ls[..i];
      if ls[i].isFile {
        fs := fs + [ls[i].name];
      }
      i := i + 1;
    }
    assert ls[..i] == ls;
  }

  /** The names of all nodes, in creation order (keywordfs.js:179-180). */
  method NodeNamesOf(g: Graph) returns (ns: seq<string>)
    ensures ns == NodeNames(g)
  {
    ns := [];
    var i := 0;
    while i < |g.nodes|
      invariant 0 <= i <= |g.nodes|
      invariant ns == NodeNames(g)[..i]
    {
      ns := ns + [g.nodes[i].name];
      i := i + 1;
    }
  }

  /** The regular files are exactly the listed names flagged as files. */
  lemma {:induction false} FilesListed(ls: seq<DirEnt>, x: string)
    ensures x in Files(ls) <==> exists i :: 0 <= i < |ls| && ls[i].name == x && ls[i].isFile
  {
    if ls != [] {
      var pre := ls[..|ls| - 1];
      FilesListed(pre, x);
      if x in Files(pre) {
        var i :| 0 <= i < |pre| && pre[i].name == x && pre[i].isFile;
        assert ls[i] == pre[i];
      }
      if exists i :: 0 <= i < |ls| && ls[i].name == x && ls[i].isFile {
        var i :| 0 <= i < |ls| && ls[i].name == x && ls[i].isFile;
        if i < |ls| - 1 {
          assert pre[i] == ls[i];
        }
      }
    }
  }

  // ---------------------------------------------------------------------------
  // Sorting by path length (keywordfs.js:207)

  /** Placing `x` at a position `k` that splits `ys` into no-longer and longer paths keeps the order. */
  lemma InsertSorted(g: Graph, ys: seq<EntryId>, k: nat, x: EntryId)
    requires SortedByLength(g, ys) && x < |g.entries| && k <= |ys|
    requires forall i :: 0 <= i < k ==> |g.entries[ys[i]].name| <= |g.entries[x].name|
    requires k < |ys| ==> |g.entries[x].name| < |g.entries[ys[k]].name|
    ensures SortedByLength(g, ys[..k] + [x] + ys[k..])
  {
    var r := ys[..k] + [x] + ys[k..];
    forall i, j | 0 <= i < j < |r|
      ensures |g.entries[r[i]].name| <= |g.entries[r[j]].name|
    {
      if j < k {
        assert r[i] == ys[i] && r[j] == ys[j];
      } else if j == k {
        assert r[i] == ys[i];
      } else if i < k {
        assert r[i] == ys[i] && r[j] == ys[j - 1];
      } else if i == k {
        assert r[j] == ys[j - 1];
        if j - 1 > k {
          assert |g.entries[ys[k]].name| <= |g.entries[ys[j - 1]].name|;
        }
      } else {
        assert r[i] == ys[i - 1] && r[j] == ys[j - 1];
      }
    }
  }

  /** `x` inserted into sorted `ys` after every entry whose path is no longer. */
  method InsertByLength(g: Graph, ys: seq<EntryId>, x: EntryId) returns (r: seq<EntryId>)
    requires SortedByLength(g, ys) && x < |g.entries|
    ensures SortedByLength(g, r) && multiset(r) == multiset(ys) + multiset{x}
  {
    var k := 0;
    while k < |ys| && |g.entries[ys[k]].name| <= |g.entries[x].name|
      invariant 0 <= k <= |ys|
      invariant forall i :: 0 <= i < k ==> |g.entries[ys[i]].name| <= |g.entries[x].name|
    {
      k := k + 1;
    }
    InsertSorted(g, ys, k, x);
    r := ys[..k] + [x] + ys[k..];
    assert ys == ys[..k] + ys[k..];
  }

  /** `Array.from(entries).sort((a, b) => a.name.length - b.name.length)` as an insertion sort. */
  method SortByLength(g: Graph, xs: seq<EntryId>) returns (ys: seq<EntryId>)
    requires forall i :: 0 <= i < |xs| ==> xs[i] < |g.entries|
    ensures SortedByLength(g, ys) && multiset(ys) == multiset(xs)
  {
    ys := [];
    var i := 0;
    while i < |xs|
      invariant 0 <= i <= |xs|
      invariant SortedByLength(g, ys) && multiset(ys) == multiset(xs[..i])
    {
      assert xs[..i + 1] == xs[..i] + [xs[i]];
      ys := InsertByLength(g, ys, xs[i]);
      i := i + 1;
    }
    assert xs[..i] == xs;
  }

  /** A sequence without repeats has every element at most once in its multiset. */
  lemma {:induction false} DistinctCounts<T>(xs: seq<T>, x: T)
    requires Distinct(xs)
    ensures multiset(xs)[x] <= 1
  {
    if xs != [] {
      var pre := xs[..|xs| - 1];
      assert xs == pre + [xs[|xs| - 1]];
      DistinctCounts(pre, x);
      if x == xs[|xs| - 1] {
        assert x !in pre;
      }
    }
  }

  /** A permutation of a sequence without repeats has no repeats and the same elements. */
  lemma DistinctPermutation<T>(xs: seq<T>, ys: seq<T>)
    requires Distinct(xs) && multiset(ys) == multiset(xs)
    ensures Distinct(ys) && Elems(ys) == Elems(xs)
  {
    forall i, j | 0 <= i < j < |ys|
      ensures ys[i] != ys[j]
    {
      if ys[i] == ys[j] {
        var v := ys[i];
        assert ys == ys[..j] + [v] + ys[j + 1..];
        assert v in ys[..j];
        assert multiset(ys)[v] >= 2;
        DistinctCounts(xs, v);
      }
    }
    forall x
      ensures x in ys <==> x in xs
    {
      assert x in ys <==> x in multiset(ys);
      assert x in xs <==> x in multiset(xs);
    }
  }

  // ---------------------------------------------------------------------------
  // Computing a view (keywordfs.js:176-239)

  /** A view exists only for a path that resolves. */
  lemma ViewResolvable(g: Graph, disk: Disk, ref: string, link: string, q: string, v: View)
    requires IsView(g, disk, ref, link, q, v)
    ensures Resolvable(g, q)
  {
    if q != "/" {
      assert v.references.arr[0] in Elems(v.references.arr);
    }
  }

  /** The root view (keywordfs.js:178-192): every node name, the root's files, `.` and `..`. */
  method RootView(g: Graph, disk: Disk, ref: string, link: string) returns (v: View)
    ensures IsView(g, disk, ref, link, "/", v)
  {
    var contents := NodeNamesOf(g);
    var files := FilesOf(ReadDir(disk, ref));
    contents := contents + files + [".", ".."];
    v := View(ref, contents, Query("/"));
  }

  /**
   * The view of a non-root path (keywordfs.js:195-239), or `None` when the
   * accumulation is empty.
   */
  method MatchView(g: Graph, disk: Disk, ref: string, link: string, q: string) returns (r: Option<View>)
    requires Structured(g) && q != "/"
    ensures r.Some? <==> Resolvable(g, q)
    ensures r.Some? ==> IsView(g, disk, ref, link, q, r.value)
  {
    var segs := Split(q);
    var acc := Accumulate(g, segs);
    var names := CollectKeywords(g, acc);
    var listed := ListOf(acc);
    MatchedInRange(g, segs);
    assert forall i :: 0 <= i < |listed| ==> listed[i] in Elems(listed);
    var arr := SortByLength(g, listed);
    DistinctPermutation(listed, arr);
    if |arr| == 0 {
      assert Elems(arr) == {};
      return None;
    }
    var actualPath := g.entries[arr[0]].name;
    names := DeleteAll(names, segs);
    names := DeleteAll(names, Split(Relative(ref, actualPath)));
    var keywords := ListOf(names);
    var files := FilesOf(ReadDir(disk, actualPath));
    NonRootView(g, disk, ref, link, q, arr, keywords);
    assert arr[0] in Elems(arr);
    return Some(View(actualPath, keywords + files + [".", "..", link], Matches(arr)));
  }

  /** The listing assembled from the sorted matches and the offered keywords is the view of `q`. */
  lemma NonRootView(g: Graph, disk: Disk, ref: string, link: string, q: string,
                    arr: seq<EntryId>, keywords: seq<string>)
    requires q != "/" && |arr| > 0 && Distinct(arr) && SortedByLength(g, arr)
    requires Elems(arr) == Matched(g, Split(q))
    requires Distinct(keywords)
    requires Elems(keywords) == Offered(g, ref, q, Matched(g, Split(q)), g.entries[arr[0]].name)
    ensures var path := g.entries[arr[0]].name;
      IsView(g, disk, ref, link, q, View(path, keywords + Files(ReadDir(disk, path)) + [".", "..", link], Matches(arr)))
  {
    var path := g.entries[arr[0]].name;
    var files := Files(ReadDir(disk, path));
    var v := View(path, keywords + files + [".", "..", link], Matches(arr));
    ListingParts(keywords, files, link);
    assert KeywordPart(disk, v) == keywords;
    assert |files| + 3 <= |v.content|;
    assert v.content[|v.content| - |files| - 3..] == files + [".", "..", link];
  }

  /** A listing of keywords, files and the three fixed names splits back into those parts. */
  lemma ListingParts(keywords: seq<string>, files: seq<string>, link: string)
    ensures var c := keywords + files + [".", "..", link];
      && |files| + 3 <= |c|
      && c[|c| - |files| - 3..] == files + [".", "..", link]
      && Front(c, |files| + 3) == keywords
  {
    var c := keywords + files + [".", "..", link];
    assert c[|c| - |files| - 3..] == files + [".", "..", link];
    assert c[..|c| - |files| - 3] == keywords;
  }

  /** A name in the front part of a listing is in the listing. */
  lemma FrontListed(content: seq<string>, k: nat, y: string)
    requires y in Front(content, k)
    ensures y in content
  {
    var i :| 0 <= i < |Front(content, k)| && Front(content, k)[i] == y;
    assert content[i] == y;
  }

  /** Matched entries of a structured graph are entries of the arena. */
  lemma MatchedInRange(g: Graph, segs: seq<string>)
    requires Structured(g)
    ensures forall e :: e in Matched(g, segs) ==> e < |g.entries|
  {
    forall e | e in Matched(g, segs)
      ensures e < |g.entries|
    {
      MatchedListed(g, segs, e);
      var x :| x in segs && Known(g, x) && e in g.nodes[g.badgeNodes[x]].entries;
      assert NodeWf(g, g.badgeNodes[x]);
    }
  }
}
