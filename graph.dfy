/**
 * The keyword graph of keywordfs: keyword nodes (`BadgeNode`) and directory
 * entries (`BadgeEntry`) with the two name-keyed maps that KeywordFS keeps
 * (`badgeNodes`: keyword name to node, `badgeEntries`: real path to entry).
 *
 * Node and entry objects live in two arenas; an object's identity is its
 * index, so "the same object" is "the same index". Objects are never freed:
 * a removed entry stays in its arena, detached from every node.
 */
module KeywordGraph {
  import opened Paths

  type NodeId = nat
  type EntryId = nat

  /** A keyword: its name and the entries it tags, in push order (duplicates kept). */
  datatype BadgeNode = BadgeNode(name: string, entries: seq<EntryId>)

  /** A real directory: its absolute path and its tag nodes, in push order. */
  datatype BadgeEntry = BadgeEntry(name: string, nodes: seq<NodeId>)

  datatype Graph = Graph(
    nodes: seq<BadgeNode>,
    entries: seq<BadgeEntry>,
    badgeNodes: map<string, NodeId>,
    badgeEntries: map<string, EntryId>)

  /** The graph before the first scan. */
  function Empty(): Graph {
    Graph([], [], map[], map[])
  }

  /** `badgeNodes.get(x) !== undefined`. */
  predicate Known(g: Graph, x: string) {
    x in g.badgeNodes && g.badgeNodes[x] < |g.nodes|
  }

  /** The names of the nodes `ns`, in order. */
  function TagNames(g: Graph, ns: seq<NodeId>): seq<string>
    requires forall n :: n in ns ==> n < |g.nodes|
  {
    seq(|ns|, i requires 0 <= i < |ns| => assert ns[i] in ns; g.nodes[ns[i]].name)
  }

  // ---------------------------------------------------------------------------
  // The invariant

  /** Every node id held by entry `e` names a node. */
  predicate EntryWf(g: Graph, e: EntryId)
    requires e < |g.entries|
  {
    forall n :: n in g.entries[e].nodes ==> n < |g.nodes|
  }

  /** Node `n` holds only entry ids in range and is registered under its own name. */
  predicate NodeWf(g: Graph, n: NodeId)
    requires n < |g.nodes|
  {
    && (forall e :: e in g.nodes[n].entries ==> e < |g.entries|)
    && g.nodes[n].name in g.badgeNodes
    && g.badgeNodes[g.nodes[n].name] == n
  }

  /**
   * Entry `e` is linked symmetrically: every node lists `e` exactly as many
   * times as `e` lists that node.
   */
  predicate Attached(g: Graph, e: EntryId)
    requires e < |g.entries|
  {
    forall n :: 0 <= n < |g.nodes| ==> multiset(g.nodes[n].entries)[e] == multiset(g.entries[e].nodes)[n]
  }

  /** No node lists entry `e` (it has been removed). */
  predicate Detached(g: Graph, e: EntryId) {
    forall n :: 0 <= n < |g.nodes| ==> e !in g.nodes[n].entries
  }

  /** Entry `e` is tagged with the nodes named by its path's segments below `ref`, in order. */
  predicate Tagged(g: Graph, ref: string, e: EntryId)
    requires e < |g.entries| && EntryWf(g, e)
  {
    TagNames(g, g.entries[e].nodes) == Split(Relative(ref, g.entries[e].name))
  }

  /** Every registered name leads to a node of that name. */
  predicate NamesOk(g: Graph) {
    forall x :: x in g.badgeNodes ==> g.badgeNodes[x] < |g.nodes| && g.nodes[g.badgeNodes[x]].name == x
  }

  /** Everything the graph keeps except the tag names of its entries. */
  predicate Structured(g: Graph) {
    && NamesOk(g)
    && (forall n :: 0 <= n < |g.nodes| ==> NodeWf(g, n))
    && (forall e :: 0 <= e < |g.entries| ==> EntryWf(g, e) && (Attached(g, e) || Detached(g, e)))
    && (forall p :: p in g.badgeEntries ==>
          g.badgeEntries[p] < |g.entries| && g.entries[g.badgeEntries[p]].name == p && Attached(g, g.badgeEntries[p]))
  }

  /** Every entry is tagged by its path and lies below the reference root. */
  predicate AllTagged(g: Graph, ref: string)
    requires Structured(g)
  {
    forall e :: 0 <= e < |g.entries| ==> Tagged(g, ref, e) && Under(ref, g.entries[e].name)
  }

  /** The graph invariant (symmetry, name keys, tags) relative to the reference root `ref`. */
  predicate Valid(g: Graph, ref: string) {
    Structured(g) && AllTagged(g, ref)
  }

  lemma EmptyValid(ref: string)
    ensures Valid(Empty(), ref)
  {
  }

  // ---------------------------------------------------------------------------
  // Insertion (`#insertDir`)

  /** Step one of `#insertDir`: a new entry object for `p`, registered under `p`. */
  function Register(g: Graph, p: string): Graph {
    g.(entries := g.entries + [BadgeEntry(p, [])], badgeEntries := g.badgeEntries[p := |g.entries|])
  }

  /** Push entry `e` on node `n` and node `n` on entry `e`. */
  function Link(g: Graph, e: EntryId, n: NodeId): Graph
    requires e < |g.entries| && n < |g.nodes|
  {
    g.(nodes := g.nodes[n := g.nodes[n].(entries := g.nodes[n].entries + [e])],
       entries := g.entries[e := g.entries[e].(nodes := g.entries[e].nodes + [n])])
  }

  /** A new node named `x` with no entries, registered under `x`. */
  function NewNode(g: Graph, x: string): Graph {
    g.(nodes := g.nodes + [BadgeNode(x, [])], badgeNodes := g.badgeNodes[x := |g.nodes|])
  }

  /**
   * One segment `x` of `#insertDir`: fetch the node named `x`, or create and
   * register it, then link it with entry `e`.
   */
  function AddTag(g: Graph, e: EntryId, x: string): (r: Graph)
    requires e < |g.entries|
    ensures |r.entries| == |g.entries|
  {
    if Known(g, x) then Link(g, e, g.badgeNodes[x])
    else Link(NewNode(g, x), e, |g.nodes|)
  }

  /** The segments `segs` applied in order by AddTag. */
  function AddTags(g: Graph, e: EntryId, segs: seq<string>): (r: Graph)
    requires e < |g.entries|
    ensures |r.entries| == |g.entries|
  {
    if segs == [] then g else AddTag(AddTags(g, e, segs[..|segs| - 1]), e, segs[|segs| - 1])
  }

  /** One more segment of the fold is one more AddTag. */
  lemma AddTagsNext(g: Graph, e: EntryId, segs: seq<string>, i: nat)
    requires e < |g.entries| && i < |segs|
    ensures AddTags(g, e, segs[..i + 1]) == AddTag(AddTags(g, e, segs[..i]), e, segs[i])
  {
    assert segs[..i + 1][..i] == segs[..i];
  }

  /** `#insertDir(p)`: the graph after inserting directory `p`. */
  function Insert(g: Graph, ref: string, p: string): Graph {
    AddTags(Register(g, p), |g.entries|, Split(Relative(ref, p)))
  }

  /** `r` extends `g`: nodes keep their ids and names, entries are only added or relinked. */
  predicate Extends(g: Graph, r: Graph) {
    && |g.nodes| <= |r.nodes| && |g.entries| <= |r.entries|
    && (forall n :: 0 <= n < |g.nodes| ==> r.nodes[n].name == g.nodes[n].name)
    && (forall y :: y in g.badgeNodes ==> y in r.badgeNodes && r.badgeNodes[y] == g.badgeNodes[y])
  }

  lemma ExtendsTrans(g: Graph, h: Graph, r: Graph)
    requires Extends(g, h) && Extends(h, r)
    ensures Extends(g, r)
  {
  }

  lemma TagNamesStable(g: Graph, h: Graph, ns: seq<NodeId>)
    requires forall n :: n in ns ==> n < |g.nodes|
    requires Extends(g, h)
    ensures TagNames(h, ns) == TagNames(g, ns)
  {
    forall i | 0 <= i < |ns|
      ensures TagNames(h, ns)[i] == TagNames(g, ns)[i]
    {
      assert ns[i] in ns;
    }
  }

  /** Registering a fresh node keeps the structure, and every entry stays attached or detached. */
  lemma NewNodeStructured(g: Graph, x: string)
    requires Structured(g) && !Known(g, x)
    ensures var r := NewNode(g, x);
      Structured(r) && Extends(g, r) && r.entries == g.entries && r.badgeEntries == g.badgeEntries
      && (forall e :: 0 <= e < |g.entries| && Attached(g, e) ==> Attached(r, e))
  {
    var r := NewNode(g, x);
    var k := |g.nodes|;
    assert x !in g.badgeNodes;
    forall n | 0 <= n < |r.nodes|
      ensures NodeWf(r, n)
    {
      if n < k {
        assert NodeWf(g, n);
      }
    }
    forall e | 0 <= e < |r.entries|
      ensures EntryWf(r, e)
      ensures Attached(g, e) ==> Attached(r, e)
      ensures Detached(g, e) ==> Detached(r, e)
    {
      assert EntryWf(g, e);
      assert k !in g.entries[e].nodes;
      if Attached(g, e) {
        forall n | 0 <= n < |r.nodes|
          ensures multiset(r.nodes[n].entries)[e] == multiset(r.entries[e].nodes)[n]
        {
          if n < k {
            assert multiset(g.nodes[n].entries)[e] == multiset(g.entries[e].nodes)[n];
          }
        }
      }
    }
  }

  /** Linking `e` with `n` adds one to both sides of the count for the pair (e, n) only. */
  lemma LinkCounts(g: Graph, e: EntryId, n: NodeId, f: EntryId, m: NodeId)
    requires e < |g.entries| && n < |g.nodes| && f < |g.entries| && m < |g.nodes|
    ensures var r := Link(g, e, n);
      && multiset(r.nodes[m].entries)[f] == multiset(g.nodes[m].entries)[f] + (if m == n && f == e then 1 else 0)
      && multiset(r.entries[f].nodes)[m] == multiset(g.entries[f].nodes)[m] + (if m == n && f == e then 1 else 0)
  {
    var r := Link(g, e, n);
    if m == n {
      assert r.nodes[m].entries == g.nodes[m].entries + [e];
    } else {
      assert r.nodes[m].entries == g.nodes[m].entries;
    }
    if f == e {
      assert r.entries[f].nodes == g.entries[f].nodes + [n];
    } else {
      assert r.entries[f].nodes == g.entries[f].nodes;
    }
  }

  /** Linking a node with an attached entry keeps the structure and the entry attached. */
  lemma LinkStructured(g: Graph, e: EntryId, n: NodeId)
    requires Structured(g) && e < |g.entries| && n < |g.nodes| && Attached(g, e)
    ensures var r := Link(g, e, n);
      Structured(r) && Attached(r, e) && Extends(g, r) && r.badgeEntries == g.badgeEntries
      && r.entries[e].nodes == g.entries[e].nodes + [n]
      && (forall f :: 0 <= f < |g.entries| && f != e ==> r.entries[f] == g.entries[f])
      && (forall f :: 0 <= f < |g.entries| && Attached(g, f) ==> Attached(r, f))
  {
    var r := Link(g, e, n);
    LinkNodes(g, e, n);
    forall f | 0 <= f < |r.entries|
      ensures EntryWf(r, f)
      ensures Attached(g, f) ==> Attached(r, f)
      ensures Detached(g, f) && f != e ==> Detached(r, f)
    {
      LinkEntry(g, e, n, f);
    }
  }

  /** Linking keeps every node well-formed and every name registered. */
  lemma LinkNodes(g: Graph, e: EntryId, n: NodeId)
    requires Structured(g) && e < |g.entries| && n < |g.nodes|
    ensures var r := Link(g, e, n);
      NamesOk(r) && forall m :: 0 <= m < |r.nodes| ==> NodeWf(r, m)
  {
    var r := Link(g, e, n);
    forall m | 0 <= m < |r.nodes|
      ensures NodeWf(r, m)
    {
      assert NodeWf(g, m);
    }
  }

  /** Linking keeps every entry well-formed, attached entries attached and other detached entries detached. */
  lemma LinkEntry(g: Graph, e: EntryId, n: NodeId, f: EntryId)
    requires Structured(g) && e < |g.entries| && n < |g.nodes| && Attached(g, e) && f < |g.entries|
    ensures var r := Link(g, e, n);
      && EntryWf(r, f)
      && (Attached(g, f) ==> Attached(r, f))
      && (Detached(g, f) && f != e ==> Detached(r, f))
  {
    var r := Link(g, e, n);
    assert EntryWf(g, f);
    forall m | 0 <= m < |r.nodes|
      ensures Attached(g, f) ==> multiset(r.nodes[m].entries)[f] == multiset(r.entries[f].nodes)[m]
      ensures Detached(g, f) && f != e ==> f !in r.nodes[m].entries
    {
      LinkCounts(g, e, n, f, m);
    }
  }

  /** One AddTag step: the structure is kept and entry `e` gains the node named `x`. */
  lemma AddTagStep(g: Graph, e: EntryId, x: string)
    requires Structured(g) && e < |g.entries| && Attached(g, e)
    ensures var r := AddTag(g, e, x);
      && Structured(r) && Attached(r, e) && Extends(g, r)
      && Known(r, x) && r.entries[e].nodes == g.entries[e].nodes + [r.badgeNodes[x]]
      && r.nodes[r.badgeNodes[x]].name == x
      && (forall f :: 0 <= f < |g.entries| && f != e ==> r.entries[f] == g.entries[f])
      && r.badgeNodes.Keys == g.badgeNodes.Keys + {x}
      && r.badgeEntries == g.badgeEntries
      && (forall f :: 0 <= f < |g.entries| && Attached(g, f) ==> Attached(r, f))
  {
    if Known(g, x) {
      LinkStructured(g, e, g.badgeNodes[x]);
    } else {
      AddTagFresh(g, e, x);
    }
  }

  /** AddTag with a keyword that has no node yet. */
  lemma AddTagFresh(g: Graph, e: EntryId, x: string)
    requires Structured(g) && e < |g.entries| && Attached(g, e) && !Known(g, x)
    ensures var r := AddTag(g, e, x);
      && Structured(r) && Attached(r, e) && Extends(g, r)
      && Known(r, x) && r.entries[e].nodes == g.entries[e].nodes + [r.badgeNodes[x]]
      && r.nodes[r.badgeNodes[x]].name == x
      && (forall f :: 0 <= f < |g.entries| && f != e ==> r.entries[f] == g.entries[f])
      && r.badgeNodes.Keys == g.badgeNodes.Keys + {x}
      && r.badgeEntries == g.badgeEntries
      && (forall f :: 0 <= f < |g.entries| && Attached(g, f) ==> Attached(r, f))
  {
    NewNodeStructured(g, x);
    LinkStructured(NewNode(g, x), e, |g.nodes|);
  }

  /** The AddTags fold keeps the structure, keeps entry `e` attached and touches no other entry. */
  lemma {:induction false} AddTagsStructured(g: Graph, e: EntryId, segs: seq<string>)
    requires Structured(g) && e < |g.entries| && Attached(g, e)
    ensures var r := AddTags(g, e, segs);
      && Structured(r) && Attached(r, e) && Extends(g, r)
      && (forall f :: 0 <= f < |g.entries| && f != e ==> r.entries[f] == g.entries[f])
      && r.badgeEntries == g.badgeEntries
      && (forall f :: 0 <= f < |g.entries| && Attached(g, f) ==> Attached(r, f))
  {
    if segs != [] {
      var pre := segs[..|segs| - 1];
      AddTagsStructured(g, e, pre);
      AddTagStep(AddTags(g, e, pre), e, segs[|segs| - 1]);
    }
  }

  /**
   * One AddTag step touches no entry but `e` in any node list: an older node
   * keeps its count of every other entry, and a node it creates lists only `e`.
   */
  lemma AddTagOthers(g: Graph, e: EntryId, x: string)
    requires e < |g.entries|
    ensures var r := AddTag(g, e, x);
      && |g.nodes| <= |r.nodes|
      && forall n, f :: 0 <= n < |r.nodes| && f != e ==>
           multiset(r.nodes[n].entries)[f] == if n < |g.nodes| then multiset(g.nodes[n].entries)[f] else 0
  {
    var r := AddTag(g, e, x);
    var k := if Known(g, x) then g.badgeNodes[x] else |g.nodes|;
    forall n | 0 <= n < |r.nodes|
      ensures r.nodes[n].entries == if n == k then (if n < |g.nodes| then g.nodes[n].entries else []) + [e]
                                    else g.nodes[n].entries
    {
    }
  }

  /** The AddTags fold touches no entry but `e` in any node list. */
  lemma {:induction false} AddTagsOthers(g: Graph, e: EntryId, segs: seq<string>)
    requires e < |g.entries|
    ensures var r := AddTags(g, e, segs);
      && |g.nodes| <= |r.nodes|
      && forall n, f :: 0 <= n < |r.nodes| && f != e ==>
           multiset(r.nodes[n].entries)[f] == if n < |g.nodes| then multiset(g.nodes[n].entries)[f] else 0
  {
    if segs != [] {
      var pre := segs[..|segs| - 1];
      AddTagsOthers(g, e, pre);
      AddTagOthers(AddTags(g, e, pre), e, segs[|segs| - 1]);
    }
  }

  /** One AddTag step, as far as names go: entry `e` gains the node named `x`. */
  lemma AddTagName(g: Graph, e: EntryId, x: string)
    requires NamesOk(g) && e < |g.entries| && EntryWf(g, e)
    ensures var r := AddTag(g, e, x);
      && NamesOk(r) && Extends(g, r) && EntryWf(r, e) && r.entries[e].name == g.entries[e].name
      && r.entries[e].nodes == g.entries[e].nodes + [r.badgeNodes[x]]
      && x in r.badgeNodes && r.nodes[r.badgeNodes[x]].name == x
      && r.badgeNodes.Keys == g.badgeNodes.Keys + {x}
  {
  }

  /**
   * The AddTags fold on an entry with no tags yet tags it with the nodes
   * named `segs`, in order, and registers every name of `segs`.
   */
  lemma {:induction false} AddTagsNames(g: Graph, e: EntryId, segs: seq<string>)
    requires NamesOk(g) && e < |g.entries| && g.entries[e].nodes == []
    ensures var r := AddTags(g, e, segs);
      && NamesOk(r) && Extends(g, r) && EntryWf(r, e) && r.entries[e].name == g.entries[e].name
      && TagNames(r, r.entries[e].nodes) == segs
      && (forall y :: y in r.badgeNodes <==> y in g.badgeNodes || y in segs)
  {
    if segs != [] {
      var pre := segs[..|segs| - 1];
      var x := segs[|segs| - 1];
      AddTagsNames(g, e, pre);
      var h := AddTags(g, e, pre);
      AddTagName(h, e, x);
      var r := AddTag(h, e, x);
      assert TagNames(r, r.entries[e].nodes) == segs by {
        TagNamesStable(h, r, h.entries[e].nodes);
        assert TagNames(r, r.entries[e].nodes) == TagNames(r, h.entries[e].nodes) + [x];
        assert segs == pre + [x];
      }
      forall y
        ensures y in r.badgeNodes <==> y in g.badgeNodes || y in segs
      {
        assert y in segs <==> y in pre || y == x;
      }
    }
  }

  /** Registering a fresh entry object for `p` keeps the structure; the new entry has no links. */
  lemma RegisterStructured(g: Graph, p: string)
    requires Structured(g)
    ensures var r := Register(g, p);
      Structured(r) && Attached(r, |g.entries|) && r.entries[|g.entries|] == BadgeEntry(p, [])
      && Extends(g, r) && r.nodes == g.nodes && r.badgeNodes == g.badgeNodes
      && (forall f :: 0 <= f < |g.entries| && Attached(g, f) ==> Attached(r, f))
  {
    var e := |g.entries|;
    var r := Register(g, p);
    forall n | 0 <= n < |r.nodes|
      ensures NodeWf(r, n) && e !in r.nodes[n].entries
    {
      assert NodeWf(g, n);
    }
    forall f | 0 <= f < |r.entries|
      ensures EntryWf(r, f) && (Attached(r, f) || Detached(r, f))
    {
      if f < e {
        assert EntryWf(g, f);
        if Attached(g, f) {
          assert Attached(r, f);
        } else {
          assert Detached(g, f);
        }
      }
    }
  }

  /**
   * `#insertDir(p)` keeps the invariant. The new entry (the last in the arena)
   * is registered under `p` and tagged, in order and with duplicates, with
   * the nodes named by the segments of `p` below `ref`; existing nodes keep
   * their names and ids, a node is created for every new segment name, and
   * every older entry object is unchanged.
   */
  lemma InsertValid(g: Graph, ref: string, p: string)
    requires Valid(g, ref) && Under(ref, p)
    ensures var r := Insert(g, ref, p); var e := |g.entries|;
      && Valid(r, ref) && Extends(g, r)
      && |r.entries| == e + 1 && r.entries[e].name == p && EntryWf(r, e)
      && TagNames(r, r.entries[e].nodes) == Split(Relative(ref, p))
      && Attached(r, e)
      && r.badgeEntries == g.badgeEntries[p := e]
      && (forall y :: y in r.badgeNodes <==> y in g.badgeNodes || y in Split(Relative(ref, p)))
      && (forall f :: 0 <= f < e ==> r.entries[f] == g.entries[f])
      && (forall f :: 0 <= f < |g.entries| && Attached(g, f) ==> Attached(r, f))
      && (forall n, f :: 0 <= n < |r.nodes| && 0 <= f < e ==>
            multiset(r.nodes[n].entries)[f] == if n < |g.nodes| then multiset(g.nodes[n].entries)[f] else 0)
  {
    var e := |g.entries|;
    var g1 := Register(g, p);
    AddTagsOthers(g1, e, Split(Relative(ref, p)));
    RegisterStructured(g, p);
    var segs := Split(Relative(ref, p));
    AddTagsStructured(g1, e, segs);
    AddTagsNames(g1, e, segs);
    var r := AddTags(g1, e, segs);
    ExtendsTrans(g, g1, r);
    forall f | 0 <= f < |r.entries|
      ensures Tagged(r, ref, f) && Under(ref, r.entries[f].name)
    {
      if f < e {
        assert Tagged(g, ref, f);
        assert EntryWf(g, f);
        assert r.entries[f] == g.entries[f];
        TagNamesStable(g, r, g.entries[f].nodes);
      }
    }
  }

  /**
   * A later `#insertDir` never relinks an entry that `#rmdir` detached: no
   * node, old or new, lists it afterwards.
   */
  lemma InsertKeepsDetached(g: Graph, ref: string, p: string, f: EntryId)
    requires Valid(g, ref) && Under(ref, p) && f < |g.entries| && Detached(g, f)
    ensures Detached(Insert(g, ref, p), f)
  {
    InsertValid(g, ref, p);
    var r := Insert(g, ref, p);
    forall n | 0 <= n < |r.nodes|
      ensures f !in r.nodes[n].entries
    {
      if n < |g.nodes| {
        assert multiset(g.nodes[n].entries)[f] == 0;
      }
      assert multiset(r.nodes[n].entries)[f] == 0;
    }
  }

  // ---------------------------------------------------------------------------
  // Removal (the detach step of `#rmdir`)

  /** `node.entries.filter((x) => x !== e)`: drops every occurrence of `e`. */
  function Without(s: seq<EntryId>, e: EntryId): (r: seq<EntryId>)
  {
    if s == [] then []
    else if s[|s| - 1] == e then Without(s[..|s| - 1], e)
    else Without(s[..|s| - 1], e) + [s[|s| - 1]]
  }

  /** Without removes `e` and keeps the count of every other entry. */
  lemma {:induction false} WithoutCount(s: seq<EntryId>, e: EntryId)
    ensures multiset(Without(s, e)) == multiset(s)[e := 0]
  {
    if s != [] {
      var pre := s[..|s| - 1];
      WithoutCount(pre, e);
      assert s == pre + [s[|s| - 1]];
    }
  }

  /** `ns.forEach((x) => x.removeEntry(e))`. */
  function DropFrom(g: Graph, e: EntryId, ns: seq<NodeId>): (r: Graph)
    ensures |r.nodes| == |g.nodes|
  {
    if ns == [] then g
    else
      var h := DropFrom(g, e, ns[..|ns| - 1]);
      var n := ns[|ns| - 1];
      if n < |h.nodes| then h.(nodes := h.nodes[n := h.nodes[n].(entries := Without(h.nodes[n].entries, e))])
      else h
  }

  /**
   * The detach step of `#rmdir` for real path `p`: the entry object
   * registered under `p` is removed from every node it lists, and the key
   * `p` is deleted. Nothing happens if `p` is not registered.
   */
  function Detach(g: Graph, p: string): Graph {
    if p in g.badgeEntries && g.badgeEntries[p] < |g.entries| then
      var e := g.badgeEntries[p];
      DropFrom(g, e, g.entries[e].nodes).(badgeEntries := g.badgeEntries - {p})
    else g
  }

  /** The last removal of the loop takes `e` off node `ns[|ns| - 1]` only. */
  lemma DropFromLast(g: Graph, e: EntryId, ns: seq<NodeId>)
    requires ns != []
    ensures var h := DropFrom(g, e, ns[..|ns| - 1]); var r := DropFrom(g, e, ns); var m := ns[|ns| - 1];
      && r.entries == h.entries && r.badgeNodes == h.badgeNodes && r.badgeEntries == h.badgeEntries
      && (forall n :: 0 <= n < |h.nodes| ==> r.nodes[n].name == h.nodes[n].name)
      && (forall n :: 0 <= n < |h.nodes| ==>
            multiset(r.nodes[n].entries) == if n == m then multiset(h.nodes[n].entries)[e := 0]
                                           else multiset(h.nodes[n].entries))
  {
    var h := DropFrom(g, e, ns[..|ns| - 1]);
    var m := ns[|ns| - 1];
    if m < |h.nodes| {
      WithoutCount(h.nodes[m].entries, e);
    }
  }

  lemma {:induction false} DropFromSteps(g: Graph, e: EntryId, ns: seq<NodeId>)
    ensures var r := DropFrom(g, e, ns);
      && r.entries == g.entries && r.badgeNodes == g.badgeNodes && r.badgeEntries == g.badgeEntries
      && (forall n :: 0 <= n < |g.nodes| ==> r.nodes[n].name == g.nodes[n].name)
      && (forall n :: 0 <= n < |g.nodes| ==>
            multiset(r.nodes[n].entries) == if n in ns then multiset(g.nodes[n].entries)[e := 0]
                                           else multiset(g.nodes[n].entries))
  {
    if ns != [] {
      var pre := ns[..|ns| - 1];
      DropFromSteps(g, e, pre);
      DropFromLast(g, e, ns);
      var m := ns[|ns| - 1];
      forall n | 0 <= n < |g.nodes|
        ensures n in ns <==> n in pre || n == m
      {
        assert ns == pre + [m];
      }
    }
  }

  /** The counts after detaching the entry registered under `p`. */
  lemma DetachCount(g: Graph, p: string, n: NodeId, f: EntryId)
    requires p in g.badgeEntries && g.badgeEntries[p] < |g.entries| && n < |g.nodes|
    ensures var r := Detach(g, p); var e := g.badgeEntries[p];
      && r.entries == g.entries && r.badgeNodes == g.badgeNodes && |r.nodes| == |g.nodes|
      && r.nodes[n].name == g.nodes[n].name
      && multiset(r.nodes[n].entries)[f] ==
           if f == e && n in g.entries[e].nodes then 0 else multiset(g.nodes[n].entries)[f]
  {
    var e := g.badgeEntries[p];
    DropFromSteps(g, e, g.entries[e].nodes);
  }

  /** Detaching changes only node entry lists and the key `p`. */
  lemma DetachShape(g: Graph, p: string)
    requires p in g.badgeEntries && g.badgeEntries[p] < |g.entries|
    ensures var r := Detach(g, p);
      && r.entries == g.entries && r.badgeNodes == g.badgeNodes && |r.nodes| == |g.nodes|
      && r.badgeEntries == g.badgeEntries - {p}
      && (forall n :: 0 <= n < |g.nodes| ==> r.nodes[n].name == g.nodes[n].name)
  {
    var e := g.badgeEntries[p];
    DropFromSteps(g, e, g.entries[e].nodes);
  }

  /** After detaching, node `n` is still well formed and no longer lists the removed entry. */
  lemma DetachNode(g: Graph, p: string, n: NodeId)
    requires Structured(g) && p in g.badgeEntries && n < |g.nodes|
    ensures var r := Detach(g, p);
      NodeWf(r, n) && g.badgeEntries[p] !in r.nodes[n].entries
  {
    var e := g.badgeEntries[p];
    var r := Detach(g, p);
    DetachShape(g, p);
    assert NodeWf(g, n);
    forall f | f in r.nodes[n].entries
      ensures f < |r.entries|
    {
      DetachCount(g, p, n, f);
      assert multiset(r.nodes[n].entries)[f] > 0;
      assert multiset(g.nodes[n].entries)[f] > 0;
      assert f in g.nodes[n].entries;
    }
    assert Attached(g, e);
    DetachCount(g, p, n, e);
    if n !in g.entries[e].nodes {
      assert multiset(g.entries[e].nodes)[n] == 0;
    }
    assert multiset(r.nodes[n].entries)[e] == 0;
  }

  /** Detaching leaves every other entry object with exactly its links. */
  lemma DetachOther(g: Graph, p: string, f: EntryId)
    requires Structured(g) && p in g.badgeEntries && f < |g.entries| && f != g.badgeEntries[p]
    ensures var r := Detach(g, p);
      && |r.entries| == |g.entries| && EntryWf(r, f)
      && (forall n :: 0 <= n < |g.nodes| ==>
            multiset(r.nodes[n].entries)[f] == multiset(g.nodes[n].entries)[f])
      && (Attached(g, f) ==> Attached(r, f))
      && (Detached(g, f) ==> Detached(r, f))
  {
    var r := Detach(g, p);
    DetachShape(g, p);
    assert EntryWf(g, f);
    forall n | 0 <= n < |g.nodes|
      ensures multiset(r.nodes[n].entries)[f] == multiset(g.nodes[n].entries)[f]
    {
      DetachCount(g, p, n, f);
    }
  }

  /** Detaching keeps the structure and leaves the removed entry listed by no node. */
  lemma DetachStructured(g: Graph, p: string)
    requires Structured(g) && p in g.badgeEntries
    ensures var r := Detach(g, p); var e := g.badgeEntries[p];
      && Structured(r) && Detached(r, e)
      && r.badgeEntries == g.badgeEntries - {p}
      && r.entries == g.entries && r.badgeNodes == g.badgeNodes && Extends(g, r) && |r.nodes| == |g.nodes|
      && (forall n, f :: 0 <= n < |g.nodes| && 0 <= f < |g.entries| && f != e ==>
            multiset(r.nodes[n].entries)[f] == multiset(g.nodes[n].entries)[f])
  {
    var e := g.badgeEntries[p];
    var r := Detach(g, p);
    DetachShape(g, p);
    forall n | 0 <= n < |r.nodes|
      ensures NodeWf(r, n) && e !in r.nodes[n].entries
    {
      DetachNode(g, p, n);
    }
    forall f | 0 <= f < |r.entries| && f != e
      ensures EntryWf(r, f) && (Attached(r, f) || Detached(r, f))
    {
      DetachOther(g, p, f);
    }
    forall n, f | 0 <= n < |g.nodes| && 0 <= f < |g.entries| && f != e
      ensures multiset(r.nodes[n].entries)[f] == multiset(g.nodes[n].entries)[f]
    {
      DetachCount(g, p, n, f);
    }
    assert EntryWf(g, e);
    forall q | q in r.badgeEntries
      ensures r.badgeEntries[q] < |r.entries| && r.entries[r.badgeEntries[q]].name == q && Attached(r, r.badgeEntries[q])
    {
      assert g.badgeEntries[q] != e;
      DetachOther(g, p, g.badgeEntries[q]);
    }
  }

  /**
   * Detaching the entry registered under `p` keeps the invariant: that entry
   * is then listed by no node, the key `p` is gone, and every other entry
   * object keeps exactly its links (duplicates with the same name included).
   * No node is removed or renamed.
   */
  lemma DetachValid(g: Graph, ref: string, p: string)
    requires Valid(g, ref) && p in g.badgeEntries
    ensures var r := Detach(g, p); var e := g.badgeEntries[p];
      && Valid(r, ref)
      && Detached(r, e)
      && r.badgeEntries == g.badgeEntries - {p}
      && r.entries == g.entries && r.badgeNodes == g.badgeNodes
      && |r.nodes| == |g.nodes|
      && (forall n :: 0 <= n < |g.nodes| ==> r.nodes[n].name == g.nodes[n].name)
      && (forall n, f :: 0 <= n < |g.nodes| && 0 <= f < |g.entries| && f != e ==>
            multiset(r.nodes[n].entries)[f] == multiset(g.nodes[n].entries)[f])
  {
    DetachStructured(g, p);
    var r := Detach(g, p);
    forall f | 0 <= f < |r.entries|
      ensures Tagged(r, ref, f) && Under(ref, r.entries[f].name)
    {
      assert Tagged(g, ref, f);
      assert EntryWf(g, f);
      TagNamesStable(g, r, g.entries[f].nodes);
    }
  }

  // ---------------------------------------------------------------------------
  // Scans

  /** `#insertDir` applied to `ps` in order: one scan of the reference tree. */
  function InsertAll(g: Graph, ref: string, ps: seq<string>): Graph {
    if ps == [] then g else Insert(InsertAll(g, ref, ps[..|ps| - 1]), ref, ps[|ps| - 1])
  }

  /** Tagging never touches the map of entries. */
  lemma {:induction false} AddTagsKeepEntries(g: Graph, e: EntryId, segs: seq<string>)
    requires e < |g.entries|
    ensures AddTags(g, e, segs).badgeEntries == g.badgeEntries
  {
    if segs != [] {
      AddTagsKeepEntries(g, e, segs[..|segs| - 1]);
    }
  }

  /** Inserting needs only the name keys to grow the graph. */
  lemma InsertGrows(g: Graph, ref: string, p: string)
    requires NamesOk(g)
    ensures var r := Insert(g, ref, p);
      && NamesOk(r) && Extends(g, r) && |r.entries| == |g.entries| + 1
      && r.badgeEntries == g.badgeEntries[p := |g.entries|]
  {
    var g1 := Register(g, p);
    var segs := Split(Relative(ref, p));
    AddTagsNames(g1, |g.entries|, segs);
    AddTagsKeepEntries(g1, |g.entries|, segs);
    ExtendsTrans(g, g1, AddTags(g1, |g.entries|, segs));
  }

  /** The part of InsertValid that a scan needs. */
  lemma InsertKeeps(g: Graph, ref: string, p: string)
    requires Valid(g, ref) && Under(ref, p)
    ensures var r := Insert(g, ref, p);
      && Valid(r, ref) && Extends(g, r) && |r.entries| == |g.entries| + 1
      && r.badgeEntries.Keys == g.badgeEntries.Keys + {p}
  {
    InsertValid(g, ref, p);
  }

  /** A scan keeps the invariant. */
  lemma {:induction false} InsertAllValid(g: Graph, ref: string, ps: seq<string>)
    requires Valid(g, ref) && forall p :: p in ps ==> Under(ref, p)
    ensures Valid(InsertAll(g, ref, ps), ref)
  {
    if ps != [] {
      var pre := ps[..|ps| - 1];
      assert forall q :: q in pre ==> q in ps;
      InsertAllValid(g, ref, pre);
      InsertKeeps(InsertAll(g, ref, pre), ref, ps[|ps| - 1]);
    }
  }

  /**
   * A scan adds one entry object per scanned path, keeps every node, and
   * leaves every scanned path registered.
   */
  lemma {:induction false} InsertAllGrows(g: Graph, ref: string, ps: seq<string>)
    requires NamesOk(g)
    ensures var r := InsertAll(g, ref, ps);
      && NamesOk(r) && Extends(g, r) && |r.entries| == |g.entries| + |ps|
      && (forall p :: p in ps ==> p in r.badgeEntries)
  {
    if ps != [] {
      var pre := ps[..|ps| - 1];
      var p := ps[|ps| - 1];
      InsertAllGrows(g, ref, pre);
      var h := InsertAll(g, ref, pre);
      InsertGrows(h, ref, p);
      ExtendsTrans(g, h, Insert(h, ref, p));
      forall q | q in ps
        ensures q in InsertAll(g, ref, ps).badgeEntries
      {
        assert q in pre || q == p;
      }
    }
  }

  /**
   * Inserting the same path twice (the constructor and `mount()` both scan)
   * and then detaching it leaves the first entry object for that path
   * attached to all of its tag nodes, although the path is no longer
   * registered: re-insertion is not idempotent and the removal misses the
   * older copy.
   */
  lemma ReinsertLeavesStale(g: Graph, ref: string, p: string)
    requires Valid(g, ref) && Under(ref, p)
    ensures var g2 := Insert(Insert(g, ref, p), ref, p); var r := Detach(g2, p); var e := |g.entries|;
      && Valid(r, ref)
      && |r.entries| == e + 2 && r.entries[e].name == p && r.entries[e + 1].name == p
      && p !in r.badgeEntries
      && Attached(r, e) && Detached(r, e + 1)
      && TagNames(r, r.entries[e].nodes) == Split(Relative(ref, p))
  {
    var e := |g.entries|;
    InsertValid(g, ref, p);
    var g1 := Insert(g, ref, p);
    InsertValid(g1, ref, p);
    var g2 := Insert(g1, ref, p);
    assert g2.badgeEntries[p] == e + 1;
    DetachValid(g2, ref, p);
    var r := Detach(g2, p);
    assert Attached(g2, e);
    assert EntryWf(r, e) && Tagged(r, ref, e);
  }
}
