/**
  An abstract node store standing in for the host scene graph and its one-shot system registry.

  Nodes are numbered from one counter and never reused.  Each node carries the tag of the
  content that built it; the content's own nested structure is not represented.  For every
  anchor the store keeps its ordered list of child nodes.  One-shot systems get their ids from a
  second counter; unregistering one is only queued, as a deferred command.
*/
module World {
  import opened Wrappers

  type NodeId = nat
  type SystemId = nat

  /** What a content factory builds under a node: `width` children, each carrying `tag`. */
  datatype Factory<L> = Factory(tag: L, width: nat)

  /** A copy of the node-store fields that the list reconciler changes. */
  datatype Store<L> = Store(
    next: NodeId,
    live: set<NodeId>,
    tag: map<NodeId, L>,
    children: map<NodeId, seq<NodeId>>,
    despawned: seq<NodeId>)

  ghost predicate Distinct(s: seq<NodeId>) {
    forall i, j :: 0 <= i < j < |s| ==> s[i] != s[j]
  }

  function Elems(s: seq<NodeId>): set<NodeId> {
    set x | x in s
  }

  lemma DistinctConcat(a: seq<NodeId>, b: seq<NodeId>)
    requires Distinct(a) && Distinct(b)
    requires forall x :: x in a ==> x !in b
    ensures Distinct(a + b)
  {
    forall i, j | 0 <= i < j < |a + b| ensures (a + b)[i] != (a + b)[j] {
      if j < |a| {
      } else if i < |a| {
        assert (a + b)[i] in a && (a + b)[j] in b;
      } else {
        assert (a + b)[i] == b[i - |a|] && (a + b)[j] == b[j - |a|];
      }
    }
  }

  /** The `width` consecutive ids starting at `lo`, in order. */
  function Interval(lo: NodeId, width: nat): (r: seq<NodeId>)
    ensures |r| == width
    ensures forall i :: 0 <= i < width ==> r[i] == lo + i
    ensures forall x :: x in r <==> lo <= x < lo + width
  {
    var r := seq(width, i => lo + i);
    forall x: NodeId | lo <= x < lo + width ensures x in r {
      assert r[x - lo] == x;
    }
    r
  }

  /** The ids `lo, lo + 1, ..., hi - 1`. */
  function NodeRange(lo: NodeId, hi: NodeId): (r: set<NodeId>)
    ensures forall x :: x in r <==> lo <= x < hi
  {
    if lo <= hi then Elems(Interval(lo, hi - lo)) else {}
  }

  /** Every id of `ids` mapped to the tag `t`. */
  function Tagged<L>(ids: set<NodeId>, t: L): (r: map<NodeId, L>)
    ensures r.Keys == ids && forall x :: x in ids ==> r[x] == t
  {
    map x | x in ids :: t
  }

  /** `s` with the ids in `gone` taken out, order kept. */
  function Without(s: seq<NodeId>, gone: set<NodeId>): (r: seq<NodeId>)
    ensures forall x :: x in r <==> x in s && x !in gone
    ensures Distinct(s) ==> Distinct(r)
  {
    if s == [] then []
    else
      var rest := Without(s[1..], gone);
      assert Distinct(s) ==> s[0] !in s[1..];
      if s[0] in gone then rest else [s[0]] + rest
  }

  /** Every child list of `m` with the ids in `gone` taken out. */
  function WithoutAll(m: map<NodeId, seq<NodeId>>, gone: set<NodeId>): (r: map<NodeId, seq<NodeId>>)
    ensures r.Keys == m.Keys
    ensures forall a :: a in m ==> r[a] == Without(m[a], gone)
  {
    map a | a in m :: Without(m[a], gone)
  }

  lemma {:induction false} WithoutTwice(s: seq<NodeId>, g1: set<NodeId>, g2: set<NodeId>)
    ensures Without(Without(s, g1), g2) == Without(s, g1 + g2)
  {
    if s != [] {
      WithoutTwice(s[1..], g1, g2);
      if s[0] !in g1 {
        assert Without(s, g1) == [s[0]] + Without(s[1..], g1);
        assert ([s[0]] + Without(s[1..], g1))[1..] == Without(s[1..], g1);
      }
    }
  }

  lemma WithoutAllTwice(m: map<NodeId, seq<NodeId>>, g1: set<NodeId>, g2: set<NodeId>)
    ensures WithoutAll(WithoutAll(m, g1), g2) == WithoutAll(m, g1 + g2)
  {
    forall a | a in m ensures WithoutAll(WithoutAll(m, g1), g2)[a] == WithoutAll(m, g1 + g2)[a] {
      WithoutTwice(m[a], g1, g2);
    }
  }

  lemma {:induction false} WithoutNothing(s: seq<NodeId>)
    ensures Without(s, {}) == s
  {
    if s != [] {
      WithoutNothing(s[1..]);
    }
  }

  /** The ordered children of `anchor` in a store. */
  function KidsOf<L>(s: Store<L>, anchor: NodeId): seq<NodeId> {
    if anchor in s.children then s.children[anchor] else []
  }

  /** A store after every child of `anchor` is despawned and `anchor` left childless. */
  function Cleared<L>(s: Store<L>, anchor: NodeId): Store<L> {
    var gone := KidsOf(s, anchor);
    s.(live := s.live - Elems(gone),
       children := WithoutAll(s.children, Elems(gone))[anchor := []],
       despawned := s.despawned + gone)
  }

  /** A store after the content of `f` is built under `anchor`, after its present children. */
  function WithContent<L>(s: Store<L>, anchor: NodeId, f: Factory<L>): Store<L> {
    var added := NodeRange(s.next, s.next + f.width);
    s.(next := s.next + f.width,
       live := s.live + added,
       tag := s.tag + Tagged(added, f.tag),
       children := s.children[anchor := KidsOf(s, anchor) + Interval(s.next, f.width)])
  }

  /** A store after `cs` become the ordered children of `anchor`. */
  function Reparented<L>(s: Store<L>, anchor: NodeId, cs: seq<NodeId>): Store<L> {
    s.(children := WithoutAll(s.children, Elems(cs))[anchor := cs])
  }

  /**
    Every tagged id lies below the counter, every live node is tagged, child lists have no
    repeats and list only live nodes.
  */
  ghost predicate NodesValid<L>(next: NodeId, live: set<NodeId>, tag: map<NodeId, L>,
                                children: map<NodeId, seq<NodeId>>) {
    && (forall n :: n in tag ==> n < next)
    && live <= tag.Keys
    && (forall a :: a in children ==> Distinct(children[a]))
    && (forall a, x :: a in children && x in children[a] ==> x in live)
  }

  /** The children of `anchor` are `f.width` nodes, each tagged with the content of `f`. */
  ghost predicate ShowsContent<L>(s: Store<L>, anchor: NodeId, f: Factory<L>) {
    && |KidsOf(s, anchor)| == f.width
    && forall x :: x in KidsOf(s, anchor) ==> x in s.tag && s.tag[x] == f.tag
  }

  /**
    Clearing `anchor` and then building `f` under it leaves exactly the fresh copy of `f`: new
    ids from the counter on, in order.
  */
  lemma RebuiltShows<L>(s: Store<L>, anchor: NodeId, f: Factory<L>)
    ensures KidsOf(WithContent(Cleared(s, anchor), anchor, f), anchor) == Interval(s.next, f.width)
    ensures ShowsContent(WithContent(Cleared(s, anchor), anchor, f), anchor, f)
  {
  }

  /**
    The first update takes the computation and registers it under the next system id; later
    updates keep the registration.
  */
  ghost predicate Registration<Q>(fn0: Option<Q>, sys0: Option<SystemId>, next0: SystemId, reg0: set<SystemId>,
                                  fn1: Option<Q>, sys1: Option<SystemId>, next1: SystemId, reg1: set<SystemId>) {
    && fn1 == None
    && (fn0.Some? ==> sys1 == Some(next0) && reg1 == reg0 + {next0} && next1 == next0 + 1)
    && (fn0.None? ==> sys1 == sys0 && reg1 == reg0 && next1 == next0)
  }

  class World<L> {
    var next: NodeId
    var live: set<NodeId>
    var tag: map<NodeId, L>
    var children: map<NodeId, seq<NodeId>>
    var nextSystem: SystemId
    var systems: set<SystemId>
    /** Deferred "unregister system" commands, oldest first. */
    var commands: seq<SystemId>
    /** Every node removed so far, in removal order. */
    ghost var despawned: seq<NodeId>

    ghost predicate Valid()
      reads this
    {
      && NodesValid(next, live, tag, children)
      && (forall s :: s in systems ==> s < nextSystem)
    }

    /** The ordered children of `anchor`. */
    function Kids(anchor: NodeId): seq<NodeId>
      reads this
    {
      if anchor in children then children[anchor] else []
    }

    ghost function Snapshot(): Store<L>
      reads this
    {
      Store(next, live, tag, children, despawned)
    }

    /** `Kids` reads, on the live object, the list `KidsOf` reads on its snapshot. */
    lemma KidsAreKidsOf(anchor: NodeId)
      ensures Kids(anchor) == KidsOf(Snapshot(), anchor)
    {
    }

    constructor ()
      ensures Valid()
      ensures next == 0 && live == {} && tag == map[] && children == map[] && despawned == []
      ensures nextSystem == 0 && systems == {} && commands == []
    {
      next, live, tag, children, despawned := 0, {}, map[], map[], [];
      nextSystem, systems, commands := 0, {}, [];
    }

    /** Creates a detached node built with content `l`. */
    method Spawn(l: L) returns (n: NodeId)
      requires Valid()
      modifies this`next, this`live, this`tag
      ensures Valid()
      ensures n == old(next) && n !in old(tag) && next == old(next) + 1
      ensures live == old(live) + {n} && tag == old(tag)[n := l]
    {
      n := next;
      next := next + 1;
      live := live + {n};
      tag := tag[n := l];
    }

    /** Removes a live node (with its content) and detaches it from its parent. */
    method DespawnRecursive(n: NodeId)
      requires Valid() && n in live
      modifies this`live, this`children, this`despawned
      ensures Valid()
      ensures live == old(live) - {n}
      ensures children == WithoutAll(old(children), {n})
      ensures despawned == old(despawned) + [n]
    {
      live := live - {n};
      children := WithoutAll(children, {n});
      despawned := despawned + [n];
    }

    /** Removes every child of `anchor` and leaves it childless. */
    method DespawnDescendants(anchor: NodeId)
      requires Valid()
      modifies this`live, this`children, this`despawned
      ensures Valid()
      ensures live == old(live) - Elems(old(Kids(anchor)))
      ensures children == WithoutAll(old(children), Elems(old(Kids(anchor))))[anchor := []]
      ensures despawned == old(despawned) + old(Kids(anchor))
      ensures Snapshot() == Cleared(old(Snapshot()), anchor)
    {
      var gone := Kids(anchor);
      live := live - Elems(gone);
      children := WithoutAll(children, Elems(gone))[anchor := []];
      despawned := despawned + gone;
    }

    /** Builds the content of `f` under `anchor`: `f.width` fresh children appended in order. */
    method Create(anchor: NodeId, f: Factory<L>)
      requires Valid()
      modifies this`next, this`live, this`tag, this`children
      ensures Valid()
      ensures next == old(next) + f.width
      ensures live == old(live) + NodeRange(old(next), old(next) + f.width)
      ensures tag == old(tag) + Tagged(NodeRange(old(next), old(next) + f.width), f.tag)
      ensures children == old(children)[anchor := old(Kids(anchor)) + Interval(old(next), f.width)]
      ensures Snapshot() == WithContent(old(Snapshot()), anchor, f)
    {
      var kids, added := Kids(anchor), Interval(next, f.width);
      var range := NodeRange(next, next + f.width);
      var c2, t2, l2 := children[anchor := kids + added], tag + Tagged(range, f.tag), live + range;
      ContentKeepsValid(next, live, tag, children, anchor, kids, added, range, f.tag, c2, t2, l2);
      children, tag, live, next := c2, t2, l2, next + f.width;
    }

    /** Makes `cs` the ordered children of `anchor`, moving them from any previous parent. */
    method ReplaceChildren(anchor: NodeId, cs: seq<NodeId>)
      requires Valid() && Distinct(cs) && forall x :: x in cs ==> x in live
      modifies this`children
      ensures Valid()
      ensures children == WithoutAll(old(children), Elems(cs))[anchor := cs]
      ensures Snapshot() == Reparented(old(Snapshot()), anchor, cs)
    {
      children := WithoutAll(children, Elems(cs))[anchor := cs];
    }

    /** Every live node, and so every listed child, was numbered before `next`. */
    lemma NodesBelowNext()
      requires Valid()
      ensures forall n :: n in live ==> n < next
      ensures forall a, x :: a in children && x in children[a] ==> x < next
    {
      forall a, x | a in children && x in children[a] ensures x < next {
        assert x in live && x in tag;
      }
    }

    method RegisterSystem() returns (id: SystemId)
      requires Valid()
      modifies this`nextSystem, this`systems
      ensures Valid()
      ensures id == old(nextSystem) && id !in old(systems)
      ensures systems == old(systems) + {id} && nextSystem == old(nextSystem) + 1
    {
      id := nextSystem;
      nextSystem := nextSystem + 1;
      systems := systems + {id};
    }

    /** Queues the deferred command that unregisters `id`. */
    method QueueUnregister(id: SystemId)
      modifies this`commands
      ensures commands == old(commands) + [id]
    {
      commands := commands + [id];
    }
  }

  /** Appending fresh ids under `anchor` keeps the store's invariant. */
  lemma ContentKeepsValid<L>(next: NodeId, live: set<NodeId>, tag: map<NodeId, L>,
                             children: map<NodeId, seq<NodeId>>, anchor: NodeId,
                             kids: seq<NodeId>, added: seq<NodeId>, range: set<NodeId>, t: L,
                             c2: map<NodeId, seq<NodeId>>, t2: map<NodeId, L>, l2: set<NodeId>)
    requires NodesValid(next, live, tag, children)
    requires kids == (if anchor in children then children[anchor] else [])
    requires added == Interval(next, |added|) && range == NodeRange(next, next + |added|)
    requires c2 == children[anchor := kids + added] && t2 == tag + Tagged(range, t) && l2 == live + range
    ensures NodesValid(next + |added|, l2, t2, c2)
  {
    assert forall x :: x in kids ==> x in live;
    DistinctConcat(kids, added);
  }
}
