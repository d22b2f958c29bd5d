/**
  The keyed-list effect: it runs a system producing a list of items, matches the items against
  the records retained from the previous run, keeps the nodes of matching records, despawns the
  nodes of the others and builds a node for every new item, then shows the nodes under its
  anchor in the new order, or shows the fallback content when the list is empty.
*/
module ForEach {
  import opened Wrappers
  import opened World
  import opened Matcher
  import opened Reconciler
  import opened ListStore

  /** The items of one run of the item system; a run that fails counts as an empty list. */
  function Items<T>(result: Option<seq<T>>): (items: seq<T>)
    ensures result.Some? ==> items == result.value
    ensures result.None? ==> items == []
  {
    match result
    case Some(items) => items
    case None => []
  }

  /**
    The store after the list is shown under `anchor`, given the store `s` after reconciling, the
    nodes of the new records, the previous list's length and whether this is the first update.
  */
  function Shown<L>(s: Store<L>, anchor: NodeId, nodes: seq<NodeId>, prevLen: nat, first: bool,
                    fallback: Factory<L>): (r: Store<L>)
    ensures |nodes| > 0 ==> KidsOf(r, anchor) == nodes && r.tag == s.tag && r.next == s.next
    ensures |nodes| > 0 && prevLen == 0 ==>
      r.live == s.live - Elems(KidsOf(s, anchor)) && r.despawned == s.despawned + KidsOf(s, anchor)
    ensures |nodes| > 0 && prevLen > 0 ==> r.live == s.live && r.despawned == s.despawned
    ensures |nodes| == 0 && (prevLen > 0 || first) ==>
      && KidsOf(r, anchor) == Interval(s.next, fallback.width)
      && forall x :: x in KidsOf(r, anchor) ==> x in r.tag && r.tag[x] == fallback.tag
    ensures |nodes| == 0 && (prevLen > 0 || first) ==> r.despawned == s.despawned + KidsOf(s, anchor)
    ensures |nodes| == 0 && prevLen == 0 && !first ==> r == s
  {
    if |nodes| == 0 then
      if prevLen > 0 || first then WithContent(Cleared(s, anchor), anchor, fallback) else s
    else Reparented(if prevLen == 0 then Cleared(s, anchor) else s, anchor, nodes)
  }

  /** A list effect comparing items by equality. */
  method Each<Q, T(==), L>(itemsFn: Q, each: T -> L, fallback: Factory<L>) returns (e: ForEachEffect<Q, T, L>)
    ensures fresh(e) && e.itemsFn == Some(itemsFn) && e.itemSys == None && e.state == []
    ensures e.each == each && e.fallback == fallback
    ensures forall a, b :: e.cmp(a, b) <==> a == b
  {
    e := new ForEachEffect(itemsFn, (a: T, b: T) => a == b, each, fallback);
  }

  /** A list effect comparing items with `cmp`. */
  method EachCmp<Q, T, L>(itemsFn: Q, cmp: (T, T) -> bool, each: T -> L, fallback: Factory<L>)
    returns (e: ForEachEffect<Q, T, L>)
    ensures fresh(e) && e.itemsFn == Some(itemsFn) && e.itemSys == None && e.state == []
    ensures e.cmp == cmp && e.each == each && e.fallback == fallback
  {
    e := new ForEachEffect(itemsFn, cmp, each, fallback);
  }

  class ForEachEffect<Q, T, L> {
    /** The item-producing system, until the first update registers it. */
    var itemsFn: Option<Q>
    /** The registered item-producing system. */
    var itemSys: Option<SystemId>
    /** Decides whether a previous item matches a next item. */
    const cmp: (T, T) -> bool
    /** The content built under the node of each item. */
    const each: T -> L
    /** The content shown when the list is empty. */
    const fallback: Factory<L>
    /** The records retained from the previous update, in list order. */
    var state: seq<ListItem<T>>

    /** The system is either still unregistered or registered; the retained nodes are live and distinct. */
    ghost predicate Valid(world: World<L>)
      reads this, world
    {
      && (itemsFn.Some? <==> itemSys.None?)
      && ChildrenLive(state, 0, |state|, world.live)
      && ChildrenDistinct(state, 0, |state|)
    }

    constructor (itemsFn: Q, cmp: (T, T) -> bool, each: T -> L, fallback: Factory<L>)
      ensures this.itemsFn == Some(itemsFn) && itemSys == None && state == []
      ensures this.cmp == cmp && this.each == each && this.fallback == fallback
    {
      this.itemsFn := Some(itemsFn);
      itemSys := None;
      this.cmp := cmp;
      this.each := each;
      this.fallback := fallback;
      state := [];
    }

    /** Despawns the nodes of `prev[lo..hi]`, in order. */
    method RazeRange(world: World<L>, prev: seq<ListItem<T>>, lo: nat, hi: nat)
      requires world.Valid() && lo <= hi <= |prev|
      requires ChildrenLive(prev, lo, hi, world.live) && ChildrenDistinct(prev, lo, hi)
      modifies world`live, world`children, world`despawned
      ensures world.Valid()
      ensures Applied<T, L>(old(world.Snapshot()), world.Snapshot(), ChildrenAt(prev, Range(lo, hi)), 0, [], each)
    {
      ghost var s0 := world.Snapshot();
      AppliedNothing<T, L>(s0, [], each);
      assert ChildrenAt(prev, Range(lo, lo)) == [];
      var i := lo;
      while i < hi
        invariant lo <= i <= hi && world.Valid()
        invariant ChildrenLive(prev, i, hi, world.live)
        invariant Applied<T, L>(s0, world.Snapshot(), ChildrenAt(prev, Range(lo, i)), 0, [], each)
      {
        ghost var s1 := world.Snapshot();
        var n := prev[i].child;
        assert n in world.tag;
        world.DespawnRecursive(n);
        RazedOne<T, L>(prev, lo, i, hi, s0, s1, world.Snapshot(), each);
        i := i + 1;
      }
    }

    /** Builds a node, with the content for its item, for every item of `next[lo..hi]`, in order. */
    method BuildRange(world: World<L>, next: seq<T>, lo: nat, hi: nat, out0: seq<ListItem<T>>)
      returns (out: seq<ListItem<T>>)
      requires world.Valid() && lo <= hi <= |next|
      modifies world`next, world`live, world`tag
      ensures world.Valid()
      ensures out == out0 + Built(next, lo, hi - lo, old(world.next))
      ensures Applied(old(world.Snapshot()), world.Snapshot(), [], hi - lo,
                      Built(next, lo, hi - lo, old(world.next)), each)
    {
      ghost var s0 := world.Snapshot();
      AppliedNothing<T, L>(s0, [], each);
      assert Built(next, lo, 0, s0.next) == [];
      out := out0;
      var i := lo;
      while i < hi
        invariant lo <= i <= hi && world.Valid()
        invariant out == out0 + Built(next, lo, i - lo, s0.next)
        invariant Applied(s0, world.Snapshot(), [], i - lo, Built(next, lo, i - lo, s0.next), each)
      {
        ghost var s1 := world.Snapshot();
        var n := world.Spawn(each(next[i]));
        BuiltSpawn(s0, s1, world.Snapshot(), next, lo, i - lo, each);
        out := out + [ListItem(n, next[i])];
        i := i + 1;
      }
    }

    /**
      Reconciles the previous records `prev[plo..phi]` with the next items `next[nlo..nhi]`,
      appending the resulting records to `out0`: the store changes and the records appended are
      the ones `Reconcile` decides.
    */
    method BuildRecursive(world: World<L>, prev: seq<ListItem<T>>, plo: nat, phi: nat,
                          next: seq<T>, nlo: nat, nhi: nat, out0: seq<ListItem<T>>)
      returns (out: seq<ListItem<T>>)
      requires world.Valid() && plo <= phi <= |prev| && nlo <= nhi <= |next|
      requires ChildrenLive(prev, plo, phi, world.live) && ChildrenDistinct(prev, plo, phi)
      modifies world`next, world`live, world`tag, world`children, world`despawned
      ensures world.Valid()
      ensures Performs(Reconcile(prev, plo, phi, next, nlo, nhi, cmp), prev, next, nlo,
                       old(world.Snapshot()), world.Snapshot(), out0, out, each)
      decreases (phi - plo) + (nhi - nlo), 1
    {
      ghost var s0 := world.Snapshot();
      var m := Lcs(prev[plo..phi], next[nlo..nhi], ItemCmp(cmp));
      if m.len == 0 {
        RazeRange(world, prev, plo, phi);
        ghost var s1 := world.Snapshot();
        out := BuildRange(world, next, nlo, nhi, out0);
        ReplacePerformed(prev, plo, phi, next, nlo, nhi, s0, s1, world.Snapshot(), out0, out, each);
        ReconcileUnmatched(prev, plo, phi, next, nlo, nhi, cmp);
        PerformsSame(Reconcile(prev, plo, phi, next, nlo, nhi, cmp), Replace(plo, phi, nlo, nhi),
                     prev, next, nlo, s0, world.Snapshot(), out0, out, each);
      } else {
        var ps, ns := plo + m.aStart, nlo + m.bStart;
        var pe, ne := ps + m.len, ns + m.len;
        out := BuildAround(world, prev, plo, ps, pe, phi, next, nlo, ns, ne, nhi, out0);
        ReconcileSplit(prev, plo, phi, next, nlo, nhi, cmp, m, ps, pe, ns, ne);
        PerformsSame(Reconcile(prev, plo, phi, next, nlo, nhi, cmp),
                     Join(Gap(prev, plo, ps, next, nlo, ns, cmp), ps, pe - ps, Gap(prev, pe, phi, next, ne, nhi, cmp)),
                     prev, next, nlo, s0, world.Snapshot(), out0, out, each);
      }
    }

    /**
      Reconciles around the matched run `prev[ps..pe]` ~ `next[ns..ne]`: the gap before it, then
      the run's records carried over unchanged (nodes included), then the gap after it.
    */
    method BuildAround(world: World<L>, prev: seq<ListItem<T>>, plo: nat, ps: nat, pe: nat, phi: nat,
                       next: seq<T>, nlo: nat, ns: nat, ne: nat, nhi: nat, out0: seq<ListItem<T>>)
      returns (out: seq<ListItem<T>>)
      requires world.Valid() && plo <= ps < pe <= phi <= |prev| && nlo <= ns <= ne <= nhi <= |next|
      requires pe - ps == ne - ns
      requires ChildrenLive(prev, plo, phi, world.live) && ChildrenDistinct(prev, plo, phi)
      modifies world`next, world`live, world`tag, world`children, world`despawned
      ensures world.Valid()
      ensures Performs(Join(Gap(prev, plo, ps, next, nlo, ns, cmp), ps, pe - ps, Gap(prev, pe, phi, next, ne, nhi, cmp)),
                       prev, next, nlo, old(world.Snapshot()), world.Snapshot(), out0, out, each)
      decreases (phi - plo) + (nhi - nlo), 0
    {
      ghost var s0 := world.Snapshot();
      ghost var pre := Gap(prev, plo, ps, next, nlo, ns, cmp);
      ghost var suf := Gap(prev, pe, phi, next, ne, nhi, cmp);
      var out1 := BuildGap(world, prev, plo, ps, next, nlo, ns, out0);
      ghost var s1 := world.Snapshot();
      LiveAfter(prev, plo, ps, phi, pre.razed, s0, s1, CountCreated(pre.plan),
                Realize(pre.plan, prev, next, nlo, s0.next), each);
      out := out1;
      var i := 0;
      while i < pe - ps
        invariant 0 <= i <= pe - ps
        invariant out == out1 + prev[ps..ps + i]
      {
        out := out + [prev[ps + i]];
        i := i + 1;
      }
      ghost var out2 := out;
      out := BuildGap(world, prev, pe, phi, next, ne, nhi, out);
      JoinPerformed(pre, suf, prev, plo, ps, pe, phi, next, nlo, ns, ne, nhi,
                    s0, s1, world.Snapshot(), out0, out1, out2, out, each);
    }

    /**
      The part before or after a matched run: reconciled recursively when both sides have
      entries, otherwise its previous records are despawned or its next items built.
    */
    method BuildGap(world: World<L>, prev: seq<ListItem<T>>, plo: nat, phi: nat,
                    next: seq<T>, nlo: nat, nhi: nat, out0: seq<ListItem<T>>)
      returns (out: seq<ListItem<T>>)
      requires world.Valid() && plo <= phi <= |prev| && nlo <= nhi <= |next|
      requires ChildrenLive(prev, plo, phi, world.live) && ChildrenDistinct(prev, plo, phi)
      modifies world`next, world`live, world`tag, world`children, world`despawned
      ensures world.Valid()
      ensures Performs(Gap(prev, plo, phi, next, nlo, nhi, cmp), prev, next, nlo,
                       old(world.Snapshot()), world.Snapshot(), out0, out, each)
      decreases (phi - plo) + (nhi - nlo), 2
    {
      ghost var s0 := world.Snapshot();
      if plo < phi && nlo < nhi {
        out := BuildRecursive(world, prev, plo, phi, next, nlo, nhi, out0);
      } else if plo < phi {
        RazeRange(world, prev, plo, phi);
        out := out0;
        AppliedNothing(world.Snapshot(), Built(next, nlo, 0, world.next), each);
        ReplacePerformed(prev, plo, phi, next, nlo, nhi, s0, world.Snapshot(), world.Snapshot(), out0, out, each);
      } else {
        AppliedNothing<T, L>(s0, [], each);
        assert ChildrenAt(prev, Range(plo, phi)) == [];
        out := BuildRange(world, next, nlo, nhi, out0);
        ReplacePerformed(prev, plo, phi, next, nlo, nhi, s0, s0, world.Snapshot(), out0, out, each);
      }
    }

    /**
      The body of an update after registration, short of deciding what is retained: reconciles
      the retained records with the items of this run and shows the new nodes (or the fallback)
      under `anchor`.  Returns the new records and, as a ghost, the store between the two steps.
    */
    method Refresh(world: World<L>, anchor: NodeId, result: Option<seq<T>>, first: bool)
      returns (out: seq<ListItem<T>>, ghost mid: Store<L>)
      requires Valid(world) && world.Valid()
      modifies world`next, world`live, world`tag, world`children, world`despawned
      ensures world.Valid()
      ensures var items := Items(result);
        && Performs(Reconcile(state, 0, |state|, items, 0, |items|, cmp), state, items, 0,
                    old(world.Snapshot()), mid, [], out, each)
        && world.Snapshot() == Shown(mid, anchor, Nodes(out), |state|, first, fallback)
      ensures Distinct(Nodes(out)) && forall i :: 0 <= i < |out| ==> out[i].child in world.live
    {
      var items := Items(result);
      ghost var s0 := world.Snapshot();
      world.NodesBelowNext();
      var prevLen := |state|;
      ReconcilePartitions(state, 0, prevLen, items, 0, |items|, cmp);
      ReconcileIncreasing(state, 0, prevLen, items, 0, |items|, cmp);
      out := BuildRecursive(world, state, 0, prevLen, items, 0, |items|, []);
      mid := world.Snapshot();
      ghost var r := Reconcile(state, 0, prevLen, items, 0, |items|, cmp);
      PerformedNodes(r, state, items, s0, mid, out, each);
      if prevLen == 0 {
        FreshNodes(r, state, items, s0, mid, out, anchor, each);
      }
      Show(world, anchor, out, prevLen, first);
    }

    /**
      One update, as the repository writes it: the new records are moved out of the new list
      before it is stored, so the effect retains no records at all, whatever the items were.
    */
    method Update(world: World<L>, anchor: NodeId, result: Option<seq<T>>)
      returns (ghost out: seq<ListItem<T>>, ghost mid: Store<L>)
      requires Valid(world) && world.Valid()
      modifies this`itemsFn, this`itemSys, this`state
      modifies world`next, world`live, world`tag, world`children, world`despawned
      modifies world`nextSystem, world`systems
      ensures Valid(world) && world.Valid()
      ensures Registration(old(itemsFn), old(itemSys), old(world.nextSystem), old(world.systems),
                           itemsFn, itemSys, world.nextSystem, world.systems)
      ensures var items := Items(result);
        && Performs(Reconcile(old(state), 0, |old(state)|, items, 0, |items|, cmp), old(state), items, 0,
                    old(world.Snapshot()), mid, [], out, each)
        && world.Snapshot() == Shown(mid, anchor, Nodes(out), |old(state)|, old(itemsFn).Some?, fallback)
      ensures state == []
    {
      ghost var s0 := world.Snapshot();
      var first := Register(world);
      assert world.Snapshot() == s0;
      var records;
      records, mid := Refresh(world, anchor, result, first);
      out := records;
      state := records;
      var taken: seq<ListItem<T>> := [];
      if |records| > 0 {
        state := taken;
      }
    }

    /**
      One update that retains the new records, as the effect evidently intends: afterwards the
      retained records' nodes are exactly the anchor's children whenever the list is not empty.
    */
    method UpdateRetaining(world: World<L>, anchor: NodeId, result: Option<seq<T>>)
      returns (ghost mid: Store<L>)
      requires Valid(world) && world.Valid()
      modifies this`itemsFn, this`itemSys, this`state
      modifies world`next, world`live, world`tag, world`children, world`despawned
      modifies world`nextSystem, world`systems
      ensures Valid(world) && world.Valid()
      ensures Registration(old(itemsFn), old(itemSys), old(world.nextSystem), old(world.systems),
                           itemsFn, itemSys, world.nextSystem, world.systems)
      ensures var items := Items(result);
        && Performs(Reconcile(old(state), 0, |old(state)|, items, 0, |items|, cmp), old(state), items, 0,
                    old(world.Snapshot()), mid, [], state, each)
        && world.Snapshot() == Shown(mid, anchor, Nodes(state), |old(state)|, old(itemsFn).Some?, fallback)
      ensures |state| > 0 ==> world.Kids(anchor) == Nodes(state)
    {
      ghost var s0 := world.Snapshot();
      var first := Register(world);
      assert world.Snapshot() == s0;
      var records;
      records, mid := Refresh(world, anchor, result, first);
      state := records;
    }

    /** Queues the unregistering of the item system, when it was registered. */
    method Cleanup(world: World<L>)
      modifies world`commands
      ensures itemSys.Some? ==> world.commands == old(world.commands) + [itemSys.value]
      ensures itemSys.None? ==> world.commands == old(world.commands)
    {
      if itemSys.Some? {
        world.QueueUnregister(itemSys.value);
      }
    }

    /** Registers the item system on the first update; says whether this is the first update. */
    method Register(world: World<L>) returns (first: bool)
      requires world.Valid()
      modifies this`itemsFn, this`itemSys, world`nextSystem, world`systems
      ensures world.Valid() && first == old(itemsFn).Some?
      ensures Registration(old(itemsFn), old(itemSys), old(world.nextSystem), old(world.systems),
                           itemsFn, itemSys, world.nextSystem, world.systems)
    {
      first := false;
      if itemsFn.Some? {
        var id := world.RegisterSystem();
        itemSys := Some(id);
        itemsFn := None;
        first := true;
      }
    }

    /**
      Shows the new records' nodes under `anchor` in order, clearing what was shown before when
      the previous list was empty; or, for an empty list, replaces what is shown with the
      fallback when the list just became empty or this is the first update.
    */
    method Show(world: World<L>, anchor: NodeId, out: seq<ListItem<T>>, prevLen: nat, first: bool)
      requires world.Valid()
      requires Distinct(Nodes(out)) && forall i :: 0 <= i < |out| ==> out[i].child in world.live
      requires prevLen == 0 ==> forall i :: 0 <= i < |out| ==> out[i].child !in world.Kids(anchor)
      modifies world`next, world`live, world`tag, world`children, world`despawned
      ensures world.Valid()
      ensures world.Snapshot() == Shown(old(world.Snapshot()), anchor, Nodes(out), prevLen, first, fallback)
      ensures forall i :: 0 <= i < |out| ==> out[i].child in world.live
    {
      var children := Nodes(out);
      if |out| == 0 {
        if prevLen > 0 || first {
          world.DespawnDescendants(anchor);
          world.Create(anchor, fallback);
        }
      } else {
        if prevLen == 0 {
          world.DespawnDescendants(anchor);
        }
        world.ReplaceChildren(anchor, children);
      }
    }
  }

  /**
    With no previous records every new record has a fresh node, so none of them is among the
    anchor's children, which were already there before reconciling.
  */
  lemma FreshNodes<T, L>(r: Reconciliation, prev: seq<ListItem<T>>, next: seq<T>,
                         s0: Store<L>, s1: Store<L>, out: seq<ListItem<T>>, anchor: NodeId, each: T -> L)
    requires prev == []
    requires Performs(r, prev, next, 0, s0, s1, [], out, each)
    requires forall a, x :: a in s0.children && x in s0.children[a] ==> x < s0.next
    ensures forall i :: 0 <= i < |out| ==> out[i].child !in KidsOf(s1, anchor)
  {
    RealizeChildren(r.plan, prev, next, 0, s0.next, 0);
    assert out == Realize(r.plan, prev, next, 0, s0.next);
    forall i | 0 <= i < |out| ensures out[i].child !in KidsOf(s1, anchor) {
      assert out[i] in out;
    }
  }

  /**
    Reconciling no retained records builds a fresh node for every item, in order, despawns
    nothing, and leaves the child lists and the older tags as they were.
  */
  lemma PerformedFromEmpty<T, L>(next: seq<T>, s0: Store<L>, mid: Store<L>, out: seq<ListItem<T>>, each: T -> L)
    requires Performs(Replace(0, 0, 0, |next|), [], next, 0, s0, mid, [], out, each)
    ensures out == Built(next, 0, |next|, s0.next)
    ensures mid.next == s0.next + |next| && mid.despawned == s0.despawned && mid.children == s0.children
    ensures forall n :: n in s0.tag ==> n in mid.tag && mid.tag[n] == s0.tag[n]
    ensures forall x :: s0.next <= x < s0.next + |next| ==> x in mid.tag && mid.tag[x] == each(next[x - s0.next])
  {
    PerformedReplace<T, L>([], next, s0, mid, out, each);
    assert ChildrenAt<T>([], Range(0, 0)) == [];
    var recs := Realize(CreatedRun(|next|), [], next, 0, s0.next);
    AppliedKeepsChildren(s0, mid, CountCreated(CreatedRun(|next|)), recs, each);
    assert recs == Built(next, 0, |next|, s0.next);
    AppliedBuiltTags(s0, mid, [], CountCreated(CreatedRun(|next|)), next, each);
  }

  /** With no retained records the reconciliation builds every item afresh. */
  lemma PlanFromEmpty<T, L>(next: seq<T>, cmp: (T, T) -> bool, s0: Store<L>, mid: Store<L>,
                            out: seq<ListItem<T>>, each: T -> L)
    requires Performs(Reconcile([], 0, 0, next, 0, |next|, cmp), [], next, 0, s0, mid, [], out, each)
    ensures Performs(Replace(0, 0, 0, |next|), [], next, 0, s0, mid, [], out, each)
  {
    ReconcileFromNothing<T>([], next, cmp);
  }

  /** An update that starts with no retained records shows exactly the fresh nodes of its items. */
  lemma ShownFromEmpty<T, L>(next: seq<T>, s0: Store<L>, mid: Store<L>, s2: Store<L>,
                             out: seq<ListItem<T>>, anchor: NodeId, first: bool,
                             fallback: Factory<L>, each: T -> L)
    requires |next| > 0
    requires Performs(Replace(0, 0, 0, |next|), [], next, 0, s0, mid, [], out, each)
    requires s2 == Shown(mid, anchor, Nodes(out), 0, first, fallback)
    ensures out == Built(next, 0, |next|, s0.next)
    ensures KidsOf(s2, anchor) == Interval(s0.next, |next|) && s2.next == s0.next + |next|
    ensures forall x :: s0.next <= x < s0.next + |next| ==> x in s2.tag && s2.tag[x] == each(next[x - s0.next])
  {
    PerformedFromEmpty(next, s0, mid, out, each);
    assert Nodes(out) == Interval(s0.next, |next|);
  }

  /** The first update with no items and no retained records shows the fallback. */
  lemma FallbackOnFirst<T, L>(next: seq<T>, s0: Store<L>, mid: Store<L>, s2: Store<L>,
                              out: seq<ListItem<T>>, anchor: NodeId, fallback: Factory<L>, each: T -> L)
    requires next == []
    requires Performs(Replace(0, 0, 0, |next|), [], next, 0, s0, mid, [], out, each)
    requires s2 == Shown(mid, anchor, Nodes(out), 0, true, fallback)
    ensures out == []
    ensures KidsOf(s2, anchor) == Interval(s0.next, fallback.width)
    ensures forall x :: x in KidsOf(s2, anchor) ==> x in s2.tag && s2.tag[x] == fallback.tag
  {
    PerformedFromEmpty(next, s0, mid, out, each);
  }

  /**
    A later update with no items and no retained records changes nothing the anchor shows: its
    children and every older tag stay as they were.
  */
  lemma NothingShown<T, L>(next: seq<T>, s0: Store<L>, mid: Store<L>, s2: Store<L>,
                           out: seq<ListItem<T>>, anchor: NodeId, fallback: Factory<L>, each: T -> L)
    requires next == []
    requires Performs(Replace(0, 0, 0, |next|), [], next, 0, s0, mid, [], out, each)
    requires s2 == Shown(mid, anchor, Nodes(out), 0, false, fallback)
    ensures out == []
    ensures KidsOf(s2, anchor) == KidsOf(s0, anchor)
    ensures forall n :: n in s0.tag ==> n in s2.tag && s2.tag[n] == s0.tag[n]
  {
    PerformedFromEmpty(next, s0, mid, out, each);
  }

  /**
    An update whose list just became empty despawns every retained node and shows a fresh copy
    of the fallback.
  */
  lemma ShownToEmpty<T, L>(prev: seq<ListItem<T>>, next: seq<T>, s0: Store<L>, mid: Store<L>,
                           s2: Store<L>, out: seq<ListItem<T>>, anchor: NodeId, first: bool,
                           fallback: Factory<L>, each: T -> L)
    requires |prev| > 0 && next == []
    requires Performs(Replace(0, |prev|, 0, 0), prev, next, 0, s0, mid, [], out, each)
    requires s2 == Shown(mid, anchor, Nodes(out), |prev|, first, fallback)
    ensures out == [] && mid.despawned == s0.despawned + Nodes(prev)
    ensures KidsOf(s2, anchor) == Interval(s0.next, fallback.width)
    ensures forall x :: x in KidsOf(s2, anchor) ==> x in s2.tag && s2.tag[x] == fallback.tag
  {
    PerformedReplace<T, L>(prev, next, s0, mid, out, each);
  }

  /** With no items the reconciliation razes every retained record. */
  lemma PlanToEmpty<T, L>(prev: seq<ListItem<T>>, next: seq<T>, cmp: (T, T) -> bool, s0: Store<L>,
                          mid: Store<L>, out: seq<ListItem<T>>, each: T -> L)
    requires next == []
    requires Performs(Reconcile(prev, 0, |prev|, next, 0, |next|, cmp), prev, next, 0, s0, mid, [], out, each)
    ensures Performs(Replace(0, |prev|, 0, 0), prev, next, 0, s0, mid, [], out, each)
  {
    ReconcileToNothing<T>(prev, next, cmp);
  }

  /**
    As written: a one-item list, then an empty list.  The second update finds no retained
    records, so it neither despawns the item's node nor shows the fallback: the anchor still
    shows the node built for the item.
  */
  method EmptiedAsWritten(item: int) returns (shown: seq<NodeId>, tags: seq<int>)
    ensures shown == [1] && tags == [item]
  {
    var world := new World<int>();
    var anchor := world.Spawn(0);
    var e := Each<int, int, int>(0, (x: int) => x, Factory(-1, 1));
    ghost var s0 := world.Snapshot();
    var out1, mid1 := e.Update(world, anchor, Some([item]));
    ghost var s1 := world.Snapshot();
    var out2, mid2 := e.Update(world, anchor, Some([]));
    PlanFromEmpty([item], e.cmp, s0, mid1, out1, e.each);
    PlanFromEmpty([], e.cmp, s1, mid2, out2, e.each);
    AsWrittenStores([item], [], s0, mid1, out1, s1, mid2, out2, world.Snapshot(), anchor, e.cmp, e.each, e.fallback);
    shown := world.Kids(anchor);
    tags := [world.tag[1]];
  }

  /** The stores of the two updates of `EmptiedAsWritten`, from a store whose next id is 1. */
  lemma AsWrittenStores(items1: seq<int>, items2: seq<int>, s0: Store<int>, mid1: Store<int>,
                        out1: seq<ListItem<int>>, s1: Store<int>, mid2: Store<int>, out2: seq<ListItem<int>>,
                        s2: Store<int>, anchor: NodeId, cmp: (int, int) -> bool, each: int -> int,
                        fallback: Factory<int>)
    requires |items1| == 1 && items2 == [] && s0.next == 1 && each(items1[0]) == items1[0]
    requires Performs(Replace(0, 0, 0, |items1|), [], items1, 0, s0, mid1, [], out1, each)
    requires s1 == Shown(mid1, anchor, Nodes(out1), 0, true, fallback)
    requires Performs(Replace(0, 0, 0, |items2|), [], items2, 0, s1, mid2, [], out2, each)
    requires s2 == Shown(mid2, anchor, Nodes(out2), 0, false, fallback)
    ensures KidsOf(s2, anchor) == [1] && 1 in s2.tag && s2.tag[1] == items1[0]
  {
    ShownFromEmpty(items1, s0, mid1, s1, out1, anchor, true, fallback, each);
    NothingShown(items2, s1, mid2, s2, out2, anchor, fallback, each);
    assert Interval(s0.next, |items1|) == [1];
  }

  /**
    Retaining the records, the same two updates despawn the item's node and show the fallback:
    one fresh node, tagged with the fallback's content.
  */
  method EmptiedRetaining(item: int) returns (shown: seq<NodeId>, tags: seq<int>)
    ensures shown == [2] && tags == [-1]
  {
    var world := new World<int>();
    var anchor := world.Spawn(0);
    var e := Each<int, int, int>(0, (x: int) => x, Factory(-1, 1));
    RetainItem(world, anchor, e, item);
    RetainNothing(world, anchor, e);
    shown := world.Kids(anchor);
    tags := [world.tag[2]];
  }

  /** The first update of `EmptiedRetaining`, from a store whose next id is 1. */
  method RetainItem(world: World<int>, anchor: NodeId, e: ForEachEffect<int, int, int>, item: int)
    requires world.Valid() && e.Valid(world) && world.next == 1
    requires e.itemsFn.Some? && e.state == []
    modifies e`itemsFn, e`itemSys, e`state
    modifies world`next, world`live, world`tag, world`children, world`despawned
    modifies world`nextSystem, world`systems
    ensures world.Valid() && e.Valid(world) && world.next == 2
    ensures e.itemsFn.None? && |e.state| == 1
  {
    ghost var s0 := world.Snapshot();
    var mid := e.UpdateRetaining(world, anchor, Some([item]));
    PlanFromEmpty([item], e.cmp, s0, mid, e.state, e.each);
    RetainingFirst([item], s0, mid, e.state, world.Snapshot(), anchor, e.fallback, e.each);
  }

  /** The second update of `EmptiedRetaining`: an empty list after one retained record. */
  method RetainNothing(world: World<int>, anchor: NodeId, e: ForEachEffect<int, int, int>)
    requires world.Valid() && e.Valid(world) && world.next == 2
    requires e.itemsFn.None? && |e.state| == 1 && e.fallback == Factory(-1, 1)
    modifies e`itemsFn, e`itemSys, e`state
    modifies world`next, world`live, world`tag, world`children, world`despawned
    modifies world`nextSystem, world`systems
    ensures world.Kids(anchor) == [2] && 2 in world.tag && world.tag[2] == -1
  {
    ghost var s1 := world.Snapshot();
    ghost var prev := e.state;
    var mid := e.UpdateRetaining(world, anchor, Some([]));
    PlanToEmpty(prev, [], e.cmp, s1, mid, e.state, e.each);
    RetainingSecond(prev, [], s1, mid, e.state, world.Snapshot(), anchor, e.fallback, e.each);
  }

  /** The first update of `EmptiedRetaining`: one fresh node, numbered 1, for the item. */
  lemma RetainingFirst(items1: seq<int>, s0: Store<int>, mid1: Store<int>, out1: seq<ListItem<int>>,
                       s1: Store<int>, anchor: NodeId, fallback: Factory<int>, each: int -> int)
    requires |items1| == 1 && s0.next == 1
    requires Performs(Replace(0, 0, 0, |items1|), [], items1, 0, s0, mid1, [], out1, each)
    requires s1 == Shown(mid1, anchor, Nodes(out1), 0, true, fallback)
    ensures out1 == [ListItem(1, items1[0])] && s1.next == 2
  {
    ShownFromEmpty(items1, s0, mid1, s1, out1, anchor, true, fallback, each);
  }

  /** The second update of `EmptiedRetaining`: the fallback's one node, numbered 2, is shown. */
  lemma RetainingSecond(out1: seq<ListItem<int>>, items2: seq<int>, s1: Store<int>, mid2: Store<int>,
                        out2: seq<ListItem<int>>, s2: Store<int>, anchor: NodeId, fallback: Factory<int>,
                        each: int -> int)
    requires |out1| == 1 && items2 == [] && s1.next == 2 && fallback == Factory(-1, 1)
    requires Performs(Replace(0, |out1|, 0, 0), out1, items2, 0, s1, mid2, [], out2, each)
    requires s2 == Shown(mid2, anchor, Nodes(out2), |out1|, false, fallback)
    ensures KidsOf(s2, anchor) == [2] && 2 in s2.tag && s2.tag[2] == -1
  {
    ShownToEmpty(out1, items2, s1, mid2, s2, out2, anchor, false, fallback, each);
    assert Interval(s1.next, 1) == [2];
  }
}
