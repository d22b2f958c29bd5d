/**
  How the list reconciler changes the node store: which nodes it despawns, how many it spawns,
  and which tags the spawned item nodes carry.
*/
module ListStore {
  import opened World
  import opened Matcher
  import opened Reconciler

  /** The nodes of the records at the previous indices `ks`, in the same order. */
  function ChildrenAt<T>(prev: seq<ListItem<T>>, ks: seq<nat>): (ids: seq<NodeId>)
    requires forall i :: 0 <= i < |ks| ==> ks[i] < |prev|
    ensures |ids| == |ks| && forall i :: 0 <= i < |ks| ==> ids[i] == prev[ks[i]].child
  {
    seq(|ks|, i requires 0 <= i < |ks| => prev[ks[i]].child)
  }

  ghost predicate ChildrenLive<T>(prev: seq<ListItem<T>>, lo: nat, hi: nat, live: set<NodeId>)
    requires lo <= hi <= |prev|
  {
    forall k :: lo <= k < hi ==> prev[k].child in live
  }

  ghost predicate ChildrenDistinct<T>(prev: seq<ListItem<T>>, lo: nat, hi: nat)
    requires lo <= hi <= |prev|
  {
    forall i, j :: lo <= i < j < hi ==> prev[i].child != prev[j].child
  }

  /**
    The store `s1` is `s0` after despawning the nodes `gone` (in that order) and spawning
    `created` fresh nodes; every record of `recs` whose node is new carries the tag `each`
    gives its item, and no older node changes its tag.
  */
  ghost predicate Applied<T, L>(s0: Store<L>, s1: Store<L>, gone: seq<NodeId>, created: nat,
                                recs: seq<ListItem<T>>, each: T -> L) {
    && s1.next == s0.next + created
    && s1.despawned == s0.despawned + gone
    && s1.live == (s0.live - Elems(gone)) + NodeRange(s0.next, s1.next)
    && s1.children == WithoutAll(s0.children, Elems(gone))
    && (forall n :: n in s0.tag ==> n in s1.tag && s1.tag[n] == s0.tag[n])
    && (forall r :: r in recs && s0.next <= r.child ==> r.child in s1.tag && s1.tag[r.child] == each(r.item))
  }

  lemma ElemsAppend(a: seq<NodeId>, b: seq<NodeId>)
    ensures Elems(a + b) == Elems(a) + Elems(b)
  {
  }

  lemma ChildrenAtAppend<T>(prev: seq<ListItem<T>>, a: seq<nat>, b: seq<nat>)
    requires forall i :: 0 <= i < |a| ==> a[i] < |prev|
    requires forall i :: 0 <= i < |b| ==> b[i] < |prev|
    ensures forall i :: 0 <= i < |a + b| ==> (a + b)[i] < |prev|
    ensures ChildrenAt(prev, a + b) == ChildrenAt(prev, a) + ChildrenAt(prev, b)
  {
    assert forall i :: 0 <= i < |b| ==> (a + b)[|a| + i] == b[i];
    assert forall i :: 0 <= i < |a| ==> (a + b)[i] == a[i];
  }

  lemma AppliedNothing<T, L>(s: Store<L>, recs: seq<ListItem<T>>, each: T -> L)
    requires forall r :: r in recs ==> r.child < s.next
    ensures Applied(s, s, [], 0, recs, each)
  {
    assert Elems([]) == {};
    forall a | a in s.children ensures WithoutAll(s.children, {})[a] == s.children[a] {
      WithoutNothing(s.children[a]);
    }
    assert WithoutAll(s.children, {}) == s.children;
  }

  /** A change that despawns nothing leaves every child list and the removal log as they were. */
  lemma AppliedKeepsChildren<T, L>(s0: Store<L>, s1: Store<L>, c: nat, recs: seq<ListItem<T>>, each: T -> L)
    requires Applied(s0, s1, [], c, recs, each)
    ensures s1.children == s0.children && s1.despawned == s0.despawned
  {
    assert Elems([]) == {};
    forall a | a in s0.children ensures WithoutAll(s0.children, {})[a] == s0.children[a] {
      WithoutNothing(s0.children[a]);
    }
    assert WithoutAll(s0.children, {}) == s0.children;
  }

  /** A change that builds the records for `next` from the next free id on tags their nodes with their items. */
  lemma AppliedBuiltTags<T, L>(s0: Store<L>, s1: Store<L>, gone: seq<NodeId>, c: nat, next: seq<T>, each: T -> L)
    requires Applied(s0, s1, gone, c, Built(next, 0, |next|, s0.next), each)
    ensures forall x :: s0.next <= x < s0.next + |next| ==> x in s1.tag && s1.tag[x] == each(next[x - s0.next])
  {
    var recs := Built(next, 0, |next|, s0.next);
    forall x | s0.next <= x < s0.next + |next| ensures x in s1.tag && s1.tag[x] == each(next[x - s0.next]) {
      assert recs[x - s0.next] in recs;
    }
  }

  /** Two changes in a row are one change; nodes despawned second are older than the first's. */
  lemma AppliedThen<T, L>(s0: Store<L>, s1: Store<L>, s2: Store<L>,
                          g1: seq<NodeId>, c1: nat, r1: seq<ListItem<T>>,
                          g2: seq<NodeId>, c2: nat, r2: seq<ListItem<T>>, each: T -> L)
    requires Applied(s0, s1, g1, c1, r1, each) && Applied(s1, s2, g2, c2, r2, each)
    requires forall x :: x in g2 ==> x < s0.next
    requires forall r :: r in r2 ==> r.child < s0.next || s1.next <= r.child
    ensures Applied(s0, s2, g1 + g2, c1 + c2, r1 + r2, each)
  {
    ElemsAppend(g1, g2);
    WithoutAllTwice(s0.children, Elems(g1), Elems(g2));
    assert s2.live == (s0.live - Elems(g1 + g2)) + NodeRange(s0.next, s2.next);
  }

  /**
    Reconciling `r` turned the records `out0` into `out` and the store `s0` into `s1`: the records
    of `Realize` were appended, the nodes of the razed records despawned in order, and one fresh
    node spawned for every built record.
  */
  ghost predicate Performs<T, L>(r: Reconciliation, prev: seq<ListItem<T>>, next: seq<T>, nlo: nat,
                                 s0: Store<L>, s1: Store<L>,
                                 out0: seq<ListItem<T>>, out: seq<ListItem<T>>, each: T -> L) {
    && Realizable(r.plan, prev, next, nlo)
    && (forall i :: 0 <= i < |r.razed| ==> r.razed[i] < |prev|)
    && out == out0 + Realize(r.plan, prev, next, nlo, s0.next)
    && Applied(s0, s1, ChildrenAt(prev, r.razed), CountCreated(r.plan),
               Realize(r.plan, prev, next, nlo, s0.next), each)
  }

  /** `Performs` for one reconciliation holds for any equal one. */
  lemma PerformsSame<T, L>(r: Reconciliation, r': Reconciliation, prev: seq<ListItem<T>>, next: seq<T>, nlo: nat,
                           s0: Store<L>, s1: Store<L>, out0: seq<ListItem<T>>, out: seq<ListItem<T>>, each: T -> L)
    requires r == r' && Performs(r', prev, next, nlo, s0, s1, out0, out, each)
    ensures Performs(r, prev, next, nlo, s0, s1, out0, out, each)
  {
  }

  /** Carried records keep old nodes (below `bound`); every other record has a node from `base` on. */
  lemma {:induction false} RealizeChildren<T>(plan: seq<Source>, prev: seq<ListItem<T>>, next: seq<T>,
                                              nlo: nat, base: NodeId, bound: NodeId)
    requires Realizable(plan, prev, next, nlo)
    requires forall j :: 0 <= j < |plan| && plan[j].Reused? ==> prev[plan[j].index].child < bound
    ensures forall r :: r in Realize(plan, prev, next, nlo, base) ==> r.child < bound || base <= r.child
  {
    var out := Realize(plan, prev, next, nlo, base);
    forall r | r in out ensures r.child < bound || base <= r.child {
      var j :| 0 <= j < |out| && out[j] == r;
      RealizeAt(plan, prev, next, nlo, base, j);
    }
  }

  /** Razing `prev[plo..phi]` and then building `next[nlo..nhi]` performs `Replace`. */
  lemma ReplacePerformed<T, L>(prev: seq<ListItem<T>>, plo: nat, phi: nat, next: seq<T>, nlo: nat, nhi: nat,
                               s0: Store<L>, s1: Store<L>, s2: Store<L>,
                               out0: seq<ListItem<T>>, out: seq<ListItem<T>>, each: T -> L)
    requires plo <= phi <= |prev| && nlo <= nhi <= |next|
    requires Applied(s0, s1, ChildrenAt(prev, Range(plo, phi)), 0, [], each)
    requires Applied(s1, s2, [], nhi - nlo, Built(next, nlo, nhi - nlo, s1.next), each)
    requires out == out0 + Built(next, nlo, nhi - nlo, s1.next)
    ensures Performs(Replace(plo, phi, nlo, nhi), prev, next, nlo, s0, s2, out0, out, each)
  {
    var gone := ChildrenAt(prev, Range(plo, phi));
    var n := nhi - nlo;
    var built := Built(next, nlo, n, s1.next);
    RealizeCreatedRun(prev, next, nlo, n, s0.next);
    assert Applied(s0, s2, gone, n, built, each) by {
      assert forall r :: r in built ==> s1.next <= r.child by {
        forall r | r in built ensures s1.next <= r.child {
          var i :| 0 <= i < |built| && built[i] == r;
        }
      }
      AppliedThen(s0, s1, s2, gone, 0, [], [], n, built, each);
      assert gone + [] == gone;
      assert [] + built == built;
    }
  }

  /** A reconciled part, a carried run and another reconciled part, one after the other. */
  lemma JoinPerformed<T, L>(pre: Reconciliation, suf: Reconciliation, prev: seq<ListItem<T>>,
                            plo: nat, ps: nat, pe: nat, phi: nat,
                            next: seq<T>, nlo: nat, ns: nat, ne: nat, nhi: nat,
                            s0: Store<L>, s1: Store<L>, s2: Store<L>,
                            out0: seq<ListItem<T>>, out1: seq<ListItem<T>>, out2: seq<ListItem<T>>,
                            out3: seq<ListItem<T>>, each: T -> L)
    requires plo <= ps <= pe <= phi <= |prev| && nlo <= ns <= ne <= nhi <= |next| && pe - ps == ne - ns
    requires WithinRanges(pre, plo, ps, nlo, ns) && WithinRanges(suf, pe, phi, ne, nhi)
    requires forall k :: plo <= k < phi ==> prev[k].child < s0.next
    requires Performs(pre, prev, next, nlo, s0, s1, out0, out1, each)
    requires out2 == out1 + prev[ps..pe]
    requires Performs(suf, prev, next, ne, s1, s2, out2, out3, each)
    ensures Performs(Join(pre, ps, pe - ps, suf), prev, next, nlo, s0, s2, out0, out3, each)
  {
    JoinApplied(pre, suf, prev, plo, ps, pe, phi, next, nlo, ns, ne, nhi, s0, s1, s2, each);
    JoinOut(pre, suf, prev, plo, ps, pe, phi, next, nlo, ns, ne, nhi, s0.next, out0, out1, out2, out3);
  }

  /** The records half of `JoinPerformed`. */
  lemma JoinOut<T>(pre: Reconciliation, suf: Reconciliation, prev: seq<ListItem<T>>,
                   plo: nat, ps: nat, pe: nat, phi: nat,
                   next: seq<T>, nlo: nat, ns: nat, ne: nat, nhi: nat, base: NodeId,
                   out0: seq<ListItem<T>>, out1: seq<ListItem<T>>, out2: seq<ListItem<T>>,
                   out3: seq<ListItem<T>>)
    requires plo <= ps <= pe <= phi <= |prev| && nlo <= ns <= ne <= nhi <= |next| && pe - ps == ne - ns
    requires WithinRanges(pre, plo, ps, nlo, ns) && WithinRanges(suf, pe, phi, ne, nhi)
    requires Realizable(pre.plan, prev, next, nlo) && Realizable(suf.plan, prev, next, ne)
    requires out1 == out0 + Realize(pre.plan, prev, next, nlo, base)
    requires out2 == out1 + prev[ps..pe]
    requires out3 == out2 + Realize(suf.plan, prev, next, ne, base + CountCreated(pre.plan))
    ensures Realizable(Join(pre, ps, pe - ps, suf).plan, prev, next, nlo)
    ensures out3 == out0 + Realize(Join(pre, ps, pe - ps, suf).plan, prev, next, nlo, base)
  {
    JoinRealize(pre, suf, prev, plo, ps, pe, phi, next, nlo, ns, ne, nhi, base);
  }

  /** The store half of `JoinPerformed`. */
  lemma JoinApplied<T, L>(pre: Reconciliation, suf: Reconciliation, prev: seq<ListItem<T>>,
                          plo: nat, ps: nat, pe: nat, phi: nat,
                          next: seq<T>, nlo: nat, ns: nat, ne: nat, nhi: nat,
                          s0: Store<L>, s1: Store<L>, s2: Store<L>, each: T -> L)
    requires plo <= ps <= pe <= phi <= |prev| && nlo <= ns <= ne <= nhi <= |next| && pe - ps == ne - ns
    requires WithinRanges(pre, plo, ps, nlo, ns) && WithinRanges(suf, pe, phi, ne, nhi)
    requires forall k :: plo <= k < phi ==> prev[k].child < s0.next
    requires Realizable(pre.plan, prev, next, nlo) && Realizable(suf.plan, prev, next, ne)
    requires Applied(s0, s1, ChildrenAt(prev, pre.razed), CountCreated(pre.plan),
                     Realize(pre.plan, prev, next, nlo, s0.next), each)
    requires Applied(s1, s2, ChildrenAt(prev, suf.razed), CountCreated(suf.plan),
                     Realize(suf.plan, prev, next, ne, s1.next), each)
    ensures var r := Join(pre, ps, pe - ps, suf);
      && Realizable(r.plan, prev, next, nlo)
      && (forall i :: 0 <= i < |r.razed| ==> r.razed[i] < |prev|)
      && Applied(s0, s2, ChildrenAt(prev, r.razed), CountCreated(r.plan),
                 Realize(r.plan, prev, next, nlo, s0.next), each)
  {
    var r := Join(pre, ps, pe - ps, suf);
    JoinFacts(pre, suf, prev, plo, ps, pe, phi, next, nlo, ns, ne, nhi, s0.next, s1.next);
    AppliedAround(s0, s1, s2, ChildrenAt(prev, pre.razed), CountCreated(pre.plan),
                  Realize(pre.plan, prev, next, nlo, s0.next), prev[ps..pe],
                  ChildrenAt(prev, suf.razed), CountCreated(suf.plan), Realize(suf.plan, prev, next, ne, s1.next),
                  ChildrenAt(prev, r.razed), CountCreated(r.plan), Realize(r.plan, prev, next, nlo, s0.next), each);
  }

  /** What `JoinApplied` needs about the joined plan, with node ids `b0` before and `b1` after the prefix. */
  lemma JoinFacts<T>(pre: Reconciliation, suf: Reconciliation, prev: seq<ListItem<T>>,
                     plo: nat, ps: nat, pe: nat, phi: nat,
                     next: seq<T>, nlo: nat, ns: nat, ne: nat, nhi: nat, b0: NodeId, b1: NodeId)
    requires plo <= ps <= pe <= phi <= |prev| && nlo <= ns <= ne <= nhi <= |next| && pe - ps == ne - ns
    requires WithinRanges(pre, plo, ps, nlo, ns) && WithinRanges(suf, pe, phi, ne, nhi)
    requires forall k :: plo <= k < phi ==> prev[k].child < b0
    requires Realizable(pre.plan, prev, next, nlo) && Realizable(suf.plan, prev, next, ne)
    requires b1 == b0 + CountCreated(pre.plan)
    ensures var r := Join(pre, ps, pe - ps, suf);
      && Realizable(r.plan, prev, next, nlo)
      && (forall i :: 0 <= i < |r.razed| ==> r.razed[i] < |prev|)
      && (forall x :: x in ChildrenAt(prev, suf.razed) ==> x < b0)
      && (forall x :: x in prev[ps..pe] ==> x.child < b0)
      && (forall x :: x in Realize(suf.plan, prev, next, ne, b1) ==> x.child < b0 || b1 <= x.child)
      && ChildrenAt(prev, r.razed) == ChildrenAt(prev, pre.razed) + ChildrenAt(prev, suf.razed)
      && CountCreated(r.plan) == CountCreated(pre.plan) + CountCreated(suf.plan)
      && Realize(r.plan, prev, next, nlo, b0) ==
         Realize(pre.plan, prev, next, nlo, b0) + prev[ps..pe] + Realize(suf.plan, prev, next, ne, b1)
  {
    JoinRealize(pre, suf, prev, plo, ps, pe, phi, next, nlo, ns, ne, nhi, b0);
    ChildrenAtAppend(prev, pre.razed, suf.razed);
    RealizeChildren(suf.plan, prev, next, ne, b1, b0);
    assert forall x :: x in prev[ps..pe] ==> x.child < b0 by {
      forall x | x in prev[ps..pe] ensures x.child < b0 {
        var i :| 0 <= i < pe - ps && prev[ps..pe][i] == x;
        assert x == prev[ps + i];
      }
    }
  }

  /** A change, then records that keep old nodes, then a second change, are one change. */
  lemma AppliedAround<T, L>(s0: Store<L>, s1: Store<L>, s2: Store<L>,
                            g1: seq<NodeId>, c1: nat, r1: seq<ListItem<T>>, kept: seq<ListItem<T>>,
                            g2: seq<NodeId>, c2: nat, r2: seq<ListItem<T>>,
                            g: seq<NodeId>, c: nat, recs: seq<ListItem<T>>, each: T -> L)
    requires Applied(s0, s1, g1, c1, r1, each) && Applied(s1, s2, g2, c2, r2, each)
    requires forall r :: r in kept ==> r.child < s0.next
    requires forall x :: x in g2 ==> x < s0.next
    requires forall r :: r in r2 ==> r.child < s0.next || s1.next <= r.child
    requires g == g1 + g2 && c == c1 + c2 && recs == r1 + kept + r2
    ensures Applied(s0, s2, g, c, recs, each)
  {
    AppliedNothing(s1, kept, each);
    AppliedThen(s0, s1, s1, g1, c1, r1, [], 0, kept, each);
    assert g1 + [] == g1;
    AppliedThen(s0, s1, s2, g1, c1, r1 + kept, g2, c2, r2, each);
  }

  /** One step of razing `prev[lo..hi]`: despawning the node of `prev[i]`. */
  lemma RazedOne<T, L>(prev: seq<ListItem<T>>, lo: nat, i: nat, hi: nat,
                       s0: Store<L>, s1: Store<L>, s2: Store<L>, each: T -> L)
    requires lo <= i < hi <= |prev|
    requires ChildrenDistinct(prev, lo, hi) && ChildrenLive(prev, i, hi, s1.live)
    requires Applied<T, L>(s0, s1, ChildrenAt(prev, Range(lo, i)), 0, [], each)
    requires prev[i].child < s0.next
    requires s2.next == s1.next && s2.tag == s1.tag && s2.live == s1.live - {prev[i].child}
    requires s2.children == WithoutAll(s1.children, {prev[i].child})
    requires s2.despawned == s1.despawned + [prev[i].child]
    ensures ChildrenLive(prev, i + 1, hi, s2.live)
    ensures Applied<T, L>(s0, s2, ChildrenAt(prev, Range(lo, i + 1)), 0, [], each)
  {
    AppliedDespawn<T, L>(s0, s1, s2, ChildrenAt(prev, Range(lo, i)), prev[i].child, each);
    assert ChildrenAt(prev, Range(lo, i + 1)) == ChildrenAt(prev, Range(lo, i)) + [prev[i].child];
  }

  /** Despawning one more old node extends a change that spawned nothing. */
  lemma AppliedDespawn<T, L>(s0: Store<L>, s1: Store<L>, s2: Store<L>, g: seq<NodeId>, n: NodeId, each: T -> L)
    requires Applied<T, L>(s0, s1, g, 0, [], each)
    requires n < s0.next
    requires s2.next == s1.next && s2.tag == s1.tag && s2.live == s1.live - {n}
    requires s2.children == WithoutAll(s1.children, {n}) && s2.despawned == s1.despawned + [n]
    ensures Applied<T, L>(s0, s2, g + [n], 0, [], each)
  {
    assert Elems([n]) == {n};
    assert Applied<T, L>(s1, s2, [n], 0, [], each);
    AppliedThen<T, L>(s0, s1, s2, g, 0, [], [n], 0, [], each);
  }

  /** Spawning one more node, tagged for item `x`, extends a change that despawned nothing. */
  lemma AppliedSpawn<T, L>(s0: Store<L>, s1: Store<L>, s2: Store<L>, k: nat, recs: seq<ListItem<T>>,
                           x: T, each: T -> L)
    requires Applied(s0, s1, [], k, recs, each)
    requires forall n :: n in s0.tag ==> n < s0.next
    requires forall r :: r in recs ==> r.child < s1.next
    requires s2.next == s1.next + 1 && s2.live == s1.live + {s1.next} && s2.tag == s1.tag[s1.next := each(x)]
    requires s2.children == s1.children && s2.despawned == s1.despawned
    ensures Applied(s0, s2, [], k + 1, recs + [ListItem(s1.next, x)], each)
  {
    assert NodeRange(s0.next, s2.next) == NodeRange(s0.next, s1.next) + {s1.next};
  }

  /** Spawning the node for `next[lo + k]` extends the change that built `next[lo..lo + k]` by one record. */
  lemma BuiltSpawn<T, L>(s0: Store<L>, s1: Store<L>, s2: Store<L>, next: seq<T>, lo: nat, k: nat, each: T -> L)
    requires lo + k < |next|
    requires Applied(s0, s1, [], k, Built(next, lo, k, s0.next), each)
    requires forall n :: n in s0.tag ==> n < s0.next
    requires s2.next == s1.next + 1 && s2.live == s1.live + {s1.next} && s2.tag == s1.tag[s1.next := each(next[lo + k])]
    requires s2.children == s1.children && s2.despawned == s1.despawned
    ensures Built(next, lo, k + 1, s0.next) == Built(next, lo, k, s0.next) + [ListItem(s1.next, next[lo + k])]
    ensures Applied(s0, s2, [], k + 1, Built(next, lo, k + 1, s0.next), each)
  {
    assert Built(next, lo, k + 1, s0.next) == Built(next, lo, k, s0.next) + [ListItem(s1.next, next[lo + k])];
    AppliedSpawn(s0, s1, s2, k, Built(next, lo, k, s0.next), next[lo + k], each);
  }

  /**
    Razing records from `prev[lo..mid]` leaves the nodes of `prev[mid..hi]` live, when all the
    nodes of `prev[lo..hi]` were live and distinct.
  */
  lemma LiveAfter<T, L>(prev: seq<ListItem<T>>, lo: nat, mid: nat, hi: nat, razed: seq<nat>,
                        s0: Store<L>, s1: Store<L>, created: nat, recs: seq<ListItem<T>>, each: T -> L)
    requires lo <= mid <= hi <= |prev|
    requires forall i :: 0 <= i < |razed| ==> lo <= razed[i] < mid
    requires ChildrenLive(prev, lo, hi, s0.live) && ChildrenDistinct(prev, lo, hi)
    requires Applied(s0, s1, ChildrenAt(prev, razed), created, recs, each)
    ensures ChildrenLive(prev, mid, hi, s1.live)
  {
    var gone := ChildrenAt(prev, razed);
    forall k | mid <= k < hi ensures prev[k].child in s1.live {
      assert forall i :: 0 <= i < |gone| ==> gone[i] == prev[razed[i]].child != prev[k].child;
    }
  }

  /**
    After a whole-list reconciliation the new records have distinct nodes, all live: a carried
    node was not razed, and base nodes are fresh and numbered in order.
  */
  lemma PerformedNodes<T, L>(r: Reconciliation, prev: seq<ListItem<T>>, next: seq<T>,
                             s0: Store<L>, s1: Store<L>, out: seq<ListItem<T>>, each: T -> L)
    requires Performs(r, prev, next, 0, s0, s1, [], out, each)
    requires Partitions(r, 0, |prev|) && Increasing(r.plan)
    requires ChildrenLive(prev, 0, |prev|, s0.live) && ChildrenDistinct(prev, 0, |prev|)
    requires forall k :: 0 <= k < |prev| ==> prev[k].child < s0.next
    ensures Distinct(Nodes(out))
    ensures forall i :: 0 <= i < |out| ==> out[i].child in s1.live
  {
    assert out == Realize(r.plan, prev, next, 0, s0.next);
    forall j | 0 <= j < |out| ensures out[j].child in s1.live {
      RealizedNodeLive(r, prev, next, s0, s1, each, j);
    }
    forall i, j | 0 <= i < j < |out| ensures out[i].child != out[j].child {
      RealizedNodesDiffer(r.plan, prev, next, s0.next, i, j);
    }
  }

  lemma RealizedNodeLive<T, L>(r: Reconciliation, prev: seq<ListItem<T>>, next: seq<T>,
                               s0: Store<L>, s1: Store<L>, each: T -> L, j: nat)
    requires Realizable(r.plan, prev, next, 0) && j < |r.plan|
    requires forall i :: 0 <= i < |r.razed| ==> r.razed[i] < |prev|
    requires Applied(s0, s1, ChildrenAt(prev, r.razed), CountCreated(r.plan),
                     Realize(r.plan, prev, next, 0, s0.next), each)
    requires Partitions(r, 0, |prev|)
    requires ChildrenLive(prev, 0, |prev|, s0.live) && ChildrenDistinct(prev, 0, |prev|)
    ensures Realize(r.plan, prev, next, 0, s0.next)[j].child in s1.live
  {
    RealizeAt(r.plan, prev, next, 0, s0.next, j);
    if r.plan[j].Reused? {
      var k := r.plan[j].index;
      assert Reused(k) in r.plan;
      assert k !in r.razed;
      var gone := ChildrenAt(prev, r.razed);
      assert forall i :: 0 <= i < |gone| ==> gone[i] == prev[r.razed[i]].child != prev[k].child;
      assert prev[k].child !in Elems(gone);
    } else {
      CountCreatedGrows(r.plan, j, |r.plan|);
      assert r.plan[..|r.plan|] == r.plan;
    }
  }

  lemma RealizedNodesDiffer<T>(plan: seq<Source>, prev: seq<ListItem<T>>, next: seq<T>, base: NodeId,
                               i: nat, j: nat)
    requires Realizable(plan, prev, next, 0) && i < j < |plan|
    requires Increasing(plan) && ChildrenDistinct(prev, 0, |prev|)
    requires forall k :: 0 <= k < |prev| ==> prev[k].child < base
    ensures Realize(plan, prev, next, 0, base)[i].child != Realize(plan, prev, next, 0, base)[j].child
  {
    RealizeAt(plan, prev, next, 0, base, i);
    RealizeAt(plan, prev, next, 0, base, j);
    if plan[i].Created? && plan[j].Created? {
      CountCreatedGrows(plan, i, j);
    }
  }

  /**
    Replacing a whole list despawns every previous node in list order and builds fresh records,
    with consecutive new nodes, for all next items.
  */
  lemma PerformedReplace<T, L>(prev: seq<ListItem<T>>, next: seq<T>, s0: Store<L>, s1: Store<L>,
                               out: seq<ListItem<T>>, each: T -> L)
    requires Performs(Replace(0, |prev|, 0, |next|), prev, next, 0, s0, s1, [], out, each)
    ensures out == Built(next, 0, |next|, s0.next)
    ensures s1.despawned == s0.despawned + Nodes(prev)
    ensures s1.next == s0.next + |next|
  {
    RealizeCreatedRun(prev, next, 0, |next|, s0.next);
    assert ChildrenAt(prev, Range(0, |prev|)) == Nodes(prev);
  }
}
