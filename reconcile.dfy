/**
  The list reconciler of the keyed-list effect, as a specification.

  `Reconcile` follows the recursion of `build_recursive` in src/foreach.rs over a previous range
  `prev[plo..phi]` and a next range `next[nlo..nhi]`, and records its decisions: for every next
  position whether the record is carried over from a previous index or built afresh (`plan`), and
  which previous indices are despawned, in the order they are despawned (`razed`).  `Realize`
  turns a plan into the records it produces, given the id the first fresh node will get.
*/
module Reconciler {
  import opened World
  import opened Matcher

  /** A retained list record: the node built for an item and the item it was built from. */
  datatype ListItem<T> = ListItem(child: NodeId, item: T)

  /** Where an output record comes from. */
  datatype Source = Reused(index: nat) | Created

  datatype Reconciliation = Reconciliation(plan: seq<Source>, razed: seq<nat>)

  function Range(lo: nat, hi: nat): (r: seq<nat>)
    requires lo <= hi
    ensures |r| == hi - lo && forall i :: 0 <= i < |r| ==> r[i] == lo + i
  {
    seq(hi - lo, i => lo + i)
  }

  /** A range of previous indices is the same sequence as the interval of node ids it spans. */
  lemma RangeIsInterval(lo: nat, hi: nat)
    requires lo <= hi
    ensures Range(lo, hi) == Interval(lo, hi - lo)
  {
  }

  function CreatedRun(n: nat): (r: seq<Source>)
    ensures |r| == n && forall i :: 0 <= i < n ==> r[i] == Created
  {
    seq(n, _ => Created)
  }

  function ReusedRun(lo: nat, n: nat): (r: seq<Source>)
    ensures |r| == n && forall i :: 0 <= i < n ==> r[i] == Reused(lo + i)
  {
    seq(n, i requires 0 <= i < n => Reused(lo + i))
  }

  /** The comparison handed to the matcher: `cmp` on a previous record's item and a next item. */
  function ItemCmp<T>(cmp: (T, T) -> bool): (ListItem<T>, T) -> bool {
    (p: ListItem<T>, n: T) => cmp(p.item, n)
  }

  /** Raze every previous record of the range and build every next item of it. */
  function Replace(plo: nat, phi: nat, nlo: nat, nhi: nat): Reconciliation
    requires plo <= phi && nlo <= nhi
  {
    Reconciliation(CreatedRun(nhi - nlo), Range(plo, phi))
  }

  /** One decision per next position, and every index mentioned lies in its range. */
  ghost predicate WithinRanges(r: Reconciliation, plo: nat, phi: nat, nlo: nat, nhi: nat) {
    && |r.plan| == nhi - nlo
    && (forall j :: 0 <= j < |r.plan| && r.plan[j].Reused? ==> plo <= r.plan[j].index < phi)
    && (forall i :: 0 <= i < |r.razed| ==> plo <= r.razed[i] < phi)
  }

  ghost function Reconcile<T>(prev: seq<ListItem<T>>, plo: nat, phi: nat,
                              next: seq<T>, nlo: nat, nhi: nat,
                              cmp: (T, T) -> bool): (r: Reconciliation)
    requires plo <= phi <= |prev| && nlo <= nhi <= |next|
    ensures WithinRanges(r, plo, phi, nlo, nhi)
    decreases (phi - plo) + (nhi - nlo), 1
  {
    var m := Lcs(prev[plo..phi], next[nlo..nhi], ItemCmp(cmp));
    if m.len == 0 then Replace(plo, phi, nlo, nhi)
    else
      var ps, ns := plo + m.aStart, nlo + m.bStart;
      var pe, ne := ps + m.len, ns + m.len;
      var pre := Gap(prev, plo, ps, next, nlo, ns, cmp);
      var suf := Gap(prev, pe, phi, next, ne, nhi, cmp);
      JoinWithin(pre, suf, plo, ps, pe, phi, nlo, ns, ne, nhi);
      Join(pre, ps, m.len, suf)
  }

  /**
    The part before or after a matched run: when both sides have entries it is reconciled
    recursively, otherwise its previous records are razed and its next items built.
  */
  ghost function Gap<T>(prev: seq<ListItem<T>>, plo: nat, phi: nat,
                        next: seq<T>, nlo: nat, nhi: nat,
                        cmp: (T, T) -> bool): (r: Reconciliation)
    requires plo <= phi <= |prev| && nlo <= nhi <= |next|
    ensures WithinRanges(r, plo, phi, nlo, nhi)
    decreases (phi - plo) + (nhi - nlo), 2
  {
    if plo < phi && nlo < nhi then Reconcile(prev, plo, phi, next, nlo, nhi, cmp)
    else Replace(plo, phi, nlo, nhi)
  }

  /** The decisions for the part before a matched run, the run itself, and the part after it. */
  function Join(pre: Reconciliation, ps: nat, len: nat, suf: Reconciliation): Reconciliation {
    Reconciliation(pre.plan + ReusedRun(ps, len) + suf.plan, pre.razed + suf.razed)
  }

  lemma JoinWithin(pre: Reconciliation, suf: Reconciliation,
                   plo: nat, ps: nat, pe: nat, phi: nat, nlo: nat, ns: nat, ne: nat, nhi: nat)
    requires plo <= ps <= pe <= phi && nlo <= ns <= ne <= nhi && pe - ps == ne - ns
    requires WithinRanges(pre, plo, ps, nlo, ns) && WithinRanges(suf, pe, phi, ne, nhi)
    ensures WithinRanges(Join(pre, ps, pe - ps, suf), plo, phi, nlo, nhi)
  {
    var r := Join(pre, ps, pe - ps, suf);
    forall j | 0 <= j < |r.plan| && r.plan[j].Reused? ensures plo <= r.plan[j].index < phi {
      if j < |pre.plan| {
        assert r.plan[j] == pre.plan[j];
      } else if j < |pre.plan| + (pe - ps) {
        assert r.plan[j] == Reused(ps + (j - |pre.plan|));
      } else {
        assert r.plan[j] == suf.plan[j - |pre.plan| - (pe - ps)];
      }
    }
    forall i | 0 <= i < |r.razed| ensures plo <= r.razed[i] < phi {
      if i >= |pre.razed| {
        assert r.razed[i] == suf.razed[i - |pre.razed|];
      }
    }
  }

  // ---- What every reconciliation satisfies ----

  /** Every carried record's item compares equal, under `cmp`, to the next item at its position. */
  ghost predicate Aligned<T>(r: Reconciliation, prev: seq<ListItem<T>>, next: seq<T>, nlo: nat,
                             cmp: (T, T) -> bool) {
    forall j :: 0 <= j < |r.plan| && r.plan[j].Reused? ==>
      r.plan[j].index < |prev| && nlo + j < |next| && cmp(prev[r.plan[j].index].item, next[nlo + j])
  }

  /** Carried records come in strictly increasing previous-index order. */
  ghost predicate Increasing(plan: seq<Source>) {
    forall i, j :: 0 <= i < j < |plan| && plan[i].Reused? && plan[j].Reused? ==>
      plan[i].index < plan[j].index
  }

  ghost predicate StrictlyIncreasing(s: seq<nat>) {
    forall i, j :: 0 <= i < j < |s| ==> s[i] < s[j]
  }

  /**
    Each previous index of the range is razed or carried, never both and never neither; razing
    visits the indices in increasing order, so none is razed twice.
  */
  ghost predicate Partitions(r: Reconciliation, plo: nat, phi: nat) {
    && StrictlyIncreasing(r.razed)
    && forall k :: plo <= k < phi ==> (k in r.razed <==> Reused(k) !in r.plan)
  }

  lemma {:induction false} ReconcileAligned<T>(prev: seq<ListItem<T>>, plo: nat, phi: nat,
                                               next: seq<T>, nlo: nat, nhi: nat,
                                               cmp: (T, T) -> bool)
    requires plo <= phi <= |prev| && nlo <= nhi <= |next|
    ensures Aligned(Reconcile(prev, plo, phi, next, nlo, nhi, cmp), prev, next, nlo, cmp)
    decreases (phi - plo) + (nhi - nlo), 1
  {
    var m := Lcs(prev[plo..phi], next[nlo..nhi], ItemCmp(cmp));
    if m.len > 0 {
      MatchedRun(prev, plo, phi, next, nlo, nhi, ItemCmp(cmp), m);
      var ps, ns := plo + m.aStart, nlo + m.bStart;
      var pe, ne := ps + m.len, ns + m.len;
      ReconcileSplit(prev, plo, phi, next, nlo, nhi, cmp, m, ps, pe, ns, ne);
      GapAligned(prev, plo, ps, next, nlo, ns, cmp);
      GapAligned(prev, pe, phi, next, ne, nhi, cmp);
      JoinAligned(Gap(prev, plo, ps, next, nlo, ns, cmp), Gap(prev, pe, phi, next, ne, nhi, cmp),
                  prev, plo, ps, pe, phi, next, nlo, ns, ne, nhi, cmp);
    }
  }

  lemma {:induction false} GapAligned<T>(prev: seq<ListItem<T>>, plo: nat, phi: nat,
                                         next: seq<T>, nlo: nat, nhi: nat,
                                         cmp: (T, T) -> bool)
    requires plo <= phi <= |prev| && nlo <= nhi <= |next|
    ensures Aligned(Gap(prev, plo, phi, next, nlo, nhi, cmp), prev, next, nlo, cmp)
    decreases (phi - plo) + (nhi - nlo), 2
  {
    if plo < phi && nlo < nhi {
      ReconcileAligned(prev, plo, phi, next, nlo, nhi, cmp);
    }
  }

  /** The run the matcher reports, restated on the whole sequences. */
  lemma MatchedRun<A, B>(a: seq<A>, alo: nat, ahi: nat, b: seq<B>, blo: nat, bhi: nat,
                         eq: (A, B) -> bool, m: Match)
    requires alo <= ahi <= |a| && blo <= bhi <= |b|
    requires Matches(a[alo..ahi], b[blo..bhi], eq, m)
    ensures alo + m.aStart + m.len <= ahi && blo + m.bStart + m.len <= bhi
    ensures AllPairs(a[alo + m.aStart..alo + m.aStart + m.len], b[blo + m.bStart..blo + m.bStart + m.len], eq)
  {
    SliceOfSlice(a, alo, ahi, m.aStart, m.len);
    SliceOfSlice(b, blo, bhi, m.bStart, m.len);
  }

  /** With no previous records nothing can match: every next item is built. */
  lemma ReconcileFromNothing<T>(prev: seq<ListItem<T>>, next: seq<T>, cmp: (T, T) -> bool)
    requires prev == []
    ensures Reconcile(prev, 0, 0, next, 0, |next|, cmp) == Replace(0, 0, 0, |next|)
  {
    var m := Lcs(prev[0..0], next[0..|next|], ItemCmp(cmp));
    assert m.len == 0;
  }

  /** A reconciliation whose matcher finds no common run replaces the whole range. */
  lemma ReconcileUnmatched<T>(prev: seq<ListItem<T>>, plo: nat, phi: nat, next: seq<T>, nlo: nat, nhi: nat,
                              cmp: (T, T) -> bool)
    requires plo <= phi <= |prev| && nlo <= nhi <= |next|
    requires Lcs(prev[plo..phi], next[nlo..nhi], ItemCmp(cmp)).len == 0
    ensures Reconcile(prev, plo, phi, next, nlo, nhi, cmp) == Replace(plo, phi, nlo, nhi)
  {
  }

  /**
    A reconciliation whose matcher finds the run `prev[ps..ps + len]` ~ `next[ns..ns + len]` is the
    join of the reconciliations of the two gaps around it.
  */
  lemma ReconcileSplit<T>(prev: seq<ListItem<T>>, plo: nat, phi: nat, next: seq<T>, nlo: nat, nhi: nat,
                          cmp: (T, T) -> bool, m: Match, ps: nat, pe: nat, ns: nat, ne: nat)
    requires plo <= phi <= |prev| && nlo <= nhi <= |next|
    requires m == Lcs(prev[plo..phi], next[nlo..nhi], ItemCmp(cmp)) && m.len > 0
    requires ps == plo + m.aStart && pe == ps + m.len && ns == nlo + m.bStart && ne == ns + m.len
    requires pe <= phi && ne <= nhi
    ensures Reconcile(prev, plo, phi, next, nlo, nhi, cmp)
         == Join(Gap(prev, plo, ps, next, nlo, ns, cmp), ps, m.len, Gap(prev, pe, phi, next, ne, nhi, cmp))
  {
    var p, s := Gap(prev, plo, ps, next, nlo, ns, cmp), Gap(prev, pe, phi, next, ne, nhi, cmp);
    assert Reconcile(prev, plo, phi, next, nlo, nhi, cmp) == Join(p, ps, m.len, s);
  }

  /** With no next items nothing can match: every previous record is razed. */
  lemma ReconcileToNothing<T>(prev: seq<ListItem<T>>, next: seq<T>, cmp: (T, T) -> bool)
    requires next == []
    ensures Reconcile(prev, 0, |prev|, next, 0, 0, cmp) == Replace(0, |prev|, 0, 0)
  {
    var m := Lcs(prev[0..|prev|], next[0..0], ItemCmp(cmp));
    assert m.len == 0;
  }

  lemma SliceOfSlice<X>(s: seq<X>, lo: nat, hi: nat, start: nat, len: nat)
    requires lo <= hi <= |s| && start + len <= hi - lo
    ensures s[lo..hi][start..start + len] == s[lo + start..lo + start + len]
  {
    var a, b := s[lo..hi][start..start + len], s[lo + start..lo + start + len];
    assert |a| == |b|;
    forall i | 0 <= i < len ensures a[i] == b[i] {
      calc {
        a[i];
        s[lo..hi][start + i];
        s[lo + start + i];
        b[i];
      }
    }
  }

  lemma JoinAligned<T>(pre: Reconciliation, suf: Reconciliation, prev: seq<ListItem<T>>,
                       plo: nat, ps: nat, pe: nat, phi: nat,
                       next: seq<T>, nlo: nat, ns: nat, ne: nat, nhi: nat, cmp: (T, T) -> bool)
    requires plo <= ps <= pe <= phi <= |prev| && nlo <= ns <= ne <= nhi <= |next| && pe - ps == ne - ns
    requires WithinRanges(pre, plo, ps, nlo, ns) && WithinRanges(suf, pe, phi, ne, nhi)
    requires Aligned(pre, prev, next, nlo, cmp) && Aligned(suf, prev, next, ne, cmp)
    requires AllPairs(prev[ps..pe], next[ns..ne], ItemCmp(cmp))
    ensures Aligned(Join(pre, ps, pe - ps, suf), prev, next, nlo, cmp)
  {
    var r := Join(pre, ps, pe - ps, suf);
    forall j | 0 <= j < |r.plan| && r.plan[j].Reused?
      ensures cmp(prev[r.plan[j].index].item, next[nlo + j])
    {
      if j < |pre.plan| {
        assert r.plan[j] == pre.plan[j];
      } else if j < |pre.plan| + (pe - ps) {
        var i := j - |pre.plan|;
        assert r.plan[j] == Reused(ps + i);
        assert prev[ps..pe][i] == prev[ps + i] && next[ns..ne][i] == next[ns + i];
      } else {
        assert r.plan[j] == suf.plan[j - |pre.plan| - (pe - ps)];
      }
    }
  }

  lemma {:induction false} ReconcileIncreasing<T>(prev: seq<ListItem<T>>, plo: nat, phi: nat,
                                                  next: seq<T>, nlo: nat, nhi: nat,
                                                  cmp: (T, T) -> bool)
    requires plo <= phi <= |prev| && nlo <= nhi <= |next|
    ensures Increasing(Reconcile(prev, plo, phi, next, nlo, nhi, cmp).plan)
    decreases (phi - plo) + (nhi - nlo)
  {
    var m := Lcs(prev[plo..phi], next[nlo..nhi], ItemCmp(cmp));
    if m.len > 0 {
      var ps, ns := plo + m.aStart, nlo + m.bStart;
      var pe, ne := ps + m.len, ns + m.len;
      var pre := Gap(prev, plo, ps, next, nlo, ns, cmp);
      var suf := Gap(prev, pe, phi, next, ne, nhi, cmp);
      if plo < ps && nlo < ns {
        ReconcileIncreasing(prev, plo, ps, next, nlo, ns, cmp);
      }
      assert Increasing(pre.plan);
      if pe < phi && ne < nhi {
        ReconcileIncreasing(prev, pe, phi, next, ne, nhi, cmp);
      }
      assert Increasing(suf.plan);
      JoinIncreasing(pre, suf, plo, ps, pe, phi, nlo, ns, ne, nhi);
      ReconcileSplit(prev, plo, phi, next, nlo, nhi, cmp, m, ps, pe, ns, ne);
    }
  }

  lemma JoinIncreasing(pre: Reconciliation, suf: Reconciliation,
                       plo: nat, ps: nat, pe: nat, phi: nat, nlo: nat, ns: nat, ne: nat, nhi: nat)
    requires plo <= ps <= pe <= phi && nlo <= ns <= ne <= nhi && pe - ps == ne - ns
    requires WithinRanges(pre, plo, ps, nlo, ns) && WithinRanges(suf, pe, phi, ne, nhi)
    requires Increasing(pre.plan) && Increasing(suf.plan)
    ensures Increasing(Join(pre, ps, pe - ps, suf).plan)
  {
    var r := Join(pre, ps, pe - ps, suf);
    var a, len := |pre.plan|, pe - ps;
    forall i, j | 0 <= i < j < |r.plan| && r.plan[i].Reused? && r.plan[j].Reused?
      ensures r.plan[i].index < r.plan[j].index
    {
      if j < a {
        assert r.plan[i] == pre.plan[i] && r.plan[j] == pre.plan[j];
      } else if j < a + len {
        assert r.plan[j] == Reused(ps + (j - a));
        if i < a {
          assert r.plan[i] == pre.plan[i];
        } else {
          assert r.plan[i] == Reused(ps + (i - a));
        }
      } else {
        assert r.plan[j] == suf.plan[j - a - len];
        if i < a {
          assert r.plan[i] == pre.plan[i];
        } else if i < a + len {
          assert r.plan[i] == Reused(ps + (i - a));
        } else {
          assert r.plan[i] == suf.plan[i - a - len];
        }
      }
    }
  }

  lemma {:induction false} ReconcilePartitions<T>(prev: seq<ListItem<T>>, plo: nat, phi: nat,
                                                  next: seq<T>, nlo: nat, nhi: nat,
                                                  cmp: (T, T) -> bool)
    requires plo <= phi <= |prev| && nlo <= nhi <= |next|
    ensures Partitions(Reconcile(prev, plo, phi, next, nlo, nhi, cmp), plo, phi)
    decreases (phi - plo) + (nhi - nlo)
  {
    var m := Lcs(prev[plo..phi], next[nlo..nhi], ItemCmp(cmp));
    if m.len == 0 {
      ReplacePartitions(plo, phi, nlo, nhi);
    } else {
      var ps, ns := plo + m.aStart, nlo + m.bStart;
      var pe, ne := ps + m.len, ns + m.len;
      if plo < ps && nlo < ns {
        ReconcilePartitions(prev, plo, ps, next, nlo, ns, cmp);
      } else {
        ReplacePartitions(plo, ps, nlo, ns);
      }
      if pe < phi && ne < nhi {
        ReconcilePartitions(prev, pe, phi, next, ne, nhi, cmp);
      } else {
        ReplacePartitions(pe, phi, ne, nhi);
      }
      var pre := Gap(prev, plo, ps, next, nlo, ns, cmp);
      var suf := Gap(prev, pe, phi, next, ne, nhi, cmp);
      JoinPartitions(pre, suf, plo, ps, pe, phi, nlo, ns, ne, nhi);
    }
  }

  lemma ReplacePartitions(plo: nat, phi: nat, nlo: nat, nhi: nat)
    requires plo <= phi && nlo <= nhi
    ensures Partitions(Replace(plo, phi, nlo, nhi), plo, phi)
  {
    var r := Replace(plo, phi, nlo, nhi);
    forall k | plo <= k < phi ensures k in r.razed && Reused(k) !in r.plan {
      assert r.razed[k - plo] == k;
    }
  }

  lemma JoinPartitions(pre: Reconciliation, suf: Reconciliation,
                       plo: nat, ps: nat, pe: nat, phi: nat, nlo: nat, ns: nat, ne: nat, nhi: nat)
    requires plo <= ps <= pe <= phi && nlo <= ns <= ne <= nhi && pe - ps == ne - ns
    requires WithinRanges(pre, plo, ps, nlo, ns) && WithinRanges(suf, pe, phi, ne, nhi)
    requires Partitions(pre, plo, ps) && Partitions(suf, pe, phi)
    ensures Partitions(Join(pre, ps, pe - ps, suf), plo, phi)
  {
    var run := ReusedRun(ps, pe - ps);
    var r := Join(pre, ps, pe - ps, suf);
    forall i, j | 0 <= i < j < |r.razed| ensures r.razed[i] < r.razed[j] {
      if j < |pre.razed| {
      } else if i < |pre.razed| {
        assert r.razed[j] == suf.razed[j - |pre.razed|];
      } else {
        assert r.razed[i] == suf.razed[i - |pre.razed|];
        assert r.razed[j] == suf.razed[j - |pre.razed|];
      }
    }
    forall k | plo <= k < phi ensures k in r.razed <==> Reused(k) !in r.plan {
      assert r.plan == pre.plan + (run + suf.plan);
      if k < ps {
        assert k !in suf.razed;
        assert Reused(k) !in run + suf.plan;
      } else if k < pe {
        assert run[k - ps] == Reused(k);
        assert k !in pre.razed && k !in suf.razed;
      } else {
        assert k !in pre.razed;
        assert Reused(k) !in pre.plan + run;
        assert r.plan == (pre.plan + run) + suf.plan;
      }
    }
  }

  // ---- From decisions to records ----

  function CountCreated(plan: seq<Source>): nat {
    if plan == [] then 0 else (if plan[0].Created? then 1 else 0) + CountCreated(plan[1..])
  }

  ghost predicate Realizable<T>(plan: seq<Source>, prev: seq<ListItem<T>>, next: seq<T>, nlo: nat) {
    && nlo + |plan| <= |next|
    && forall j :: 0 <= j < |plan| && plan[j].Reused? ==> plan[j].index < |prev|
  }

  /** The records a plan produces for `next[nlo..]`, fresh nodes numbered upwards from `base`. */
  function Realize<T>(plan: seq<Source>, prev: seq<ListItem<T>>, next: seq<T>, nlo: nat,
                      base: NodeId): (out: seq<ListItem<T>>)
    requires Realizable(plan, prev, next, nlo)
    ensures |out| == |plan|
    decreases |plan|
  {
    if plan == [] then []
    else
      var head := if plan[0].Reused? then prev[plan[0].index] else ListItem(base, next[nlo]);
      [head] + Realize(plan[1..], prev, next, nlo + 1, if plan[0].Created? then base + 1 else base)
  }

  /** The nodes of a list of records, in order. */
  function Nodes<T>(recs: seq<ListItem<T>>): (ids: seq<NodeId>)
    ensures |ids| == |recs| && forall i :: 0 <= i < |recs| ==> ids[i] == recs[i].child
  {
    seq(|recs|, i requires 0 <= i < |recs| => recs[i].child)
  }

  /** Fresh records for `next[lo..lo + n]`, with nodes `base, base + 1, ...`. */
  function Built<T>(next: seq<T>, lo: nat, n: nat, base: NodeId): (out: seq<ListItem<T>>)
    requires lo + n <= |next|
    ensures |out| == n && forall i :: 0 <= i < n ==> out[i] == ListItem(base + i, next[lo + i])
  {
    seq(n, i requires 0 <= i < n => ListItem(base + i, next[lo + i]))
  }

  /** The record at output position `j`: the previous record it carries, or a fresh one. */
  lemma {:induction false} RealizeAt<T>(plan: seq<Source>, prev: seq<ListItem<T>>, next: seq<T>,
                                        nlo: nat, base: NodeId, j: nat)
    requires Realizable(plan, prev, next, nlo) && j < |plan|
    ensures Realize(plan, prev, next, nlo, base)[j] ==
              if plan[j].Reused? then prev[plan[j].index]
              else ListItem(base + CountCreated(plan[..j]), next[nlo + j])
  {
    if j > 0 {
      var f := if plan[0].Created? then base + 1 else base;
      RealizeAt(plan[1..], prev, next, nlo + 1, f, j - 1);
      assert plan[..j][1..] == plan[1..][..j - 1];
    }
  }

  lemma {:induction false} CountCreatedAppend(a: seq<Source>, b: seq<Source>)
    ensures CountCreated(a + b) == CountCreated(a) + CountCreated(b)
  {
    if a == [] {
      assert a + b == b;
    } else {
      CountCreatedAppend(a[1..], b);
      assert (a + b)[1..] == a[1..] + b;
    }
  }

  /** A fresh record at position `i` gets a smaller node than any fresh record after it. */
  lemma CountCreatedGrows(plan: seq<Source>, i: nat, j: nat)
    requires i < j <= |plan| && plan[i].Created?
    ensures CountCreated(plan[..i]) < CountCreated(plan[..j])
  {
    assert plan[..j] == plan[..i] + plan[i..j];
    CountCreatedAppend(plan[..i], plan[i..j]);
    assert plan[i..j][0] == plan[i];
  }

  lemma RealizableParts<T>(a: seq<Source>, b: seq<Source>, prev: seq<ListItem<T>>, next: seq<T>, nlo: nat)
    requires Realizable(a + b, prev, next, nlo)
    ensures Realizable(a, prev, next, nlo) && Realizable(b, prev, next, nlo + |a|)
  {
    assert forall j :: 0 <= j < |a| ==> (a + b)[j] == a[j];
    assert forall j :: 0 <= j < |b| ==> (a + b)[|a| + j] == b[j];
  }

  lemma RealizableJoin<T>(a: seq<Source>, b: seq<Source>, prev: seq<ListItem<T>>, next: seq<T>, nlo: nat)
    requires Realizable(a, prev, next, nlo) && Realizable(b, prev, next, nlo + |a|)
    ensures Realizable(a + b, prev, next, nlo)
  {
    forall j | 0 <= j < |a + b| && (a + b)[j].Reused? ensures (a + b)[j].index < |prev| {
      if j >= |a| {
        assert (a + b)[j] == b[j - |a|];
      }
    }
  }

  lemma {:induction false} RealizeAppend<T>(a: seq<Source>, b: seq<Source>, prev: seq<ListItem<T>>,
                                            next: seq<T>, nlo: nat, base: NodeId)
    requires Realizable(a + b, prev, next, nlo)
    requires Realizable(a, prev, next, nlo) && Realizable(b, prev, next, nlo + |a|)
    ensures Realize(a + b, prev, next, nlo, base) ==
              Realize(a, prev, next, nlo, base) + Realize(b, prev, next, nlo + |a|, base + CountCreated(a))
    decreases |a|
  {
    if a == [] {
      assert a + b == b;
    } else {
      var f := if a[0].Created? then base + 1 else base;
      var head := if a[0].Reused? then prev[a[0].index] else ListItem(base, next[nlo]);
      RealizableParts(a[1..], b, prev, next, nlo + 1) by {
        assert (a + b)[1..] == a[1..] + b;
      }
      assert Realize(a + b, prev, next, nlo, base) == [head] + Realize(a[1..] + b, prev, next, nlo + 1, f) by {
        assert (a + b)[0] == a[0];
        assert (a + b)[1..] == a[1..] + b;
      }
      assert Realize(a, prev, next, nlo, base) == [head] + Realize(a[1..], prev, next, nlo + 1, f);
      assert base + CountCreated(a) == f + CountCreated(a[1..]);
      RealizeAppend(a[1..], b, prev, next, nlo + 1, f);
    }
  }

  lemma {:induction false} RealizeCreatedRun<T>(prev: seq<ListItem<T>>, next: seq<T>, lo: nat, n: nat,
                                                base: NodeId)
    requires lo + n <= |next|
    ensures Realizable(CreatedRun(n), prev, next, lo)
    ensures Realize(CreatedRun(n), prev, next, lo, base) == Built(next, lo, n, base)
    ensures CountCreated(CreatedRun(n)) == n
    decreases n
  {
    if n > 0 {
      assert CreatedRun(n)[1..] == CreatedRun(n - 1);
      RealizeCreatedRun(prev, next, lo + 1, n - 1, base + 1);
      assert Built(next, lo, n, base) == [ListItem(base, next[lo])] + Built(next, lo + 1, n - 1, base + 1);
    }
  }

  lemma {:induction false} RealizeReusedRun<T>(prev: seq<ListItem<T>>, next: seq<T>, ps: nat, n: nat,
                                               nlo: nat, base: NodeId)
    requires ps + n <= |prev| && nlo + n <= |next|
    ensures Realizable(ReusedRun(ps, n), prev, next, nlo)
    ensures Realize(ReusedRun(ps, n), prev, next, nlo, base) == prev[ps..ps + n]
    ensures CountCreated(ReusedRun(ps, n)) == 0
    decreases n
  {
    if n > 0 {
      assert ReusedRun(ps, n)[1..] == ReusedRun(ps + 1, n - 1);
      RealizeReusedRun(prev, next, ps + 1, n - 1, nlo + 1, base);
      assert prev[ps..ps + n] == [prev[ps]] + prev[ps + 1..ps + n];
    }
  }

  /** The records a joined plan builds: the prefix's, the carried run, then the suffix's. */
  lemma JoinRealize<T>(pre: Reconciliation, suf: Reconciliation, prev: seq<ListItem<T>>,
                       plo: nat, ps: nat, pe: nat, phi: nat,
                       next: seq<T>, nlo: nat, ns: nat, ne: nat, nhi: nat, base: NodeId)
    requires plo <= ps <= pe <= phi <= |prev| && nlo <= ns <= ne <= nhi <= |next| && pe - ps == ne - ns
    requires WithinRanges(pre, plo, ps, nlo, ns) && WithinRanges(suf, pe, phi, ne, nhi)
    requires Realizable(pre.plan, prev, next, nlo) && Realizable(suf.plan, prev, next, ne)
    ensures var r := Join(pre, ps, pe - ps, suf);
      && Realizable(r.plan, prev, next, nlo)
      && Realize(r.plan, prev, next, nlo, base) ==
         Realize(pre.plan, prev, next, nlo, base) + prev[ps..pe]
         + Realize(suf.plan, prev, next, ne, base + CountCreated(pre.plan))
      && CountCreated(r.plan) == CountCreated(pre.plan) + CountCreated(suf.plan)
  {
    var a := pre.plan + ReusedRun(ps, pe - ps);
    RealizeThenCarried(pre.plan, prev, next, nlo, ps, pe - ps, base);
    assert nlo + |a| == ne;
    RealizeThen(a, suf.plan, prev, next, nlo, base);
    assert Join(pre, ps, pe - ps, suf).plan == a + suf.plan;
    var rpre, rsuf := Realize(pre.plan, prev, next, nlo, base), Realize(suf.plan, prev, next, ne, base + CountCreated(pre.plan));
    assert Realize(a + suf.plan, prev, next, nlo, base) == (rpre + prev[ps..pe]) + rsuf;
  }

  /** A plan followed by another builds the first's records, then the second's numbered on from them. */
  lemma RealizeThen<T>(a: seq<Source>, b: seq<Source>, prev: seq<ListItem<T>>, next: seq<T>, nlo: nat, base: NodeId)
    requires Realizable(a, prev, next, nlo) && Realizable(b, prev, next, nlo + |a|)
    ensures Realizable(a + b, prev, next, nlo)
    ensures Realize(a + b, prev, next, nlo, base) ==
              Realize(a, prev, next, nlo, base) + Realize(b, prev, next, nlo + |a|, base + CountCreated(a))
    ensures CountCreated(a + b) == CountCreated(a) + CountCreated(b)
  {
    RealizableJoin(a, b, prev, next, nlo);
    RealizeAppend(a, b, prev, next, nlo, base);
    CountCreatedAppend(a, b);
  }

  /** A plan followed by a carried run of `n` records from `ps` on builds its records, then those. */
  lemma RealizeThenCarried<T>(p: seq<Source>, prev: seq<ListItem<T>>, next: seq<T>, nlo: nat, ps: nat, n: nat,
                              base: NodeId)
    requires Realizable(p, prev, next, nlo) && ps + n <= |prev| && nlo + |p| + n <= |next|
    ensures Realizable(p + ReusedRun(ps, n), prev, next, nlo)
    ensures Realize(p + ReusedRun(ps, n), prev, next, nlo, base) == Realize(p, prev, next, nlo, base) + prev[ps..ps + n]
    ensures CountCreated(p + ReusedRun(ps, n)) == CountCreated(p)
  {
    RealizeReusedRun(prev, next, ps, n, nlo + |p|, base + CountCreated(p));
    RealizeThen(p, ReusedRun(ps, n), prev, next, nlo, base);
  }
}
