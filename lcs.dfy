/**
  The matcher the list reconciler asks for one common run of two slices.

  The reconciler relies only on what `Matches` states: the run lies inside both slices and every
  aligned pair satisfies the comparison.  Nothing here is claimed about the run being longest.
  The body is one way to meet that contract (an exhaustive scan for a longest contiguous run);
  the repository's own matching code is not part of this model.
*/
module Matcher {

  /** A common run: `a[aStart..aStart + len]` lines up with `b[bStart..bStart + len]`. */
  datatype Match = Match(aStart: nat, bStart: nat, len: nat)

  ghost predicate Matches<A, B>(a: seq<A>, b: seq<B>, eq: (A, B) -> bool, m: Match) {
    && m.aStart + m.len <= |a|
    && m.bStart + m.len <= |b|
    && AllPairs(a[m.aStart..m.aStart + m.len], b[m.bStart..m.bStart + m.len], eq)
  }

  /** `eq` holds of every aligned pair of two equally long sequences. */
  ghost predicate AllPairs<A, B>(a: seq<A>, b: seq<B>, eq: (A, B) -> bool)
    requires |a| == |b|
  {
    forall i :: 0 <= i < |a| ==> eq(a[i], b[i])
  }

  /** The length of the run of matching pairs that starts at `a[i]`, `b[j]`. */
  function RunAt<A, B>(a: seq<A>, b: seq<B>, eq: (A, B) -> bool, i: nat, j: nat): (n: nat)
    requires i <= |a| && j <= |b|
    ensures Matches(a, b, eq, Match(i, j, n))
    decreases |a| - i
  {
    if i < |a| && j < |b| && eq(a[i], b[j]) then
      var rest := RunAt(a, b, eq, i + 1, j + 1);
      RunExtends(a, b, eq, i, j, rest);
      1 + rest
    else 0
  }

  /** A matching pair in front of a run starting just after it lengthens that run by one. */
  lemma RunExtends<A, B>(a: seq<A>, b: seq<B>, eq: (A, B) -> bool, i: nat, j: nat, n: nat)
    requires i < |a| && j < |b| && eq(a[i], b[j])
    requires Matches(a, b, eq, Match(i + 1, j + 1, n))
    ensures Matches(a, b, eq, Match(i, j, n + 1))
  {
    assert a[i..i + 1 + n] == [a[i]] + a[i + 1..i + 1 + n];
    assert b[j..j + 1 + n] == [b[j]] + b[j + 1..j + 1 + n];
  }

  /** Scans the start pairs from `(i, j)` on, in row order, keeping the longest run seen. */
  function Scan<A, B>(a: seq<A>, b: seq<B>, eq: (A, B) -> bool, i: nat, j: nat, best: Match): (r: Match)
    requires i <= |a| && j <= |b|
    requires Matches(a, b, eq, best)
    ensures Matches(a, b, eq, r)
    decreases |a| - i, |b| - j
  {
    if i == |a| then best
    else if j == |b| then Scan(a, b, eq, i + 1, 0, best)
    else
      var n := RunAt(a, b, eq, i, j);
      Scan(a, b, eq, i, j + 1, if n > best.len then Match(i, j, n) else best)
  }

  /** The matched run `(prev_start, next_start, len)`, offsets relative to the two slices. */
  function Lcs<A, B>(a: seq<A>, b: seq<B>, eq: (A, B) -> bool): (m: Match)
    ensures Matches(a, b, eq, m)
  {
    Scan(a, b, eq, 0, 0, Match(0, 0, 0))
  }
}
