/**
 * Index ranges `[begin, end)` that say which bytes of a file to read so that
 * every index a signature table reads is at hand
 * (src/preset/mediaTypeAndMagicBytesCollection.ts, src/preset.ts). A negative
 * begin counts from the end of the file, and an absent end stands for the end
 * of the file.
 */
module IndexRanges {
  import opened Wrappers
  import opened Signatures

  /** `[begin, end)`; `end == None` is the source's `undefined`. */
  datatype IndexRange = IndexRange(begin: int, end: Option<int>)

  /** The end as the consistency checks read it: an absent end counts as 0. */
  function EndOrZero(r: IndexRange): int
  {
    if r.end.Some? then r.end.value else 0
  }

  /** `a` is non-empty, and `b` is non-empty and starts at or after the end of `a`. */
  predicate Precedes(a: IndexRange, b: IndexRange)
  {
    a.begin < EndOrZero(a) <= b.begin < EndOrZero(b)
  }

  /** `[i][0] < [i][1] <= [i+1][0]` for every two neighbouring ranges. */
  predicate SortedDisjoint(ranges: seq<IndexRange>)
  {
    forall i :: 0 <= i < |ranges| - 1 ==> Precedes(ranges[i], ranges[i + 1])
  }

  /** The indices the ranges cover, each range read as `[begin, EndOrZero)`. */
  function Covered(ranges: seq<IndexRange>): set<int>
  {
    if ranges == [] then {} else Interval(ranges[0].begin, EndOrZero(ranges[0])) + Covered(ranges[1..])
  }

  /** An index is covered exactly when one of the ranges holds it. */
  lemma {:induction false} CoveredIff(ranges: seq<IndexRange>, x: int)
    ensures x in Covered(ranges) <==> exists i :: 0 <= i < |ranges| && ranges[i].begin <= x < EndOrZero(ranges[i])
  {
    if ranges != [] {
      CoveredIff(ranges[1..], x);
      if exists i :: 0 <= i < |ranges| && ranges[i].begin <= x < EndOrZero(ranges[i]) {
        var i :| 0 <= i < |ranges| && ranges[i].begin <= x < EndOrZero(ranges[i]);
        if i > 0 {
          assert ranges[1..][i - 1] == ranges[i];
        }
      }
      if exists i :: 0 <= i < |ranges[1..]| && ranges[1..][i].begin <= x < EndOrZero(ranges[1..][i]) {
        var i :| 0 <= i < |ranges[1..]| && ranges[1..][i].begin <= x < EndOrZero(ranges[1..][i]);
        assert ranges[1..][i] == ranges[i + 1];
      }
    }
  }

  /**
   * Sorted and disjoint ranges never overlap: every range ends at or before
   * the begin of every later range, so no index is covered twice.
   */
  lemma {:induction false} SortedDisjointApart(ranges: seq<IndexRange>, i: nat, j: nat)
    requires SortedDisjoint(ranges)
    requires i < j < |ranges|
    ensures EndOrZero(ranges[i]) <= ranges[j].begin
    ensures Interval(ranges[i].begin, EndOrZero(ranges[i])) * Interval(ranges[j].begin, EndOrZero(ranges[j])) == {}
    decreases j - i
  {
    if j > i + 1 {
      SortedDisjointApart(ranges, i, j - 1);
      assert Precedes(ranges[j - 1], ranges[j]);
    } else {
      assert Precedes(ranges[i], ranges[i + 1]);
    }
  }
}
