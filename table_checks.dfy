/**
 * Entry-by-entry checks for the constant signature tables. Each check walks a
 * table by position and is shown to imply the table-wide property it stands
 * for, so that a property of a long constant table follows from checking its
 * parts one at a time.
 */
module TableChecks {
  import opened Signatures
  import opened IndexRanges
  import opened Matching
  import SparseArray

  /** The run lies inside one of the ranges from the `k`-th on. */
  predicate RunInRanges(r: Run, ranges: seq<IndexRange>, k: nat)
    requires k <= |ranges|
    decreases |ranges| - k
  {
    k < |ranges| &&
    ((ranges[k].begin <= r.offset && r.offset + |r.bytes| <= EndOrZero(ranges[k])) || RunInRanges(r, ranges, k + 1))
  }

  /** From the `j`-th run on, every run is non-empty and lies inside the ranges. */
  predicate RunsChecked(sig: Signature, ranges: seq<IndexRange>, j: nat)
    requires j <= |sig|
    decreases |sig| - j
  {
    j == |sig| || (sig[j].bytes != [] && RunInRanges(sig[j], ranges, 0) && RunsChecked(sig, ranges, j + 1))
  }

  /** From the `i`-th entry on, every signature has a run and its runs pass `RunsChecked`. */
  predicate EntriesChecked(t: Table, ranges: seq<IndexRange>, i: nat)
    requires i <= |t|
    decreases |t| - i
  {
    i == |t| || (t[i].1 != [] && RunsChecked(t[i].1, ranges, 0) && EntriesChecked(t, ranges, i + 1))
  }

  /** From the `i`-th entry on, every key is in `keys`. */
  predicate KeysChecked(t: Table, keys: set<string>, i: nat)
    requires i <= |t|
    decreases |t| - i
  {
    i == |t| || (t[i].0 in keys && KeysChecked(t, keys, i + 1))
  }

  lemma {:induction false} RunInRangesSound(r: Run, ranges: seq<IndexRange>, k: nat)
    requires k <= |ranges| && RunInRanges(r, ranges, k)
    ensures Interval(r.offset, r.offset + |r.bytes|) <= Covered(ranges)
    decreases |ranges| - k
  {
    if ranges[k].begin <= r.offset && r.offset + |r.bytes| <= EndOrZero(ranges[k]) {
      forall x | r.offset <= x < r.offset + |r.bytes| ensures x in Covered(ranges) {
        CoveredIff(ranges, x);
      }
    } else {
      RunInRangesSound(r, ranges, k + 1);
    }
  }

  lemma {:induction false} RunsCheckedSound(sig: Signature, ranges: seq<IndexRange>, j: nat)
    requires j <= |sig| && RunsChecked(sig, ranges, j)
    ensures forall m :: j <= m < |sig| ==>
      sig[m].bytes != [] && Interval(sig[m].offset, sig[m].offset + |sig[m].bytes|) <= Covered(ranges)
    decreases |sig| - j
  {
    if j < |sig| {
      RunInRangesSound(sig[j], ranges, 0);
      RunsCheckedSound(sig, ranges, j + 1);
    }
  }

  /** A table that passes the check is well written and reads only covered indices. */
  lemma {:induction false} EntriesCheckedSound(t: Table, ranges: seq<IndexRange>, i: nat)
    requires i <= |t| && EntriesChecked(t, ranges, i)
    ensures forall m :: i <= m < |t| ==> t[m].1 != [] && ValidSignature(t[m].1)
    ensures forall m, r :: i <= m < |t| && r in t[m].1 ==> Interval(r.offset, r.offset + |r.bytes|) <= Covered(ranges)
    decreases |t| - i
  {
    if i < |t| {
      RunsCheckedSound(t[i].1, ranges, 0);
      EntriesCheckedSound(t, ranges, i + 1);
    }
  }

  /** The check from the first entry on gives the table-wide properties. */
  lemma CheckedTable(t: Table, ranges: seq<IndexRange>)
    requires EntriesChecked(t, ranges, 0)
    ensures WellWritten(t) && ReadsWithin(t, Covered(ranges))
  {
    EntriesCheckedSound(t, ranges, 0);
  }

  lemma {:induction false} KeysCheckedSound(t: Table, keys: set<string>, i: nat)
    requires i <= |t| && KeysChecked(t, keys, i)
    ensures forall m :: i <= m < |t| ==> t[m].0 in keys
    decreases |t| - i
  {
    if i < |t| {
      KeysCheckedSound(t, keys, i + 1);
    }
  }

  /** The key check from the first entry on gives `KeysWithin`. */
  lemma CheckedKeys(t: Table, keys: set<string>)
    requires KeysChecked(t, keys, 0)
    ensures KeysWithin(t, keys)
  {
    KeysCheckedSound(t, keys, 0);
  }

  /** The run's bytes from the `k`-th on sit in `data` at their indices. */
  predicate RunMatchesData(r: Run, data: seq<int>, k: nat)
    requires k <= |r.bytes|
    decreases |r.bytes| - k
  {
    k == |r.bytes| ||
    (0 <= r.offset + k < |data| && data[r.offset + k] == r.bytes[k] && RunMatchesData(r, data, k + 1))
  }

  /** Every run from the `j`-th on matches `data`. */
  predicate RunsMatchData(sig: Signature, data: seq<int>, j: nat)
    requires j <= |sig|
    decreases |sig| - j
  {
    j == |sig| || (RunMatchesData(sig[j], data, 0) && RunsMatchData(sig, data, j + 1))
  }

  /** The keys of the entries from the `i`-th on whose runs all match `data`. */
  function KeysMatchingData(t: Table, data: seq<int>, i: nat): set<string>
    requires i <= |t|
    decreases |t| - i
  {
    if i == |t| then {}
    else (if RunsMatchData(t[i].1, data, 0) then {t[i].0} else {}) + KeysMatchingData(t, data, i + 1)
  }

  lemma {:induction false} RunMatchesDataSound(r: Run, data: seq<int>, k: nat)
    requires k <= |r.bytes|
    ensures RunMatchesData(r, data, k) <==>
      Matches(SparseArray.Section(r.offset + k, r.bytes[k..]), ArrayWindow(data))
    decreases |r.bytes| - k
  {
    if k < |r.bytes| {
      RunMatchesDataSound(r, data, k + 1);
      SectionCons(r.offset + k, r.bytes[k..]);
      assert r.bytes[k..][1..] == r.bytes[k + 1..];
      MatchesCons((r.offset + k, r.bytes[k]), SparseArray.Section(r.offset + k + 1, r.bytes[k + 1..]), ArrayWindow(data));
    }
  }

  lemma {:induction false} RunsMatchDataSound(sig: Signature, data: seq<int>, j: nat)
    requires j <= |sig|
    ensures RunsMatchData(sig, data, j) <==> Matches(Expand(sig[j..]), ArrayWindow(data))
    decreases |sig| - j
  {
    if j < |sig| {
      RunsMatchDataSound(sig, data, j + 1);
      RunMatchesDataSound(sig[j], data, 0);
      assert sig[j..][1..] == sig[j + 1..];
      assert sig[j].bytes[0..] == sig[j].bytes;
      MatchesAppend(SparseArray.Section(sig[j].offset, sig[j].bytes), Expand(sig[j + 1..]), ArrayWindow(data));
    } else {
      assert sig[j..] == [];
    }
  }

  /** The evaluated keys are exactly the keys the matchers report for the byte array `data`. */
  lemma {:induction false} KeysMatchingDataSound(t: Table, data: seq<int>, i: nat)
    requires i <= |t|
    ensures KeysMatchingData(t, data, i) == MatchedKeys(ExpandTable(t[i..]), ArrayWindow(data))
    decreases |t| - i
  {
    var w := ArrayWindow(data);
    if i < |t| {
      KeysMatchingDataSound(t, data, i + 1);
      RunsMatchDataSound(t[i].1, data, 0);
      assert t[i].1[0..] == t[i].1;
      assert t[i..] == [t[i]] + t[i + 1..];
      ExpandTableAppend([t[i]], t[i + 1..]);
      MatchedKeysAppend(ExpandTable([t[i]]), ExpandTable(t[i + 1..]), w);
      var one := ExpandTable([t[i]]);
      assert one[..0] == [];
      assert MatchedKeys(one, w) == if Matches(one[0].1, w) then {one[0].0} else {};
    } else {
      assert t[i..] == [];
    }
  }

  /** From the first entry on, the evaluated keys are the matched keys. */
  lemma KeysMatchingDataIsMatchedKeys(t: Table, data: seq<int>)
    ensures KeysMatchingData(t, data, 0) == MatchedKeys(ExpandTable(t), ArrayWindow(data))
  {
    KeysMatchingDataSound(t, data, 0);
    assert t[0..] == t;
  }

  /** Matching two tables put one after the other reports the keys of both. */
  lemma MatchedKeysOfAppend(a: Table, b: Table, w: Window)
    ensures MatchedKeys(ExpandTable(a + b), w) == MatchedKeys(ExpandTable(a), w) + MatchedKeys(ExpandTable(b), w)
  {
    ExpandTableAppend(a, b);
    MatchedKeysAppend(ExpandTable(a), ExpandTable(b), w);
  }
}
