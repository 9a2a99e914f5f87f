/**
 * The index-to-byte map that src/guess.ts and src/find.ts build before
 * matching: for each index range `[begin, end)` the bytes the data yields for
 * that range are stored under `begin`, `begin + 1`, ... in turn. Ranges with a
 * negative begin are counted from the end of the data, so their bytes land
 * under negative keys. The bytes of each range are an input here.
 */
module TargetBytes {
  import opened Wrappers
  import opened Matching
  import opened IndexRanges

  /** The byte that lands under index `x` when `bytes` are stored from `begin` on. */
  function ByteAt(begin: int, bytes: seq<int>, x: int): int
    requires begin <= x < begin + |bytes|
  {
    bytes[x - begin]
  }

  /** The bytes of one range stored from `begin` on. */
  function SliceMap(begin: int, bytes: seq<int>): (m: Window)
    ensures forall x :: x in m <==> begin <= x < begin + |bytes|
    ensures forall k :: 0 <= k < |bytes| ==> m[begin + k] == bytes[k]
  {
    map x | begin <= x < begin + |bytes| :: ByteAt(begin, bytes, x)
  }

  /** The begin of every range, in order: where each range's bytes start to land. */
  function Begins(ranges: seq<IndexRange>): (begins: seq<int>)
    ensures |begins| == |ranges|
    ensures forall i :: 0 <= i < |ranges| ==> begins[i] == ranges[i].begin
  {
    seq(|ranges|, i requires 0 <= i < |ranges| => ranges[i].begin)
  }

  /**
   * The map after writing every slice in order, the `i`-th from `begins[i]` on;
   * a later write to the same index wins.
   */
  function TargetByteMap(begins: seq<int>, slices: seq<seq<int>>): Window
    requires |slices| == |begins|
  {
    if begins == [] then map[]
    else
      var n := |begins| - 1;
      TargetByteMap(begins[..n], slices[..n]) + SliceMap(begins[n], slices[n])
  }

  /**
   * The map-building loops: for each range, a running index starts at the
   * range's begin and each byte of the range's slice is set at `index++`.
   */
  method ReadTargetBytes(ranges: seq<IndexRange>, slices: seq<seq<int>>) returns (indexToTargetByte: Window)
    requires |slices| == |ranges|
    ensures indexToTargetByte == TargetByteMap(Begins(ranges), slices)
  {
    ghost var begins := Begins(ranges);
    indexToTargetByte := map[];
    for i := 0 to |ranges|
      invariant indexToTargetByte == TargetByteMap(begins[..i], slices[..i])
    {
      TargetByteMapSnoc(begins, slices, i);
      indexToTargetByte := StoreSlice(indexToTargetByte, ranges[i].begin, slices[i]);
    }
    assert begins[..|ranges|] == begins && slices[..|slices|] == slices;
  }

  /** The inner loop of the map building: the bytes of one range, set one index after another. */
  method StoreSlice(m: Window, beginIndex: int, targetBytes: seq<int>) returns (indexToTargetByte: Window)
    ensures indexToTargetByte == m + SliceMap(beginIndex, targetBytes)
  {
    indexToTargetByte := m;
    var index := beginIndex;
    for k := 0 to |targetBytes|
      invariant index == beginIndex + k
      invariant indexToTargetByte == m + SliceMap(beginIndex, targetBytes[..k])
    {
      SliceMapSnoc(indexToTargetByte, m, beginIndex, targetBytes, k);
      indexToTargetByte := indexToTargetByte[index := targetBytes[k]];
      index := index + 1;
    }
    assert targetBytes[..|targetBytes|] == targetBytes;
  }

  /** Writing one more slice extends the map by that slice's bytes. */
  lemma TargetByteMapSnoc(begins: seq<int>, slices: seq<seq<int>>, i: nat)
    requires |slices| == |begins| && i < |begins|
    ensures TargetByteMap(begins[..i + 1], slices[..i + 1]) ==
      TargetByteMap(begins[..i], slices[..i]) + SliceMap(begins[i], slices[i])
  {
    assert begins[..i + 1][..i] == begins[..i] && slices[..i + 1][..i] == slices[..i];
  }

  /** Writing one more byte of a slice extends the map by that byte. */
  lemma SliceMapSnoc(m: Window, before: Window, begin: int, bytes: seq<int>, k: nat)
    requires k < |bytes| && m == before + SliceMap(begin, bytes[..k])
    ensures m[begin + k := bytes[k]] == before + SliceMap(begin, bytes[..k + 1])
  {
    assert bytes[..k + 1][..k] == bytes[..k];
    var s := SliceMap(begin, bytes[..k]);
    assert (before + s)[begin + k := bytes[k]] == before + s[begin + k := bytes[k]];
  }

  /** An index is in the map exactly when some slice reaches it. */
  lemma {:induction false} TargetByteMapDomain(begins: seq<int>, slices: seq<seq<int>>, x: int)
    requires |slices| == |begins|
    ensures x in TargetByteMap(begins, slices) <==>
      exists i :: 0 <= i < |begins| && begins[i] <= x < begins[i] + |slices[i]|
    decreases |begins|
  {
    if begins != [] {
      var n := |begins| - 1;
      var b, sl := begins[..n], slices[..n];
      TargetByteMapDomain(b, sl, x);
      assert TargetByteMap(begins, slices) == TargetByteMap(b, sl) + SliceMap(begins[n], slices[n]);
      assert forall i :: 0 <= i < n ==> b[i] == begins[i] && sl[i] == slices[i];
    }
  }

  /** Every byte in the map is the byte some slice holds at that index. */
  lemma {:induction false} TargetByteMapValue(begins: seq<int>, slices: seq<seq<int>>, x: int)
    requires |slices| == |begins|
    requires x in TargetByteMap(begins, slices)
    ensures exists i :: (0 <= i < |begins| && begins[i] <= x < begins[i] + |slices[i]| &&
      TargetByteMap(begins, slices)[x] == slices[i][x - begins[i]])
    decreases |begins|
  {
    var n := |begins| - 1;
    var b, sl := begins[..n], slices[..n];
    var m := TargetByteMap(begins, slices);
    assert m == TargetByteMap(b, sl) + SliceMap(begins[n], slices[n]);
    if begins[n] <= x < begins[n] + |slices[n]| {
      assert m[x] == slices[n][x - begins[n]];
    } else {
      TargetByteMapValue(b, sl, x);
      var i :| 0 <= i < n && b[i] <= x < b[i] + |sl[i]| && TargetByteMap(b, sl)[x] == sl[i][x - b[i]];
      assert b[i] == begins[i] && sl[i] == slices[i];
    }
  }

  /**
   * A negative index is in the map only when a range with a negative begin
   * reaches it: bytes read from the start of the data never land under a
   * negative key.
   */
  lemma NegativeKeys(ranges: seq<IndexRange>, slices: seq<seq<int>>, x: int)
    requires |slices| == |ranges|
    requires x < 0 && x in TargetByteMap(Begins(ranges), slices)
    ensures exists i :: 0 <= i < |ranges| && ranges[i].begin < 0 && ranges[i].begin <= x < ranges[i].begin + |slices[i]|
  {
    TargetByteMapDomain(Begins(ranges), slices, x);
  }

  /** Each slice fits its range: no more bytes than the range is long, an absent end counting as 0. */
  predicate SlicesFit(ranges: seq<IndexRange>, slices: seq<seq<int>>)
    requires |slices| == |ranges|
  {
    forall i :: 0 <= i < |ranges| ==> |slices[i]| <= EndOrZero(ranges[i]) - ranges[i].begin
  }

  /** Every slice ends at or before the begin of every later slice. */
  predicate Apart(begins: seq<int>, slices: seq<seq<int>>)
    requires |slices| == |begins|
  {
    forall i, j :: 0 <= i < j < |begins| ==> begins[i] + |slices[i]| <= begins[j]
  }

  /** Sorted, disjoint ranges with slices that fit them keep their slices apart. */
  lemma FitsApart(ranges: seq<IndexRange>, slices: seq<seq<int>>)
    requires |slices| == |ranges|
    requires SortedDisjoint(ranges) && SlicesFit(ranges, slices)
    ensures Apart(Begins(ranges), slices)
  {
    var begins := Begins(ranges);
    forall i, j | 0 <= i < j < |begins| ensures begins[i] + |slices[i]| <= begins[j] {
      SortedDisjointApart(ranges, i, j);
    }
  }

  /**
   * When no slice reaches into a later one, no write overrides another:
   * every byte of every slice is in the map under the index it was read for.
   */
  lemma {:induction false} ExactByte(begins: seq<int>, slices: seq<seq<int>>, i: nat, x: int)
    requires |slices| == |begins| && Apart(begins, slices)
    requires i < |begins| && begins[i] <= x < begins[i] + |slices[i]|
    ensures x in TargetByteMap(begins, slices)
    ensures TargetByteMap(begins, slices)[x] == slices[i][x - begins[i]]
    decreases |begins|
  {
    var n := |begins| - 1;
    var before := TargetByteMap(begins[..n], slices[..n]);
    var last := SliceMap(begins[n], slices[n]);
    assert TargetByteMap(begins, slices) == before + last;
    if i < n {
      assert Apart(begins[..n], slices[..n]) by {
        forall a, b | 0 <= a < b < n ensures begins[..n][a] + |slices[..n][a]| <= begins[..n][b] {
          assert begins[..n][a] == begins[a] && slices[..n][a] == slices[a] && begins[..n][b] == begins[b];
        }
      }
      ExactByte(begins[..n], slices[..n], i, x);
      assert begins[..n][i] == begins[i] && slices[..n][i] == slices[i];
      assert x !in last;
      UnionLeft(before, last, x);
    } else {
      assert last[begins[n] + (x - begins[n])] == slices[n][x - begins[n]];
    }
  }

  /** Pairs that one slice holds at their indices all match the map, when no slice reaches into a later one. */
  lemma SliceStored(begins: seq<int>, slices: seq<seq<int>>, i: nat, pairs: seq<Pair>)
    requires |slices| == |begins| && Apart(begins, slices) && i < |begins|
    requires forall j :: 0 <= j < |pairs| ==>
      begins[i] <= pairs[j].0 < begins[i] + |slices[i]| && slices[i][pairs[j].0 - begins[i]] == pairs[j].1
    ensures Matches(pairs, TargetByteMap(begins, slices))
  {
    forall j | 0 <= j < |pairs|
      ensures pairs[j].0 in TargetByteMap(begins, slices) && TargetByteMap(begins, slices)[pairs[j].0] == pairs[j].1
    {
      ExactByte(begins, slices, i, pairs[j].0);
    }
  }

  /** A key only the left map holds keeps its left value in the union. */
  lemma UnionLeft(a: Window, b: Window, x: int)
    requires x in a && x !in b
    ensures x in a + b && (a + b)[x] == a[x]
  {
  }
}
