/**
 * Signatures as lists of runs. A run is a start offset and the bytes expected
 * from there on. The source writes the same signatures in two flat layouts:
 * marker runs (`[NaN | undefined, offset, ...bytes]` repeated, read by
 * `readSequence`, `matchKeyedSerials` and the matching loops of guess.ts and
 * find.ts) and sections (`[start, length, ...bytes]` repeated, read by
 * `readSparseArray`). Both layouts are produced here from one run list, and
 * both decoders are shown to read back the run list's pairs.
 */
module Signatures {
  import opened Matching
  import Sequence
  import SparseArray

  /** Bytes expected at `offset`, `offset + 1`, ... */
  datatype Run = Run(offset: int, bytes: seq<int>)

  type Signature = seq<Run>

  /** Keyed signatures in table order; a key may appear several times. */
  type Table = seq<(string, Signature)>

  /** A marker must be followed by an offset and at least one value, so no run is empty. */
  predicate ValidSignature(sig: Signature)
  {
    forall r :: r in sig ==> r.bytes != []
  }

  predicate ValidTable(t: Table)
  {
    forall i :: 0 <= i < |t| ==> ValidSignature(t[i].1)
  }

  /** The (index, expected byte) pairs of a signature, run after run. */
  function Expand(sig: Signature): seq<Pair>
  {
    if sig == [] then [] else SparseArray.Section(sig[0].offset, sig[0].bytes) + Expand(sig[1..])
  }

  /** Every entry with its signature expanded, in table order. */
  function ExpandTable(t: Table): (d: Decoded)
    ensures |d| == |t|
    ensures forall i :: 0 <= i < |t| ==> d[i] == (t[i].0, Expand(t[i].1))
  {
    seq(|t|, i requires 0 <= i < |t| => (t[i].0, Expand(t[i].1)))
  }

  /** Plain value cells. */
  function Nums(bytes: seq<int>): (cells: seq<Sequence.Cell>)
    ensures |cells| == |bytes|
    ensures forall k :: 0 <= k < |bytes| ==> cells[k] == Sequence.Num(bytes[k])
  {
    seq(|bytes|, k requires 0 <= k < |bytes| => Sequence.Num(bytes[k]))
  }

  /** The marker-run layout: `[marker, offset, ...bytes]` for each run. */
  function MarkerForm(sig: Signature): seq<Sequence.Cell>
  {
    if sig == [] then []
    else [Sequence.Marker, Sequence.Num(sig[0].offset)] + Nums(sig[0].bytes) + MarkerForm(sig[1..])
  }

  /** The section layout: `[offset, length, ...bytes]` for each run. */
  function SectionForm(sig: Signature): SparseArray.SparseArray
  {
    if sig == [] then []
    else [sig[0].offset, |sig[0].bytes|] + sig[0].bytes + SectionForm(sig[1..])
  }

  /** A table in the keyed marker layout `[key, marker, offset, ...bytes, ...]`. */
  function MarkerTable(t: Table): (c: Sequence.KeyedSequenceCollection)
    ensures |c| == |t|
    ensures forall i :: 0 <= i < |t| ==> c[i] == [Sequence.Key(t[i].0)] + MarkerForm(t[i].1)
  {
    seq(|t|, i requires 0 <= i < |t| => [Sequence.Key(t[i].0)] + MarkerForm(t[i].1))
  }

  /** A table in the keyed section layout `[key, sparse array]`. */
  function SectionTable(t: Table): (c: SparseArray.SparseArrayCollection)
    ensures |c| == |t|
    ensures forall i :: 0 <= i < |t| ==> c[i] == (t[i].0, SectionForm(t[i].1))
  {
    seq(|t|, i requires 0 <= i < |t| => (t[i].0, SectionForm(t[i].1)))
  }

  /** A section splits into its first pair and the section one index further on. */
  lemma SectionCons(start: int, elements: seq<int>)
    requires elements != []
    ensures SparseArray.Section(start, elements) ==
            [(start, elements[0])] + SparseArray.Section(start + 1, elements[1..])
  {
    var s := SparseArray.Section(start, elements);
    var t := [(start, elements[0])] + SparseArray.Section(start + 1, elements[1..]);
    assert |s| == |t|;
    forall k | 0 <= k < |s| ensures s[k] == t[k] {
      if k > 0 {
        assert t[k] == SparseArray.Section(start + 1, elements[1..])[k - 1];
      }
    }
  }

  /** Value cells alone decode to one section starting at the running index. */
  lemma {:induction false} NumsDecode(bytes: seq<int>, i: nat, index: int)
    requires i <= |bytes|
    ensures Sequence.WellFormedFrom(Nums(bytes), i)
    ensures Sequence.DecodeFrom(Nums(bytes), i, index) == SparseArray.Section(index, bytes[i..])
    decreases |bytes| - i
  {
    if i < |bytes| {
      NumsDecode(bytes, i + 1, index + 1);
      SectionCons(index, bytes[i..]);
      assert bytes[i..][1..] == bytes[i + 1..];
    } else {
      assert bytes[i..] == [];
    }
  }

  /** The marker layout starts with a marker unless it is empty. */
  lemma MarkerFormHead(sig: Signature)
    ensures MarkerForm(sig) == [] || MarkerForm(sig)[0] == Sequence.Marker
  {
  }

  /** One marker run `[marker, offset, ...bytes]` decodes to its bytes from `offset` upward. */
  lemma MarkerRunDecodes(r: Run, index: int)
    requires r.bytes != []
    ensures Sequence.WellFormed([Sequence.Marker, Sequence.Num(r.offset)] + Nums(r.bytes))
    ensures Sequence.DecodeFrom([Sequence.Marker, Sequence.Num(r.offset)] + Nums(r.bytes), 0, index) ==
            SparseArray.Section(r.offset, r.bytes)
  {
    var head := [Sequence.Marker, Sequence.Num(r.offset)];
    var a := head + Nums(r.bytes);
    NumsDecode(r.bytes, 1, r.offset + 1);
    Sequence.DecodeShift(head, Nums(r.bytes), 1, r.offset + 1);
    assert a[1] == Sequence.Num(r.offset) && a[2] == Sequence.Num(r.bytes[0]);
    SectionCons(r.offset, r.bytes);
  }

  /** Round trip: the marker layout of a signature decodes back to the signature's pairs. */
  lemma {:induction false} MarkerFormDecodes(sig: Signature)
    requires ValidSignature(sig)
    ensures Sequence.WellFormed(MarkerForm(sig))
    ensures Sequence.Decode(MarkerForm(sig)) == Expand(sig)
  {
    if sig != [] {
      var a := [Sequence.Marker, Sequence.Num(sig[0].offset)] + Nums(sig[0].bytes);
      var b := MarkerForm(sig[1..]);
      assert sig[0] in sig;
      MarkerRunDecodes(sig[0], 0);
      MarkerFormDecodes(sig[1..]);
      MarkerFormHead(sig[1..]);
      Sequence.DecodeAppend(a, b, 0, 0, 0);
      assert MarkerForm(sig) == a + b;
    }
  }

  /** Round trip: the section layout of a signature decodes back to the signature's pairs. */
  lemma {:induction false} SectionFormDecodes(sig: Signature)
    ensures SparseArray.WellFormed(SectionForm(sig))
    ensures SparseArray.Sections(SectionForm(sig)) == Expand(sig)
  {
    if sig != [] {
      SectionFormDecodes(sig[1..]);
      SparseArray.SectionFirst(sig[0].offset, sig[0].bytes, SectionForm(sig[1..]));
    }
  }

  /** Every entry of the keyed marker layout is well-formed and decodes to its run list's pairs. */
  lemma MarkerTableDecodes(t: Table)
    requires ValidTable(t)
    ensures forall i :: 0 <= i < |t| ==> Sequence.KeyedWellFormed(MarkerTable(t)[i])
    ensures Sequence.DecodeCollection(MarkerTable(t)) == ExpandTable(t)
  {
    var c := MarkerTable(t);
    forall i | 0 <= i < |t|
      ensures Sequence.KeyedWellFormed(c[i]) && Sequence.DecodeEntry(c[i]) == ExpandTable(t)[i]
    {
      MarkerFormDecodes(t[i].1);
      Sequence.KeyedSequenceSkipsKey(t[i].0, MarkerForm(t[i].1));
    }
  }

  /** Every entry of the keyed section layout is well-formed and decodes to its run list's pairs. */
  lemma SectionTableDecodes(t: Table)
    ensures forall i :: 0 <= i < |t| ==> SparseArray.WellFormed(SectionTable(t)[i].1)
    ensures SparseArray.DecodeCollection(SectionTable(t)) == ExpandTable(t)
  {
    var c := SectionTable(t);
    forall i | 0 <= i < |t|
      ensures SparseArray.WellFormed(c[i].1) && SparseArray.Sections(c[i].1) == Expand(t[i].1)
    {
      SectionFormDecodes(t[i].1);
    }
  }

  /**
   * The three encodings agree: on the same table and window, the marker
   * layout and the section layout are matched to the same keys.
   */
  lemma LayoutsMatchAlike(t: Table, w: Window)
    requires ValidTable(t)
    ensures forall i :: 0 <= i < |t| ==> Sequence.KeyedWellFormed(MarkerTable(t)[i])
    ensures forall i :: 0 <= i < |t| ==> SparseArray.WellFormed(SectionTable(t)[i].1)
    ensures MatchedKeys(Sequence.DecodeCollection(MarkerTable(t)), w) ==
            MatchedKeys(SparseArray.DecodeCollection(SectionTable(t)), w)
  {
    MarkerTableDecodes(t);
    SectionTableDecodes(t);
  }

  /** `lo, lo + 1, .., hi - 1`. */
  function Interval(lo: int, hi: int): (s: set<int>)
    ensures forall x :: x in s <==> lo <= x < hi
    decreases hi - lo
  {
    if lo >= hi then {} else {lo} + Interval(lo + 1, hi)
  }

  /** The indices a signature reads, run by run. */
  function SigIndices(sig: Signature): set<int>
  {
    if sig == [] then {} else Interval(sig[0].offset, sig[0].offset + |sig[0].bytes|) + SigIndices(sig[1..])
  }

  /** Every entry has at least one run and every run at least one byte. */
  predicate WellWritten(t: Table)
  {
    forall i :: 0 <= i < |t| ==> t[i].1 != [] && ValidSignature(t[i].1)
  }

  /** Every run of every entry lies inside `s`. */
  predicate ReadsWithin(t: Table, s: set<int>)
  {
    forall i, r :: 0 <= i < |t| && r in t[i].1 ==> Interval(r.offset, r.offset + |r.bytes|) <= s
  }

  /** Every key of the table is in `s`. */
  predicate KeysWithin(t: Table, s: set<string>)
  {
    forall i :: 0 <= i < |t| ==> t[i].0 in s
  }

  /** A table whose keys all lie in `s` matches only keys in `s`, whatever the window. */
  lemma MatchedKeysWithin(t: Table, s: set<string>, w: Window)
    requires KeysWithin(t, s)
    ensures MatchedKeys(ExpandTable(t), w) <= s
  {
    var d := ExpandTable(t);
    MatchedKeysWithinKeys(d, w);
    forall k | k in Keys(d) ensures k in s {
      var i :| 0 <= i < |d| && d[i].0 == k;
    }
  }

  /** An index is read by a signature exactly when it lies in one of its runs. */
  lemma {:induction false} SigIndicesIff(sig: Signature, x: int)
    ensures x in SigIndices(sig) <==> exists r :: r in sig && r.offset <= x < r.offset + |r.bytes|
  {
    if sig != [] {
      SigIndicesIff(sig[1..], x);
      if exists r :: r in sig[1..] && r.offset <= x < r.offset + |r.bytes| {
        var r :| r in sig[1..] && r.offset <= x < r.offset + |r.bytes|;
        assert r in sig;
      }
      if exists r :: r in sig && r.offset <= x < r.offset + |r.bytes| {
        var r :| r in sig && r.offset <= x < r.offset + |r.bytes|;
        assert r == sig[0] || r in sig[1..];
      }
    }
  }

  /** The decoded pairs of a signature read exactly the indices its runs cover. */
  lemma {:induction false} ExpandIndices(sig: Signature, x: int)
    ensures (exists j :: 0 <= j < |Expand(sig)| && Expand(sig)[j].0 == x) <==> x in SigIndices(sig)
  {
    if sig != [] {
      ExpandIndices(sig[1..], x);
      var head := SparseArray.Section(sig[0].offset, sig[0].bytes);
      assert Expand(sig) == head + Expand(sig[1..]);
      if exists j :: 0 <= j < |Expand(sig)| && Expand(sig)[j].0 == x {
        var j :| 0 <= j < |Expand(sig)| && Expand(sig)[j].0 == x;
        if j >= |head| {
          assert Expand(sig[1..])[j - |head|].0 == x;
        }
      }
      if x in SigIndices(sig) {
        if sig[0].offset <= x < sig[0].offset + |sig[0].bytes| {
          assert Expand(sig)[x - sig[0].offset].0 == x;
        } else {
          var j :| 0 <= j < |Expand(sig[1..])| && Expand(sig[1..])[j].0 == x;
          assert Expand(sig)[|head| + j].0 == x;
        }
      }
    }
  }

  /** A table whose runs all lie inside `s` is decoded to indices inside `s` only. */
  lemma ReadsWithinDecoded(t: Table, s: set<int>)
    requires ReadsWithin(t, s)
    ensures DecodedIndices(ExpandTable(t)) <= s
  {
    var d := ExpandTable(t);
    forall x | x in DecodedIndices(d) ensures x in s {
      var i, j :| 0 <= i < |d| && 0 <= j < |d[i].1| && d[i].1[j].0 == x;
      assert d[i].1 == Expand(t[i].1);
      ExpandIndices(t[i].1, x);
      SigIndicesIff(t[i].1, x);
      var r :| r in t[i].1 && r.offset <= x < r.offset + |r.bytes|;
      assert x in Interval(r.offset, r.offset + |r.bytes|);
    }
  }

  /** A table whose runs lie inside `s` and that reads every index of `s` is decoded to exactly `s`. */
  lemma DecodedIsCovered(t: Table, s: set<int>)
    requires ReadsWithin(t, s)
    requires forall x :: x in s ==> x in DecodedIndices(ExpandTable(t))
    ensures DecodedIndices(ExpandTable(t)) == s
  {
    var d := DecodedIndices(ExpandTable(t));
    ReadsWithinDecoded(t, s);
    forall x | x in s ensures x in d {
    }
    assert s <= d <= s;
  }

  /** Every index of every run of an entry is decoded from the table. */
  lemma RunDecoded(t: Table, i: nat, j: nat)
    requires i < |t| && j < |t[i].1|
    ensures Interval(t[i].1[j].offset, t[i].1[j].offset + |t[i].1[j].bytes|) <= DecodedIndices(ExpandTable(t))
  {
    var d := ExpandTable(t);
    var r := t[i].1[j];
    forall x | r.offset <= x < r.offset + |r.bytes| ensures x in DecodedIndices(d) {
      SigIndicesIff(t[i].1, x);
      ExpandIndices(t[i].1, x);
      var k :| 0 <= k < |d[i].1| && d[i].1[k].0 == x;
    }
  }

  /** The table-wide properties carry over to two tables put one after the other. */
  lemma WellWrittenAppend(a: Table, b: Table, s: set<int>, keys: set<string>)
    ensures WellWritten(a) && WellWritten(b) ==> WellWritten(a + b)
    ensures ReadsWithin(a, s) && ReadsWithin(b, s) ==> ReadsWithin(a + b, s)
    ensures KeysWithin(a, keys) && KeysWithin(b, keys) ==> KeysWithin(a + b, keys)
  {
    forall i | |a| <= i < |a + b| ensures (a + b)[i] == b[i - |a|] {
    }
  }

  /** Tables that decode alike are matched alike: the expanded table of `a + b` is the two expanded tables. */
  lemma ExpandTableAppend(a: Table, b: Table)
    ensures ExpandTable(a + b) == ExpandTable(a) + ExpandTable(b)
  {
  }
}
