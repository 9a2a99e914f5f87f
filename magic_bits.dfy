/**
 * Guessing by magic bits (src/feat/MediaType/guess/byMagicBits.ts): a copy of
 * the first `magicMaskedBytesOffsetEnd` bytes is masked in place, index by
 * index, and then matched against the masked signatures.
 */
module MagicBits {
  import opened Matching
  import opened Signatures
  import opened MagicNumbers
  import opened Bits
  import SparseArray

  /** Every element is an unsigned 8-bit value, as in a `Uint8Array`. */
  predicate IsBytes(s: seq<int>)
  {
    forall i :: 0 <= i < |s| ==> 0 <= s[i] < 256
  }

  /** `maskedBytes[offset] &= mask`: a store outside the array's bounds changes nothing. */
  function MaskAt(bytes: seq<int>, p: Pair): (r: seq<int>)
    requires IsBytes(bytes) && 0 <= p.1 < 256
    ensures IsBytes(r) && |r| == |bytes|
    ensures forall i :: 0 <= i < |bytes| && i != p.0 ==> r[i] == bytes[i]
    ensures 0 <= p.0 < |bytes| ==> r[p.0] == And(bytes[p.0], p.1)
  {
    if 0 <= p.0 < |bytes| then bytes[p.0 := And(bytes[p.0], p.1)] else bytes
  }

  /** Mask values are bytes. */
  predicate MaskBytes(masks: seq<Pair>)
  {
    forall j :: 0 <= j < |masks| ==> 0 <= masks[j].1 < 256
  }

  /** The masks applied one after the other, in order. */
  function ApplyMasks(bytes: seq<int>, masks: seq<Pair>): (r: seq<int>)
    requires IsBytes(bytes) && MaskBytes(masks)
    ensures IsBytes(r) && |r| == |bytes|
    ensures forall i :: 0 <= i < |bytes| && (forall j :: 0 <= j < |masks| ==> masks[j].0 != i) ==> r[i] == bytes[i]
  {
    if masks == [] then bytes
    else MaskAt(ApplyMasks(bytes, masks[..|masks| - 1]), masks[|masks| - 1])
  }

  /** A position that exactly one mask names ends up as its old byte AND that mask. */
  lemma {:induction false} MaskedValue(bytes: seq<int>, masks: seq<Pair>, i: int, j: nat)
    requires IsBytes(bytes) && MaskBytes(masks)
    requires j < |masks| && masks[j].0 == i && 0 <= i < |bytes|
    requires forall k :: 0 <= k < |masks| && k != j ==> masks[k].0 != i
    ensures ApplyMasks(bytes, masks)[i] == And(bytes[i], masks[j].1)
    decreases |masks|
  {
    var n := |masks| - 1;
    if j < n {
      MaskedValue(bytes, masks[..n], i, j);
    }
  }

  /** The length of the copy: `data.slice(0, magicMaskedBytesOffsetEnd)` keeps at most that many bytes. */
  function CopyLength(n: nat): (r: nat)
    ensures r <= n && r <= MagicMaskedBytesOffsetEnd
    ensures r == n || r == MagicMaskedBytesOffsetEnd
  {
    if n < MagicMaskedBytesOffsetEnd then n else MagicMaskedBytesOffsetEnd
  }

  /**
   * The bytes the source matches: the copied prefix under the masks. The first
   * byte is kept whole (`& 0xff`), the second keeps its top three bits
   * (`& 0xe0`).
   */
  function MaskedBytes(data: seq<int>): (r: seq<int>)
    requires IsBytes(data)
    ensures IsBytes(r) && |r| == CopyLength(|data|)
    ensures |data| >= 1 ==> r[0] == data[0]
    ensures |data| >= 2 ==> r[1] == And(data[1], 0xe0)
  {
    MasksIndices();
    var masks := Expand(MagicMasks);
    var prefix := data[..CopyLength(|data|)];
    var r := ApplyMasks(prefix, masks);
    assert ApplyMasks(prefix, masks[..1]) == MaskAt(prefix, (0, 0xff));
    assert |data| >= 1 ==> r[0] == And(data[0], 0xff) == data[0] by {
      if |data| >= 1 {
        AndAllOnes(data[0]);
      }
    }
    r
  }

  /**
   * `guessMediaTypesByMagicBits`: copies the prefix, masks the copy in place and
   * matches it. The data itself is not changed. The result is `audio/mpeg`
   * exactly when the data holds an MPEG audio frame sync: a first byte `0xff`
   * and a second byte whose top three bits are set.
   */
  method GuessMediaTypesByMagicBits(data: array<int>) returns (mediaTypes: set<string>)
    requires IsBytes(data[..])
    ensures mediaTypes == MatchedKeys(ExpandTable(MediaTypeAndMagicMaskedBytes), ArrayWindow(MaskedBytes(data[..])))
    ensures "audio/mpeg" in mediaTypes <==>
      (data.Length >= 2 && data[0] == 0xff && And(data[1], 0xe0) == 0xe0)
    ensures mediaTypes <= {"audio/mpeg"}
  {
    var maskedBytes := Slice(data, MagicMaskedBytesOffsetEnd);
    SectionFormDecodes(MagicMasks);
    MasksIndices();
    var masks := SparseArray.ReadSparseArray(SectionForm(MagicMasks));
    MaskInPlace(maskedBytes, masks);
    SectionTableDecodes(MediaTypeAndMagicMaskedBytes);
    mediaTypes := SparseArray.MatchSparseArrayCollection(SectionTable(MediaTypeAndMagicMaskedBytes), ArrayWindow(maskedBytes[..]));
    MaskedMatch(data[..]);
  }

  /** `data.slice(0, end)`: a fresh array holding the first `end` bytes, or all of them when there are fewer. */
  method Slice(data: array<int>, end: nat) returns (copy: array<int>)
    ensures fresh(copy)
    ensures copy[..] == data[..if data.Length < end then data.Length else end]
  {
    var n := if data.Length < end then data.Length else end;
    copy := new int[n];
    forall i | 0 <= i < n {
      copy[i] := data[i];
    }
  }

  /** `for (const [offset, mask] of masks) bytes[offset] &= mask`, in place. */
  method MaskInPlace(bytes: array<int>, masks: seq<Pair>)
    requires IsBytes(bytes[..]) && MaskBytes(masks)
    modifies bytes
    ensures bytes[..] == ApplyMasks(old(bytes[..]), masks)
  {
    ghost var original := bytes[..];
    for j := 0 to |masks|
      invariant bytes[..] == ApplyMasks(original, masks[..j])
    {
      var (offset, mask) := masks[j];
      assert masks[..j + 1][..j] == masks[..j];
      if 0 <= offset < bytes.Length {
        bytes[offset] := And(bytes[offset], mask);
      }
    }
    assert masks[..|masks|] == masks;
  }

  /** The masked signature matches exactly the data with an MPEG audio frame sync. */
  lemma MaskedMatch(data: seq<int>)
    requires IsBytes(data)
    ensures var found := MatchedKeys(ExpandTable(MediaTypeAndMagicMaskedBytes), ArrayWindow(MaskedBytes(data)));
      found <= {"audio/mpeg"} &&
      ("audio/mpeg" in found <==> |data| >= 2 && data[0] == 0xff && And(data[1], 0xe0) == 0xe0)
  {
    MaskedBytesIndices();
    var d := ExpandTable(MediaTypeAndMagicMaskedBytes);
    var w := ArrayWindow(MaskedBytes(data));
    MatchedKeysWithinKeys(d, w);
    MatchedKeysIff(d, w, "audio/mpeg");
    var pairs := [(0, 0xff), (1, 0xe0)];
    MatchesCons((0, 0xff), [(1, 0xe0)], w);
    MatchesCons((1, 0xe0), [], w);
    assert [(0, 0xff)] + [(1, 0xe0)] == pairs;
    assert [(1, 0xe0)] + [] == [(1, 0xe0)];
    assert Matches([], w);
    assert Keys(d) == {"audio/mpeg"} by {
      assert d[0].0 == "audio/mpeg";
    }
  }

  /** Data shorter than two bytes never shows a frame sync. */
  lemma ShortDataMatchesNothing(data: seq<int>)
    requires IsBytes(data) && |data| < MagicMaskedBytesOffsetEnd
    ensures MatchedKeys(ExpandTable(MediaTypeAndMagicMaskedBytes), ArrayWindow(MaskedBytes(data))) == {}
  {
    MaskedMatch(data);
  }

  /** The mask ignores the low five bits of the second byte: `ff e0` through `ff ff` all match. */
  lemma LowBitsIgnored(data: seq<int>, low: int)
    requires IsBytes(data) && |data| >= 2 && data[0] == 0xff && data[1] == 0xe0 + low && 0 <= low < 32
    ensures "audio/mpeg" in MatchedKeys(ExpandTable(MediaTypeAndMagicMaskedBytes), ArrayWindow(MaskedBytes(data)))
  {
    MaskedMatch(data);
    TopBitsKept(low);
  }

  /** A second byte without all of its top three bits set rules the frame sync out. */
  lemma HighBitsNeeded(data: seq<int>)
    requires IsBytes(data) && |data| >= 2 && data[1] < 0xe0
    ensures MatchedKeys(ExpandTable(MediaTypeAndMagicMaskedBytes), ArrayWindow(MaskedBytes(data))) == {}
  {
    MaskedMatch(data);
    TopBitsMissing(data[1]);
  }
}
