/**
 * Keyed serials (src/core/serial.ts): the same marker-run layout as keyed
 * sequences, matched by a loop that decodes inline instead of calling the
 * sequence reader.
 */
module Serial {
  import opened Matching
  import opened Sequence

  /**
   * The inner walk of `matchKeyedSerials` over `entry.slice(1)`: the running
   * index starts at 0, a marker reloads it and takes the next scalar, and each
   * scalar is compared with `target[index++]` until the first mismatch. It
   * reports whether every decoded pair is present in the target with equal
   * value.
   */
  method MatchSerial(serial: seq<Cell>, target: Window) returns (matched: bool)
    requires WellFormed(serial)
    ensures matched <==> Matches(Decode(serial), target)
  {
    matched := true;
    // the source's inner `i`
    var k := 0;
    var index := 0;
    while k < |serial|
      invariant 0 <= k <= |serial|
      invariant WellFormedFrom(serial, k)
      invariant Matches(Decode(serial), target) <==> Matches(DecodeFrom(serial, k, index), target)
    {
      var scalar := serial[k];
      if scalar.Marker? {
        MarkerStep(serial, k, index);
        k := k + 1;
        index := serial[k].value;
        k := k + 1;
        scalar := serial[k];
      } else {
        ValueStep(serial, k, index);
      }
      MatchesCons((index, scalar.value), DecodeFrom(serial, k + 1, index + 1), target);
      if !(index in target && target[index] == scalar.value) {
        matched := false;
        break;
      }
      index := index + 1;
      k := k + 1;
    }
  }

  /**
   * `matchKeyedSerials`: for each entry whose key is not recorded yet, walks
   * `entry.slice(1)` with `MatchSerial` and records the key when every pair
   * matched. It records exactly the keys that `matchKeyedSequences` records
   * for the same collection and target.
   */
  method MatchKeyedSerials(target: Window, collection: KeyedSequenceCollection)
    returns (matches: set<string>)
    requires forall i :: 0 <= i < |collection| ==> KeyedWellFormed(collection[i])
    ensures matches == MatchedKeys(DecodeCollection(collection), target)
  {
    ghost var d := DecodeCollection(collection);
    matches := {};
    for i := 0 to |collection|
      invariant matches == MatchedKeys(d[..i], target)
    {
      MatchedKeysSnoc(d, i, target);
      var entry := collection[i];
      var key := entry[0].name;
      if key in matches {
        continue;
      }
      KeyedSequenceTail(entry);
      var matched := MatchSerial(entry[1..], target);
      if matched {
        matches := matches + {key};
      }
    }
    assert d[..|collection|] == d;
  }
}
