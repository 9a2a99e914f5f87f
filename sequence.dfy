/**
 * Marker-run sequences (src/core/sequence.ts). A sequence is a flat list of
 * numbers in which a marker (`NaN` in the source) says "the next number is a
 * new running index and the one after it a value"; every other number is a
 * value at the running index, which then moves up by one. A keyed sequence
 * puts its key in front: `[key, ...sequence]`.
 */
module Sequence {
  import opened Matching

  /**
   * One element of a (keyed) sequence. `Marker` stands for the source's `NaN`
   * (and for `undefined` in the later list form), kept apart from every number.
   */
  datatype Cell = Key(name: string) | Marker | Num(value: int)

  /** `[key, ...sequence]`. */
  type KeyedSequence = seq<Cell>

  /** Keyed sequences in table order; a key may appear several times. */
  type KeyedSequenceCollection = seq<KeyedSequence>

  /**
   * From position `i` on there is no key, and every marker is followed by an
   * offset and a value.
   */
  predicate WellFormedFrom(s: seq<Cell>, i: nat)
    requires i <= |s|
    decreases |s| - i
  {
    i == |s| ||
    (s[i].Num? && WellFormedFrom(s, i + 1)) ||
    (s[i].Marker? && i + 3 <= |s| && s[i + 1].Num? && s[i + 2].Num? && WellFormedFrom(s, i + 3))
  }

  predicate WellFormed(s: seq<Cell>)
  {
    WellFormedFrom(s, 0)
  }

  /** A key in front of a well-formed sequence. */
  predicate KeyedWellFormed(e: KeyedSequence)
  {
    1 <= |e| && e[0].Key? && WellFormedFrom(e, 1)
  }

  /** The pairs decoded from position `i` on, with running index `index`. */
  function DecodeFrom(s: seq<Cell>, i: nat, index: int): seq<Pair>
    requires i <= |s| && WellFormedFrom(s, i)
    decreases |s| - i
  {
    if i == |s| then []
    else if s[i].Num? then [(index, s[i].value)] + DecodeFrom(s, i + 1, index + 1)
    else [(s[i + 1].value, s[i + 2].value)] + DecodeFrom(s, i + 3, s[i + 1].value + 1)
  }

  /** What `readSequence` yields: decoding from the start with the running index at 0. */
  function Decode(s: seq<Cell>): seq<Pair>
    requires WellFormed(s)
  {
    DecodeFrom(s, 0, 0)
  }

  /** An entry as (key, what `readKeyedSequence` yields). */
  function DecodeEntry(e: KeyedSequence): (string, seq<Pair>)
    requires KeyedWellFormed(e)
  {
    (e[0].name, DecodeFrom(e, 1, 0))
  }

  /** Every entry decoded, in table order. */
  function DecodeCollection(c: KeyedSequenceCollection): (d: Decoded)
    requires forall i :: 0 <= i < |c| ==> KeyedWellFormed(c[i])
    ensures |d| == |c|
    ensures forall i :: 0 <= i < |c| ==> d[i] == DecodeEntry(c[i])
  {
    seq(|c|, i requires 0 <= i < |c| => DecodeEntry(c[i]))
  }

  /**
   * The reading loop's view of a decoding: the pairs already read, then one
   * pair per value cell from position `i` on, in the loop's own order.
   */
  ghost function ReadFrom(s: seq<Cell>, i: nat, index: int, done: seq<Pair>): seq<Pair>
    requires i <= |s| && WellFormedFrom(s, i)
    decreases |s| - i
  {
    if i == |s| then done
    else if s[i].Num? then ReadFrom(s, i + 1, index + 1, done + [(index, s[i].value)])
    else ReadFrom(s, i + 3, s[i + 1].value + 1, done + [(s[i + 1].value, s[i + 2].value)])
  }

  /** Reading on from `i` after `done` yields `done` followed by the decoding from `i`. */
  lemma {:induction false} ReadFromDecode(s: seq<Cell>, i: nat, index: int, done: seq<Pair>)
    requires i <= |s| && WellFormedFrom(s, i)
    ensures ReadFrom(s, i, index, done) == done + DecodeFrom(s, i, index)
    decreases |s| - i
  {
    if i < |s| {
      var read, next, at := ReadOne(s, i, index, done);
      ReadFromDecode(s, next, at, done + read);
      AppendAssoc(done, read, DecodeFrom(s, next, at));
    } else {
      assert done + [] == done;
    }
  }

  /** The first pair decoded from `i`, where decoding continues after it, and with which index. */
  lemma ReadOne(s: seq<Cell>, i: nat, index: int, done: seq<Pair>) returns (read: seq<Pair>, next: nat, at: int)
    requires i < |s| && WellFormedFrom(s, i)
    ensures i < next <= |s| && WellFormedFrom(s, next)
    ensures ReadFrom(s, i, index, done) == ReadFrom(s, next, at, done + read)
    ensures DecodeFrom(s, i, index) == read + DecodeFrom(s, next, at)
  {
    if s[i].Num? {
      read, next, at := [(index, s[i].value)], i + 1, index + 1;
    } else {
      read, next, at := [(s[i + 1].value, s[i + 2].value)], i + 3, s[i + 1].value + 1;
    }
  }

  /**
   * `_readSequence(s, i)`: the running index starts at 0; a marker reloads it
   * from the next number and takes the number after that as the value; each
   * yield moves the index up by one.
   */
  method ReadSequenceFrom(s: seq<Cell>, start: nat) returns (pairs: seq<Pair>)
    requires start <= |s| && WellFormedFrom(s, start)
    ensures pairs == DecodeFrom(s, start, 0)
  {
    pairs := [];
    var i := start;
    var index := 0;
    while i < |s|
      invariant start <= i <= |s|
      invariant WellFormedFrom(s, i)
      invariant ReadFrom(s, i, index, pairs) == ReadFrom(s, start, 0, [])
    {
      var element := s[i];
      if element.Marker? {
        i := i + 1;
        index := s[i].value;
        i := i + 1;
        element := s[i];
      }
      pairs := pairs + [(index, element.value)];
      index := index + 1;
      i := i + 1;
    }
    ReadFromDecode(s, start, 0, []);
    assert [] + DecodeFrom(s, start, 0) == DecodeFrom(s, start, 0);
  }

  /** `readKeyedSequence`: the sequence after the key. */
  method ReadKeyedSequence(keyedSequence: KeyedSequence) returns (pairs: seq<Pair>)
    requires KeyedWellFormed(keyedSequence)
    ensures pairs == DecodeFrom(keyedSequence, 1, 0)
  {
    pairs := ReadSequenceFrom(keyedSequence, 1);
  }

  /** `readSequence`: the whole sequence. */
  method ReadSequence(sequence: seq<Cell>) returns (pairs: seq<Pair>)
    requires WellFormed(sequence)
    ensures pairs == Decode(sequence)
  {
    pairs := ReadSequenceFrom(sequence, 0);
  }

  /**
   * `matchKeyedSequences`: scans the collection in order, skips keys already
   * recorded, stops comparing an entry at its first mismatch, and records the
   * key of every entry whose pairs all hold in the target.
   */
  method MatchKeyedSequences(target: Window, collection: KeyedSequenceCollection)
    returns (matches: set<string>)
    requires forall i :: 0 <= i < |collection| ==> KeyedWellFormed(collection[i])
    ensures matches == MatchedKeys(DecodeCollection(collection), target)
  {
    ghost var d := DecodeCollection(collection);
    matches := {};
    for i := 0 to |collection|
      invariant matches == MatchedKeys(d[..i], target)
    {
      MatchedKeysSnoc(d, i, target);
      var entry := collection[i];
      var key := entry[0].name;
      if key in matches {
        continue;
      }
      var pairs := ReadKeyedSequence(entry);
      var matched := MatchPairs(pairs, target);
      if matched {
        matches := matches + {key};
      }
    }
    assert d[..|collection|] == d;
  }

  /** A value cell yields its value at the running index, which moves up by one. */
  lemma ValueStep(s: seq<Cell>, k: nat, index: int)
    requires k < |s| && WellFormedFrom(s, k) && s[k].Num?
    ensures WellFormedFrom(s, k + 1)
    ensures DecodeFrom(s, k, index) == [(index, s[k].value)] + DecodeFrom(s, k + 1, index + 1)
  {
  }

  /** A marker yields the value after the offset at the offset, and the running index moves past it. */
  lemma MarkerStep(s: seq<Cell>, k: nat, index: int)
    requires k < |s| && WellFormedFrom(s, k) && s[k].Marker?
    ensures k + 3 <= |s| && s[k + 1].Num? && s[k + 2].Num? && WellFormedFrom(s, k + 3)
    ensures DecodeFrom(s, k, index) == [(s[k + 1].value, s[k + 2].value)] + DecodeFrom(s, k + 3, s[k + 1].value + 1)
  {
  }

  /** Cells put in front of a sequence change neither its well-formedness nor its decoding. */
  lemma {:induction false} DecodeShift(p: seq<Cell>, s: seq<Cell>, i: nat, index: int)
    requires i <= |s| && WellFormedFrom(s, i)
    ensures WellFormedFrom(p + s, |p| + i)
    ensures DecodeFrom(p + s, |p| + i, index) == DecodeFrom(s, i, index)
    decreases |s| - i
  {
    if i < |s| {
      if s[i].Num? {
        DecodeShift(p, s, i + 1, index + 1);
        ValueShift(p, s, i, index);
      } else {
        DecodeShift(p, s, i + 3, s[i + 1].value + 1);
        MarkerShift(p, s, i, index);
      }
    }
  }

  /** A value cell stays a value cell behind the cells put in front. */
  lemma ValueShift(p: seq<Cell>, s: seq<Cell>, i: nat, index: int)
    requires i < |s| && s[i].Num? && WellFormedFrom(s, i + 1)
    requires WellFormedFrom(p + s, |p| + i + 1)
    requires DecodeFrom(p + s, |p| + i + 1, index + 1) == DecodeFrom(s, i + 1, index + 1)
    ensures WellFormedFrom(p + s, |p| + i)
    ensures DecodeFrom(p + s, |p| + i, index) == DecodeFrom(s, i, index)
  {
    var ps := p + s;
    assert ps[|p| + i] == s[i];
    ValueStep(ps, |p| + i, index);
    ValueStep(s, i, index);
  }

  /** A marker with its offset and value stays one behind the cells put in front. */
  lemma MarkerShift(p: seq<Cell>, s: seq<Cell>, i: nat, index: int)
    requires i + 3 <= |s| && s[i].Marker? && s[i + 1].Num? && s[i + 2].Num? && WellFormedFrom(s, i + 3)
    requires WellFormedFrom(p + s, |p| + i + 3)
    requires DecodeFrom(p + s, |p| + i + 3, s[i + 1].value + 1) == DecodeFrom(s, i + 3, s[i + 1].value + 1)
    ensures WellFormedFrom(p + s, |p| + i)
    ensures DecodeFrom(p + s, |p| + i, index) == DecodeFrom(s, i, index)
  {
    var ps := p + s;
    assert ps[|p| + i] == s[i] && ps[|p| + i + 1] == s[i + 1] && ps[|p| + i + 2] == s[i + 2];
    MarkerStep(ps, |p| + i, index);
    MarkerStep(s, i, index);
  }

  /** `readKeyedSequence([key, ...s])` yields exactly what `readSequence(s)` yields. */
  lemma KeyedSequenceSkipsKey(key: string, s: seq<Cell>)
    requires WellFormed(s)
    ensures KeyedWellFormed([Key(key)] + s)
    ensures DecodeFrom([Key(key)] + s, 1, 0) == Decode(s)
  {
    DecodeShift([Key(key)], s, 0, 0);
  }

  /** Reading a keyed sequence from position 1 is reading its tail `entry.slice(1)` from 0. */
  lemma KeyedSequenceTail(e: KeyedSequence)
    requires KeyedWellFormed(e)
    ensures WellFormed(e[1..])
    ensures Decode(e[1..]) == DecodeFrom(e, 1, 0)
  {
    assert e == [e[0]] + e[1..];
    WellFormedTail(e, 1);
    DecodeShift([e[0]], e[1..], 0, 0);
  }

  /** The suffix from a well-formed position is itself well-formed. */
  lemma {:induction false} WellFormedTail(s: seq<Cell>, i: nat)
    requires i <= |s| && WellFormedFrom(s, i)
    ensures WellFormed(s[i..])
  {
    WellFormedSuffix(s, i, i);
  }

  lemma {:induction false} WellFormedSuffix(s: seq<Cell>, base: nat, i: nat)
    requires base <= i <= |s| && WellFormedFrom(s, i)
    ensures WellFormedFrom(s[base..], i - base)
    decreases |s| - i
  {
    if i < |s| {
      if s[i].Num? {
        WellFormedSuffix(s, base, i + 1);
      } else {
        WellFormedSuffix(s, base, i + 3);
      }
    }
  }

  /** The markers from `i` on are the one at `i`, if any, and those after it. */
  lemma MarkersFrom(s: seq<Cell>, i: nat)
    requires i < |s|
    ensures multiset(s[i..])[Marker] == multiset(s[i + 1..])[Marker] + (if s[i] == Marker then 1 else 0)
  {
    assert s[i..] == [s[i]] + s[i + 1..];
  }

  /**
   * Every cell that is neither a marker nor an offset yields exactly one pair:
   * the number of pairs is the number of cells less two per marker.
   */
  lemma {:induction false} DecodeLength(s: seq<Cell>, i: nat, index: int)
    requires i <= |s| && WellFormedFrom(s, i)
    ensures |DecodeFrom(s, i, index)| == |s| - i - 2 * multiset(s[i..])[Marker]
    decreases |s| - i
  {
    if i < |s| {
      MarkersFrom(s, i);
      if s[i].Num? {
        ValueStep(s, i, index);
        DecodeLength(s, i + 1, index + 1);
      } else {
        MarkerStep(s, i, index);
        MarkersFrom(s, i + 1);
        MarkersFrom(s, i + 2);
        DecodeLength(s, i + 3, s[i + 1].value + 1);
      }
    }
  }

  /**
   * After the first part, a second part that starts with a marker (or is
   * empty) decodes as it does alone, whatever the running index.
   */
  lemma DecodeAfter(a: seq<Cell>, b: seq<Cell>, index: int, index': int)
    requires WellFormed(b) && (b == [] || b[0].Marker?)
    ensures WellFormedFrom(a + b, |a|)
    ensures DecodeFrom(a + b, |a|, index) == DecodeFrom(b, 0, index')
  {
    var ab := a + b;
    DecodeShift(a, b, 0, index);
    if b != [] {
      assert ab[|a|] == b[0] && ab[|a| + 1] == b[1] && ab[|a| + 2] == b[2];
      MarkerStep(b, 0, index');
      MarkerStep(ab, |a|, index);
      DecodeShift(a, b, 3, b[1].value + 1);
    }
  }

  /** A value cell of the first part is a value cell of the whole. */
  lemma ValueAppend(a: seq<Cell>, b: seq<Cell>, i: nat, index: int, tail: seq<Pair>)
    requires i < |a| && a[i].Num? && WellFormedFrom(a, i + 1)
    requires WellFormedFrom(a + b, i + 1)
    requires DecodeFrom(a + b, i + 1, index + 1) == DecodeFrom(a, i + 1, index + 1) + tail
    ensures WellFormedFrom(a + b, i)
    ensures DecodeFrom(a + b, i, index) == DecodeFrom(a, i, index) + tail
  {
    var ab := a + b;
    assert ab[i] == a[i];
    ValueStep(ab, i, index);
    ValueStep(a, i, index);
    AppendAssoc([(index, a[i].value)], DecodeFrom(a, i + 1, index + 1), tail);
  }

  /** A marker of the first part, with its offset and value, is one of the whole. */
  lemma MarkerAppend(a: seq<Cell>, b: seq<Cell>, i: nat, index: int, tail: seq<Pair>)
    requires i + 3 <= |a| && a[i].Marker? && a[i + 1].Num? && a[i + 2].Num? && WellFormedFrom(a, i + 3)
    requires WellFormedFrom(a + b, i + 3)
    requires DecodeFrom(a + b, i + 3, a[i + 1].value + 1) == DecodeFrom(a, i + 3, a[i + 1].value + 1) + tail
    ensures WellFormedFrom(a + b, i)
    ensures DecodeFrom(a + b, i, index) == DecodeFrom(a, i, index) + tail
  {
    var ab := a + b;
    assert ab[i] == a[i] && ab[i + 1] == a[i + 1] && ab[i + 2] == a[i + 2];
    MarkerStep(ab, i, index);
    MarkerStep(a, i, index);
    AppendAssoc([(a[i + 1].value, a[i + 2].value)], DecodeFrom(a, i + 3, a[i + 1].value + 1), tail);
  }

  /**
   * A multi-run sequence decodes run by run: when the second part starts with
   * a marker (or is empty), the running index of the first part does not leak.
   */
  lemma {:induction false} DecodeAppend(a: seq<Cell>, b: seq<Cell>, i: nat, index: int, index': int)
    requires i <= |a| && WellFormedFrom(a, i) && WellFormed(b)
    requires b == [] || b[0].Marker?
    ensures WellFormedFrom(a + b, i)
    ensures DecodeFrom(a + b, i, index) == DecodeFrom(a, i, index) + DecodeFrom(b, 0, index')
    decreases |a| - i
  {
    if i == |a| {
      DecodeAfter(a, b, index, index');
      assert DecodeFrom(a, i, index) == [];
    } else if a[i].Num? {
      DecodeAppend(a, b, i + 1, index + 1, index');
      ValueAppend(a, b, i, index, DecodeFrom(b, 0, index'));
    } else {
      DecodeAppend(a, b, i + 3, a[i + 1].value + 1, index');
      MarkerAppend(a, b, i, index, DecodeFrom(b, 0, index'));
    }
  }
}
