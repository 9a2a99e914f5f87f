/**
 * Sparse arrays (src/core/sparseArray.ts): a flat list of sections
 * `start, length, e1 .. e_length`, decoded into `(start + k, e_(k+1))` pairs,
 * and the keyed matcher over a collection of them.
 */
module SparseArray {
  import opened Matching

  /** `[start, length, ...elements]` repeated, section after section. */
  type SparseArray = seq<int>

  /** `[key, sparse array]` pairs in table order; a key may appear several times. */
  type SparseArrayCollection = seq<(string, SparseArray)>

  /**
   * From position `i` on, each section has a start, a length that is not
   * negative, and that many elements.
   */
  predicate WellFormedFrom(s: SparseArray, i: nat)
    requires i <= |s|
    decreases |s| - i
  {
    i == |s| || (i + 2 <= |s| && 0 <= s[i + 1] && i + 2 + s[i + 1] <= |s| && WellFormedFrom(s, i + 2 + s[i + 1]))
  }

  predicate WellFormed(s: SparseArray)
  {
    WellFormedFrom(s, 0)
  }

  /** The pairs of one section: the elements at consecutive indices from `start` upward. */
  function Section(start: int, elements: seq<int>): seq<Pair>
  {
    seq(|elements|, k requires 0 <= k < |elements| => (start + k, elements[k]))
  }

  /** What `readSparseArray` yields from the section that starts at position `i` on. */
  function SectionsFrom(s: SparseArray, i: nat): seq<Pair>
    requires i <= |s| && WellFormedFrom(s, i)
    decreases |s| - i
  {
    if i == |s| then [] else Section(s[i], s[i + 2..i + 2 + s[i + 1]]) + SectionsFrom(s, i + 2 + s[i + 1])
  }

  /** What `readSparseArray` yields. */
  function Sections(s: SparseArray): seq<Pair>
    requires WellFormed(s)
  {
    SectionsFrom(s, 0)
  }

  /** The sum of the section lengths from position `i` on. */
  function LengthSumFrom(s: SparseArray, i: nat): nat
    requires i <= |s| && WellFormedFrom(s, i)
    decreases |s| - i
  {
    if i == |s| then 0 else s[i + 1] + LengthSumFrom(s, i + 2 + s[i + 1])
  }

  /** Every entry decoded, in table order. */
  function DecodeCollection(c: SparseArrayCollection): (d: Decoded)
    requires forall i :: 0 <= i < |c| ==> WellFormed(c[i].1)
    ensures |d| == |c|
    ensures forall i :: 0 <= i < |c| ==> d[i] == (c[i].0, Sections(c[i].1))
  {
    seq(|c|, i requires 0 <= i < |c| => (c[i].0, Sections(c[i].1)))
  }

  /**
   * `readSparseArray`: the outer loop reads a section header, the inner loop
   * yields the section's elements at increasing indices.
   */
  method ReadSparseArray(source: SparseArray) returns (pairs: seq<Pair>)
    requires WellFormed(source)
    ensures pairs == Sections(source)
  {
    pairs := [];
    var i := 0;
    while i < |source|
      invariant 0 <= i <= |source|
      invariant WellFormedFrom(source, i)
      invariant ReadSectionsFrom(source, i, pairs) == ReadSectionsFrom(source, 0, [])
    {
      ghost var head := i;
      ghost var before := pairs;
      ReadSection(source, i, pairs);
      var index := source[i];
      i := i + 1;
      var length := source[i];
      length := length + 1;
      var end := i + length;
      i := i + 1;
      while i < end
        invariant head + 2 <= i <= end == head + 2 + source[head + 1] <= |source|
        invariant index == source[head] + (i - head - 2)
        invariant pairs == before + Section(source[head], source[head + 2..i])
      {
        var element := source[i];
        SectionSnoc(before, source[head], source, head + 2, i);
        pairs := pairs + [(index, element)];
        index := index + 1;
        i := i + 1;
      }
    }
    ReadSectionsDecode(source, 0, []);
    assert [] + Sections(source) == Sections(source);
  }

  /**
   * The reading loop's view of a decoding: the pairs already read, then the
   * sections from position `i` on, one after the other.
   */
  ghost function ReadSectionsFrom(s: SparseArray, i: nat, done: seq<Pair>): seq<Pair>
    requires i <= |s| && WellFormedFrom(s, i)
    decreases |s| - i
  {
    if i == |s| then done
    else ReadSectionsFrom(s, i + 2 + s[i + 1], done + Section(s[i], s[i + 2..i + 2 + s[i + 1]]))
  }

  /**
   * One turn of the outer loop: the section at `i` has a header and a length
   * that is not negative, and reading goes on after its elements.
   */
  lemma ReadSection(s: SparseArray, i: nat, done: seq<Pair>)
    requires i < |s| && WellFormedFrom(s, i)
    ensures i + 2 <= |s| && 0 <= s[i + 1] && i + 2 + s[i + 1] <= |s| && WellFormedFrom(s, i + 2 + s[i + 1])
    ensures ReadSectionsFrom(s, i, done) == ReadSectionsFrom(s, i + 2 + s[i + 1], done + Section(s[i], s[i + 2..i + 2 + s[i + 1]]))
    ensures SectionsFrom(s, i) == Section(s[i], s[i + 2..i + 2 + s[i + 1]]) + SectionsFrom(s, i + 2 + s[i + 1])
  {
  }

  /** The pairs already read followed by the rest of the loop's reading are those pairs followed by the decoding from `i`. */
  lemma {:induction false} ReadSectionsDecode(s: SparseArray, i: nat, done: seq<Pair>)
    requires i <= |s| && WellFormedFrom(s, i)
    ensures ReadSectionsFrom(s, i, done) == done + SectionsFrom(s, i)
    decreases |s| - i
  {
    if i < |s| {
      ReadSection(s, i, done);
      var n := i + 2 + s[i + 1];
      var section := Section(s[i], s[i + 2..n]);
      ReadSectionsDecode(s, n, done + section);
      AppendAssoc(done, section, SectionsFrom(s, n));
    } else {
      assert done + [] == done;
    }
  }

  /** One more element extends a section, and so what is read so far, by one pair. */
  lemma SectionSnoc(done: seq<Pair>, start: int, s: seq<int>, lo: nat, hi: nat)
    requires lo <= hi < |s|
    ensures done + Section(start, s[lo..hi + 1]) == done + Section(start, s[lo..hi]) + [(start + (hi - lo), s[hi])]
  {
    AppendAssoc(done, Section(start, s[lo..hi]), [(start + (hi - lo), s[hi])]);
  }

  /**
   * `matchSparseArrayCollection`: scans the collection in order, skips keys
   * already recorded, stops comparing an entry at its first mismatch, and
   * records the key of every entry whose pairs all hold in the pattern.
   */
  method MatchSparseArrayCollection(collection: SparseArrayCollection, pattern: Window)
    returns (matches: set<string>)
    requires forall i :: 0 <= i < |collection| ==> WellFormed(collection[i].1)
    ensures matches == MatchedKeys(DecodeCollection(collection), pattern)
  {
    ghost var d := DecodeCollection(collection);
    matches := {};
    for i := 0 to |collection|
      invariant matches == MatchedKeys(d[..i], pattern)
    {
      MatchedKeysSnoc(d, i, pattern);
      var (key, target) := collection[i];
      if key in matches {
        continue;
      }
      var pairs := ReadSparseArray(target);
      var matched := MatchPairs(pairs, pattern);
      if matched {
        matches := matches + {key};
      }
    }
    assert d[..|collection|] == d;
  }

  /** A well-formed prefix followed by a well-formed sparse array is well-formed. */
  lemma {:induction false} WellFormedAppend(a: SparseArray, b: SparseArray, i: nat)
    requires i <= |a| && WellFormedFrom(a, i) && WellFormed(b)
    ensures WellFormedFrom(a + b, i)
    decreases |a| - i
  {
    if i == |a| {
      WellFormedShift(a, b, 0);
    } else {
      WellFormedAppend(a, b, i + 2 + a[i + 1]);
    }
  }

  /** ... and decodes to the prefix's pairs followed by the second array's pairs. */
  lemma {:induction false} SectionsFromAppend(a: SparseArray, b: SparseArray, i: nat)
    requires i <= |a| && WellFormedFrom(a, i) && WellFormed(b)
    ensures WellFormedFrom(a + b, i)
    ensures SectionsFrom(a + b, i) == SectionsFrom(a, i) + Sections(b)
    decreases |a| - i
  {
    WellFormedAppend(a, b, i);
    if i == |a| {
      WellFormedShift(a, b, 0);
    } else {
      var ab := a + b;
      var n := i + 2 + a[i + 1];
      assert ab[i] == a[i] && ab[i + 1] == a[i + 1];
      assert ab[i + 2..n] == a[i + 2..n];
      SectionsFromAppend(a, b, n);
      assert SectionsFrom(ab, i) == Section(a[i], a[i + 2..n]) + SectionsFrom(ab, n);
    }
  }

  /** A well-formed suffix keeps its sections when something is put in front of it. */
  lemma {:induction false} WellFormedShift(a: SparseArray, b: SparseArray, i: nat)
    requires i <= |b| && WellFormedFrom(b, i)
    ensures WellFormedFrom(a + b, |a| + i)
    ensures SectionsFrom(a + b, |a| + i) == SectionsFrom(b, i)
    decreases |b| - i
  {
    var ab := a + b;
    if i < |b| {
      var n := i + 2 + b[i + 1];
      WellFormedShift(a, b, n);
      assert ab[|a| + i + 2..|a| + n] == b[i + 2..n];
    }
  }

  /** Sections decode in order: decoding two sparse arrays one after the other decodes their concatenation. */
  lemma SectionsAppend(a: SparseArray, b: SparseArray)
    requires WellFormed(a) && WellFormed(b)
    ensures WellFormed(a + b)
    ensures Sections(a + b) == Sections(a) + Sections(b)
  {
    SectionsFromAppend(a, b, 0);
  }

  /** A well-formed sparse array yields exactly the sum of its section lengths. */
  lemma {:induction false} SectionsLength(s: SparseArray, i: nat)
    requires i <= |s| && WellFormedFrom(s, i)
    ensures |SectionsFrom(s, i)| == LengthSumFrom(s, i)
    decreases |s| - i
  {
    if i < |s| {
      SectionsLength(s, i + 2 + s[i + 1]);
    }
  }

  /**
   * One section `(start, n, e1..en)` followed by more sections yields
   * `(start, e1) .. (start + n - 1, en)` first; a negative start is kept as it is.
   */
  lemma SectionFirst(start: int, elements: seq<int>, rest: SparseArray)
    requires WellFormed(rest)
    ensures WellFormed([start, |elements|] + elements + rest)
    ensures var r := Sections([start, |elements|] + elements + rest);
      r == Section(start, elements) + Sections(rest) &&
      forall k :: 0 <= k < |elements| ==> r[k] == (start + k, elements[k])
  {
    var s := [start, |elements|] + elements + rest;
    var h := [start, |elements|] + elements;
    assert s == h + rest;
    WellFormedShift(h, rest, 0);
    assert s[2..2 + |elements|] == elements;
  }

  /** An entry whose sections all have length zero matches every pattern, even the empty one. */
  lemma ZeroLengthSectionsMatchAnything(key: string, s: SparseArray, pattern: Window)
    requires WellFormed(s) && LengthSumFrom(s, 0) == 0
    ensures key in MatchedKeys(DecodeCollection([(key, s)]), pattern)
  {
    SectionsLength(s, 0);
    var d := DecodeCollection([(key, s)]);
    assert d[..0] == [];
  }

  /** A pattern that lacks an index some entry reads never yields that entry through it. */
  lemma PatternTooShort(pairs: seq<Pair>, bytes: seq<int>, j: nat)
    requires j < |pairs| && !(0 <= pairs[j].0 < |bytes|)
    ensures !Matches(pairs, ArrayWindow(bytes))
  {
  }
}
