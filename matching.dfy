/**
 * The declarative meaning shared by every matcher of the engine.
 *
 * A decoder turns a signature into `(index, expected)` pairs; a window maps an
 * index to the byte found there; an entry matches when every one of its pairs
 * finds its index in the window with the expected value there. A matcher scans
 * a keyed table in order and collects the keys of the entries that match.
 */
module Matching {
  /** One decoded `(index, expected value)` pair. */
  type Pair = (int, int)

  /**
   * An index-to-byte lookup: a `Record<number, number>`, a `Map<number, number>`
   * or a byte array (whose domain is `[0, length)`). A missing index is a mismatch.
   */
  type Window = map<int, int>

  /** A keyed table whose signatures are already decoded, in table order. */
  type Decoded = seq<(string, seq<Pair>)>

  /** Every pair finds its index in the window, holding the expected value. */
  predicate Matches(pairs: seq<Pair>, w: Window)
  {
    forall j :: 0 <= j < |pairs| ==> pairs[j].0 in w && w[pairs[j].0] == pairs[j].1
  }

  /** A list matches when its first pair holds and the rest matches. */
  lemma MatchesCons(p: Pair, rest: seq<Pair>, w: Window)
    ensures Matches([p] + rest, w) <==> p.0 in w && w[p.0] == p.1 && Matches(rest, w)
  {
    if p.0 in w && w[p.0] == p.1 && Matches(rest, w) {
      forall j | 0 <= j < |[p] + rest| ensures ([p] + rest)[j].0 in w && w[([p] + rest)[j].0] == ([p] + rest)[j].1 {
        if j > 0 {
          assert ([p] + rest)[j] == rest[j - 1];
        }
      }
    }
    if Matches([p] + rest, w) {
      forall j | 0 <= j < |rest| ensures rest[j].0 in w && w[rest[j].0] == rest[j].1 {
        assert ([p] + rest)[j + 1] == rest[j];
      }
      assert ([p] + rest)[0] == p;
    }
  }

  /** Pairs read, then one more step, then the rest: the grouping does not matter. */
  lemma AppendAssoc<T>(a: seq<T>, b: seq<T>, c: seq<T>)
    ensures a + b + c == a + (b + c)
  {
  }

  /** Two lists put one after the other match exactly when both match. */
  lemma MatchesAppend(a: seq<Pair>, b: seq<Pair>, w: Window)
    ensures Matches(a + b, w) <==> Matches(a, w) && Matches(b, w)
  {
    if Matches(a, w) && Matches(b, w) {
      forall j | 0 <= j < |a + b| ensures (a + b)[j].0 in w && w[(a + b)[j].0] == (a + b)[j].1 {
        if j >= |a| {
          assert (a + b)[j] == b[j - |a|];
        }
      }
    }
    if Matches(a + b, w) {
      forall j | 0 <= j < |b| ensures b[j].0 in w && w[b[j].0] == b[j].1 {
        assert (a + b)[|a| + j] == b[j];
      }
      forall j | 0 <= j < |a| ensures a[j].0 in w && w[a[j].0] == a[j].1 {
        assert (a + b)[j] == a[j];
      }
    }
  }

  /** The keys of the matching entries among the first `|d|` entries, as a set. */
  function MatchedKeys(d: Decoded, w: Window): set<string>
  {
    if d == [] then {}
    else MatchedKeys(d[..|d| - 1], w) + (if Matches(d[|d| - 1].1, w) then {d[|d| - 1].0} else {})
  }

  /**
   * The same keys in the order a JavaScript `Set` holds them: a key is appended
   * when its first matching entry is reached and never again.
   */
  function MatchedKeyOrder(d: Decoded, w: Window): seq<string>
  {
    if d == [] then []
    else
      var prev := MatchedKeyOrder(d[..|d| - 1], w);
      var last := d[|d| - 1];
      if last.0 !in prev && Matches(last.1, w) then prev + [last.0] else prev
  }

  /** The keys a table holds. */
  function Keys(d: Decoded): set<string>
  {
    set i | 0 <= i < |d| :: d[i].0
  }

  /** The indices some entry of a table reads. */
  function DecodedIndices(d: Decoded): set<int>
  {
    set i, j | 0 <= i < |d| && 0 <= j < |d[i].1| :: d[i].1[j].0
  }

  /** A byte array seen as a window: index `i` holds `bytes[i]` for `0 <= i < |bytes|`, nothing else. */
  function ArrayWindow(bytes: seq<int>): (w: Window)
    ensures forall i :: i in w <==> 0 <= i < |bytes|
    ensures forall i :: 0 <= i < |bytes| ==> w[i] == bytes[i]
  {
    map i | 0 <= i < |bytes| :: bytes[i]
  }

  /** A key is matched exactly when some entry with that key has all its pairs in the window. */
  lemma {:induction false} MatchedKeysIff(d: Decoded, w: Window, k: string)
    ensures k in MatchedKeys(d, w) <==> exists i :: 0 <= i < |d| && d[i].0 == k && Matches(d[i].1, w)
    decreases |d|
  {
    if d != [] {
      var init := d[..|d| - 1];
      MatchedKeysIff(init, w, k);
      if k in MatchedKeys(init, w) {
        var i :| 0 <= i < |init| && init[i].0 == k && Matches(init[i].1, w);
        assert d[i] == init[i];
      }
      if exists i :: 0 <= i < |d| && d[i].0 == k && Matches(d[i].1, w) {
        var i :| 0 <= i < |d| && d[i].0 == k && Matches(d[i].1, w);
        if i < |d| - 1 {
          assert init[i] == d[i];
        }
      }
    }
  }

  /** Only keys of the table are reported. */
  lemma MatchedKeysWithinKeys(d: Decoded, w: Window)
    ensures MatchedKeys(d, w) <= Keys(d)
  {
    forall k | k in MatchedKeys(d, w) ensures k in Keys(d) {
      MatchedKeysIff(d, w, k);
    }
  }

  /** Extending the window with more bytes, agreeing on the existing ones, never loses a key. */
  lemma MatchedKeysMonotone(d: Decoded, w: Window, w': Window)
    requires forall x :: x in w ==> x in w' && w'[x] == w[x]
    ensures MatchedKeys(d, w) <= MatchedKeys(d, w')
  {
    forall k | k in MatchedKeys(d, w) ensures k in MatchedKeys(d, w') {
      MatchedKeysIff(d, w, k);
      var i :| 0 <= i < |d| && d[i].0 == k && Matches(d[i].1, w);
      forall j | 0 <= j < |d[i].1| ensures d[i].1[j].0 in w' && w'[d[i].1[j].0] == d[i].1[j].1 {
        var x := d[i].1[j].0;
        assert x in w;
        assert x in w' && w'[x] == w[x];
      }
      MatchedKeysIff(d, w', k);
    }
  }

  /** An empty window matches no entry that has at least one pair. */
  lemma EmptyWindowMatchesNothing(d: Decoded)
    requires forall i :: 0 <= i < |d| ==> |d[i].1| > 0
    ensures MatchedKeys(d, map[]) == {}
  {
    var empty: Window := map[];
    forall k ensures k !in MatchedKeys(d, empty) {
      MatchedKeysIff(d, empty, k);
      forall i | 0 <= i < |d| ensures !Matches(d[i].1, empty) {
        assert d[i].1[0].0 !in empty;
      }
    }
  }

  /** Scanning two tables one after the other reports the keys of both. */
  lemma MatchedKeysAppend(a: Decoded, b: Decoded, w: Window)
    ensures MatchedKeys(a + b, w) == MatchedKeys(a, w) + MatchedKeys(b, w)
  {
    forall k | k in MatchedKeys(a + b, w) ensures k in MatchedKeys(a, w) + MatchedKeys(b, w) {
      MatchedKeysIff(a + b, w, k);
      var i :| 0 <= i < |a + b| && (a + b)[i].0 == k && Matches((a + b)[i].1, w);
      if i < |a| {
        assert (a + b)[i] == a[i];
        MatchedKeysIff(a, w, k);
      } else {
        assert (a + b)[i] == b[i - |a|];
        MatchedKeysIff(b, w, k);
      }
    }
    forall k | k in MatchedKeys(a, w) ensures k in MatchedKeys(a + b, w) {
      MatchedKeysIff(a, w, k);
      var i :| 0 <= i < |a| && a[i].0 == k && Matches(a[i].1, w);
      assert (a + b)[i] == a[i];
      MatchedKeysIff(a + b, w, k);
    }
    forall k | k in MatchedKeys(b, w) ensures k in MatchedKeys(a + b, w) {
      MatchedKeysIff(b, w, k);
      var i :| 0 <= i < |b| && b[i].0 == k && Matches(b[i].1, w);
      assert (a + b)[|a| + i] == b[i];
      MatchedKeysIff(a + b, w, k);
    }
  }

  /** One more scanned entry adds its key exactly when it matches. */
  lemma MatchedKeysSnoc(d: Decoded, i: nat, w: Window)
    requires i < |d|
    ensures MatchedKeys(d[..i + 1], w) ==
      MatchedKeys(d[..i], w) + (if Matches(d[i].1, w) then {d[i].0} else {})
  {
    assert d[..i + 1][..i] == d[..i];
  }

  /** The insertion-ordered keys hold no duplicate and are exactly the matched keys. */
  lemma {:induction false} MatchedKeyOrderIsMatchedKeys(d: Decoded, w: Window)
    ensures forall i, j :: 0 <= i < j < |MatchedKeyOrder(d, w)| ==> MatchedKeyOrder(d, w)[i] != MatchedKeyOrder(d, w)[j]
    ensures forall k :: k in MatchedKeyOrder(d, w) <==> k in MatchedKeys(d, w)
    decreases |d|
  {
    if d != [] {
      MatchedKeyOrderIsMatchedKeys(d[..|d| - 1], w);
    }
  }

  /** Two windows that agree on every index of a list of pairs both match it or both do not. */
  lemma MatchesAgree(pairs: seq<Pair>, w: Window, w': Window)
    requires forall j :: 0 <= j < |pairs| ==>
      (pairs[j].0 in w <==> pairs[j].0 in w') && (pairs[j].0 in w ==> w[pairs[j].0] == w'[pairs[j].0])
    ensures Matches(pairs, w) <==> Matches(pairs, w')
  {
  }

  /** Two windows that agree on every index a table reads match the same keys. */
  lemma MatchedKeysAgree(d: Decoded, w: Window, w': Window)
    requires forall x :: x in DecodedIndices(d) ==> (x in w <==> x in w') && (x in w ==> w[x] == w'[x])
    ensures MatchedKeys(d, w) == MatchedKeys(d, w')
  {
    forall i | 0 <= i < |d| ensures Matches(d[i].1, w) <==> Matches(d[i].1, w') {
      forall j | 0 <= j < |d[i].1|
        ensures (d[i].1[j].0 in w <==> d[i].1[j].0 in w') && (d[i].1[j].0 in w ==> w[d[i].1[j].0] == w'[d[i].1[j].0])
      {
        var x := d[i].1[j].0;
        assert x in DecodedIndices(d);
      }
      MatchesAgree(d[i].1, w, w');
    }
    forall k ensures k in MatchedKeys(d, w) <==> k in MatchedKeys(d, w') {
      MatchedKeysIff(d, w, k);
      MatchedKeysIff(d, w', k);
    }
  }

  /**
   * When every index a table reads lies below `bound`, matching the first
   * `bound` bytes of an array (all of it when shorter) finds the same keys as
   * matching the whole array.
   */
  lemma PrefixSuffices(d: Decoded, bytes: seq<int>, bound: nat)
    requires forall x :: x in DecodedIndices(d) ==> x < bound
    ensures MatchedKeys(d, ArrayWindow(bytes[..if |bytes| < bound then |bytes| else bound])) == MatchedKeys(d, ArrayWindow(bytes))
  {
    var n := if |bytes| < bound then |bytes| else bound;
    MatchedKeysAgree(d, ArrayWindow(bytes[..n]), ArrayWindow(bytes));
  }

  /**
   * The comparison loop of the matchers: walks the pairs in order and stops at
   * the first index that is missing from the window or holds another value.
   */
  method MatchPairs(pairs: seq<Pair>, w: Window) returns (matched: bool)
    ensures matched <==> Matches(pairs, w)
  {
    matched := true;
    var j := 0;
    while j < |pairs|
      invariant 0 <= j <= |pairs|
      invariant Matches(pairs[..j], w)
    {
      var (index, element) := pairs[j];
      if !(index in w && w[index] == element) {
        matched := false;
        break;
      }
      j := j + 1;
    }
    if matched {
      assert pairs[..j] == pairs;
    }
  }
}
