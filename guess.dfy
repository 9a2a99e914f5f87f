/**
 * The top-level guessers of src/guess.ts: by file extension, over the preset
 * `extensionToMediaTypes`, and by magic numbers, over the bytes a blob yields
 * for each of `magicNumberIndexRanges`.
 */
module Guess {
  import opened Wrappers
  import opened Matching
  import opened Signatures
  import opened IndexRanges
  import opened FileExtension
  import opened Preset
  import opened TargetBytes
  import Serial
  import Sequence

  /**
   * `guessMediaTypesByExtension`: the media types listed for the pathname's
   * lowercased extension, all of them supported media types; none when there
   * is no extension or it is not listed.
   */
  function GuessMediaTypesByExtension(pathname: string): (r: set<string>)
    ensures forall t :: t in r <==> t in LookupTypes(ExtensionToMediaTypes, pathname)
    ensures r <= SupportedMediaTypes
    ensures Extension(pathname).None? ==> r == {}
  {
    ExtensionTypesSupported();
    LookupWithin(ExtensionToMediaTypes, SupportedMediaTypes, pathname);
    set t | t in LookupTypes(ExtensionToMediaTypes, pathname)
  }

  /**
   * The same function as written: `new Set(extensionToMediaTypes[extension] ?? [])`.
   * For the extensions `constructor` and `__proto__` the lookup reaches
   * `Object.prototype`, and `new Set` of a function or an object that is not
   * iterable throws; for every other pathname it agrees with the corrected one.
   */
  function GuessMediaTypesByExtensionAsWritten(pathname: string): (r: SetResult)
    ensures r.TypeError? <==> Extension(pathname) == Some("constructor") || Extension(pathname) == Some("__proto__")
    ensures r.Made? ==> r.members == GuessMediaTypesByExtension(pathname)
  {
    ExtensionsUnlisted();
    PrototypeReached(ExtensionToMediaTypes, pathname);
    NewSet(LookupAsWritten(ExtensionToMediaTypes, pathname))
  }

  /** `x.constructor` makes the function as written throw, where the corrected one finds nothing. */
  lemma ConstructorThrows()
    ensures GuessMediaTypesByExtensionAsWritten("x.constructor") == TypeError
    ensures GuessMediaTypesByExtension("x.constructor") == {}
  {
    assert NoUpper("constructor");
    ExtensionIs("x.constructor", "x", "constructor");
    ExtensionsUnlisted();
    UnlistedNoTypes(ExtensionToMediaTypes, "x.constructor");
  }

  /** Extensions are compared without regard to the case of ASCII letters. */
  lemma ExtensionCaseInsensitive(a: string, b: string)
    requires LowerAscii(a) == LowerAscii(b)
    ensures GuessMediaTypesByExtension(a) == GuessMediaTypesByExtension(b)
  {
    LookupCaseInsensitive(ExtensionToMediaTypes, a, b);
  }

  /** `x.PNG` is a PNG or an animated PNG. */
  lemma PngByExtension()
    ensures GuessMediaTypesByExtension("x.PNG") == {"image/png", "image/apng"}
  {
    assert "x" + "." + "PNG" == "x.PNG";
    UpperPngExtension("x.PNG", "x");
    PngTypes();
  }

  /** An empty pathname and one without a dot give no media types. */
  lemma NoExtensionGuessesNothing()
    ensures GuessMediaTypesByExtension("") == {}
    ensures GuessMediaTypesByExtension("an-extensionless-file") == {}
  {
    NoExtensionNoTypes(ExtensionToMediaTypes, "");
    assert '.' !in "an-extensionless-file";
    NoExtensionNoTypes(ExtensionToMediaTypes, "an-extensionless-file");
  }

  /** The extension `undefined` is not listed. */
  lemma UndefinedGuessesNothing()
    ensures GuessMediaTypesByExtension("filename.undefined") == {}
  {
    assert NoUpper("undefined");
    ExtensionIs("filename.undefined", "filename", "undefined");
    ExtensionsUnlisted();
    UnlistedNoTypes(ExtensionToMediaTypes, "filename.undefined");
  }

  /** Nor is `undefined-2`, behind an empty stem. */
  lemma UndefinedTwoGuessesNothing()
    ensures GuessMediaTypesByExtension(".undefined-2") == {}
  {
    assert NoUpper("undefined-2");
    ExtensionIs(".undefined-2", "", "undefined-2");
    ExtensionsUnlisted();
    UnlistedNoTypes(ExtensionToMediaTypes, ".undefined-2");
  }

  /**
   * `guessMediaTypesByMagicNumbers`: `slices[i]` is what
   * `blob.slice(begin, end)` yields for the `i`-th range. The bytes are stored
   * at their indices, range after range, and every list entry is walked as a
   * serial. The result is the set of keys whose entry matches the stored bytes,
   * all of them supported media types.
   */
  method GuessMediaTypesByMagicNumbers(slices: seq<seq<int>>) returns (matches: set<string>)
    requires |slices| == |MagicNumberIndexRanges|
    ensures matches == MatchedKeys(ExpandTable(MediaTypeAndMagicNumbersList), TargetByteMap(Begins(MagicNumberIndexRanges), slices))
    ensures matches <= SupportedMediaTypes
  {
    var indexToTargetByte := ReadTargetBytes(MagicNumberIndexRanges, slices);
    ListWellWritten();
    MarkerTableDecodes(MediaTypeAndMagicNumbersList);
    matches := Serial.MatchKeyedSerials(indexToTargetByte, MarkerTable(MediaTypeAndMagicNumbersList));
    MagicNumberTypesSupported(indexToTargetByte);
  }

  /** Whatever the bytes, every matched key is a supported media type. */
  lemma MagicNumberTypesSupported(w: Window)
    ensures MatchedKeys(ExpandTable(MediaTypeAndMagicNumbersList), w) <= SupportedMediaTypes
  {
    ListWellWritten();
    MatchedKeysWithin(MediaTypeAndMagicNumbersList, SupportedMediaTypes, w);
  }

  /**
   * A matched media type is backed by the blob: some entry with that key has
   * every pair it reads inside one of the slices, holding the expected byte.
   */
  lemma MatchedFromSlices(t: Table, ranges: seq<IndexRange>, slices: seq<seq<int>>, k: string)
    requires |slices| == |ranges|
    requires k in MatchedKeys(ExpandTable(t), TargetByteMap(Begins(ranges), slices))
    ensures exists e :: (0 <= e < |t| && t[e].0 == k &&
      forall j :: 0 <= j < |Expand(t[e].1)| ==> InSomeSlice(ranges, slices, Expand(t[e].1)[j]))
  {
    var d := ExpandTable(t);
    var w := TargetByteMap(Begins(ranges), slices);
    MatchedKeysIff(d, w, k);
    var e :| 0 <= e < |d| && d[e].0 == k && Matches(d[e].1, w);
    var pairs := Expand(t[e].1);
    forall j | 0 <= j < |pairs| ensures InSomeSlice(ranges, slices, pairs[j]) {
      TargetByteMapValue(Begins(ranges), slices, pairs[j].0);
    }
  }

  /** Some range's slice holds index `p.0`, with byte `p.1` there. */
  predicate InSomeSlice(ranges: seq<IndexRange>, slices: seq<seq<int>>, p: Pair)
    requires |slices| == |ranges|
  {
    exists i :: 0 <= i < |ranges| && ranges[i].begin <= p.0 < ranges[i].begin + |slices[i]| &&
      slices[i][p.0 - ranges[i].begin] == p.1
  }

  /**
   * A JPEG is recognised from both ends: when the blob starts with the SOI
   * marker `ff d8 ff` and its last two bytes are the EOI marker `ff d9`, the
   * result holds `image/jpeg`.
   */
  lemma JpegFromBothEnds(slices: seq<seq<int>>)
    requires |slices| == |MagicNumberIndexRanges| && SlicesFit(MagicNumberIndexRanges, slices)
    requires slices[1] == [0xff, 0xd9]
    requires |slices[2]| >= 3 && slices[2][0] == 0xff && slices[2][1] == 0xd8 && slices[2][2] == 0xff
    ensures "image/jpeg" in MatchedKeys(ExpandTable(MediaTypeAndMagicNumbersList), TargetByteMap(Begins(MagicNumberIndexRanges), slices))
  {
    var d := ExpandTable(MediaTypeAndMagicNumbersList);
    var w := TargetByteMap(Begins(MagicNumberIndexRanges), slices);
    JpegEntry();
    JpegBytesStored(slices);
    MatchedKeysIff(d, w, "image/jpeg");
  }

  /** The JPEG entry reads `ff d8 ff` at 0..2 and `ff d9` at -2..-1. */
  lemma JpegEntry()
    ensures |ExpandTable(MediaTypeAndMagicNumbersList)| == 29
    ensures ExpandTable(MediaTypeAndMagicNumbersList)[21] ==
      ("image/jpeg", [(0, 0xff), (1, 0xd8), (2, 0xff), (-2, 0xff), (-1, 0xd9)])
  {
    NegativeOffsets();
    WideRuns();
  }

  /** Slices holding the two markers store them at 0..2 and -2..-1. */
  lemma JpegBytesStored(slices: seq<seq<int>>)
    requires |slices| == |MagicNumberIndexRanges| && SlicesFit(MagicNumberIndexRanges, slices)
    requires slices[1] == [0xff, 0xd9]
    requires |slices[2]| >= 3 && slices[2][0] == 0xff && slices[2][1] == 0xd8 && slices[2][2] == 0xff
    ensures Matches([(0, 0xff), (1, 0xd8), (2, 0xff), (-2, 0xff), (-1, 0xd9)], TargetByteMap(Begins(MagicNumberIndexRanges), slices))
  {
    var w := TargetByteMap(Begins(MagicNumberIndexRanges), slices);
    IndexRangesSortedDisjoint();
    JpegStartStored(slices);
    JpegEndStored(slices);
    MatchesAppend([(0, 0xff), (1, 0xd8), (2, 0xff)], [(-2, 0xff), (-1, 0xd9)], w);
    assert [(0, 0xff), (1, 0xd8), (2, 0xff)] + [(-2, 0xff), (-1, 0xd9)] ==
      [(0, 0xff), (1, 0xd8), (2, 0xff), (-2, 0xff), (-1, 0xd9)];
  }

  lemma JpegStartStored(slices: seq<seq<int>>)
    requires |slices| == |MagicNumberIndexRanges| && SlicesFit(MagicNumberIndexRanges, slices)
    requires SortedDisjoint(MagicNumberIndexRanges)
    requires |slices[2]| >= 3 && slices[2][0] == 0xff && slices[2][1] == 0xd8 && slices[2][2] == 0xff
    ensures Matches([(0, 0xff), (1, 0xd8), (2, 0xff)], TargetByteMap(Begins(MagicNumberIndexRanges), slices))
  {
    var ranges := MagicNumberIndexRanges;
    var begins := Begins(ranges);
    FitsApart(ranges, slices);
    assert begins[2] == 0;
    SliceStored(begins, slices, 2, [(0, 0xff), (1, 0xd8), (2, 0xff)]);
  }

  lemma JpegEndStored(slices: seq<seq<int>>)
    requires |slices| == |MagicNumberIndexRanges| && SlicesFit(MagicNumberIndexRanges, slices)
    requires SortedDisjoint(MagicNumberIndexRanges)
    requires slices[1] == [0xff, 0xd9]
    ensures Matches([(-2, 0xff), (-1, 0xd9)], TargetByteMap(Begins(MagicNumberIndexRanges), slices))
  {
    var ranges := MagicNumberIndexRanges;
    var begins := Begins(ranges);
    FitsApart(ranges, slices);
    assert begins[1] == -2;
    SliceStored(begins, slices, 1, [(-2, 0xff), (-1, 0xd9)]);
  }
}
