/**
 * The finders of src/find.ts: the same lookups as the guessers, returning
 * arrays. By extension the listed array itself is returned; by magic numbers
 * the matched media types are returned in the order they were first matched.
 */
module Find {
  import opened Wrappers
  import opened Matching
  import opened Signatures
  import opened IndexRanges
  import opened FileExtension
  import opened Preset
  import opened TargetBytes
  import Serial
  import Sequence

  /**
   * `findMediaTypesByExtension`: the array listed for the pathname's lowercased
   * extension, order included, or an empty array when there is no extension
   * or it is not listed.
   */
  function FindMediaTypesByExtension(pathname: string): (r: seq<string>)
    ensures Extension(pathname).None? ==> r == []
    ensures forall t :: t in r ==> t in SupportedMediaTypes
    ensures Extension(pathname).Some? && OwnProperty(ExtensionToMediaTypes, Extension(pathname).value).Some? ==>
      r == OwnProperty(ExtensionToMediaTypes, Extension(pathname).value).value
    ensures Extension(pathname).Some? && OwnProperty(ExtensionToMediaTypes, Extension(pathname).value).None? ==> r == []
  {
    ExtensionTypesSupported();
    LookupWithin(ExtensionToMediaTypes, SupportedMediaTypes, pathname);
    LookupTypes(ExtensionToMediaTypes, pathname)
  }

  /**
   * The same function as written: `extensionToMediaTypes[extension] ?? []`
   * returns `Object.prototype.constructor` or `Object.prototype` itself, which
   * are not arrays, for the extensions `constructor` and `__proto__`; for every
   * other pathname it returns the corrected function's array.
   */
  function FindMediaTypesByExtensionAsWritten(pathname: string): (r: Lookup)
    ensures r.NotAnArray? <==> Extension(pathname) == Some("constructor") || Extension(pathname) == Some("__proto__")
    ensures r.Listed? ==> r.types == FindMediaTypesByExtension(pathname)
  {
    ExtensionsUnlisted();
    PrototypeReached(ExtensionToMediaTypes, pathname);
    LookupAsWritten(ExtensionToMediaTypes, pathname)
  }

  /** `x.__proto__` makes the function as written return a value that is not an array. */
  lemma ProtoNotAnArray()
    ensures FindMediaTypesByExtensionAsWritten("x.__proto__").NotAnArray?
    ensures FindMediaTypesByExtension("x.__proto__") == []
  {
    assert NoUpper("__proto__");
    ExtensionIs("x.__proto__", "x", "__proto__");
    ExtensionsUnlisted();
    UnlistedNoTypes(ExtensionToMediaTypes, "x.__proto__");
  }

  /** `image.PNG` gives the PNG entry's array in its own order: the plain variant first. */
  lemma PngFound()
    ensures FindMediaTypesByExtension("image.PNG") == ["image/png", "image/apng"]
  {
    assert "image" + "." + "PNG" == "image.PNG";
    UpperPngExtension("image.PNG", "image");
    PngTypes();
  }

  /**
   * `findMediaTypesByMagicNumbers`: `slices[i]` is what `blob.slice(begin, end)`
   * yields for `indexRanges[i]`. The bytes are stored at their indices, range
   * after range; every list entry whose key is not found yet is walked as a
   * serial and its key appended when it matches. The array holds each matched
   * media type once, in the order of its first matching entry, and nothing
   * else.
   */
  method FindMediaTypesByMagicNumbers(indexRanges: seq<IndexRange>, slices: seq<seq<int>>)
    returns (mediaTypes: seq<string>)
    requires |slices| == |indexRanges|
    ensures mediaTypes == MatchedKeyOrder(ExpandTable(MediaTypeAndMagicNumbersList), TargetByteMap(Begins(indexRanges), slices))
    ensures forall i, j :: 0 <= i < j < |mediaTypes| ==> mediaTypes[i] != mediaTypes[j]
    ensures forall k :: k in mediaTypes <==>
      k in MatchedKeys(ExpandTable(MediaTypeAndMagicNumbersList), TargetByteMap(Begins(indexRanges), slices))
  {
    var indexToTargetByte := ReadTargetBytes(indexRanges, slices);
    ListWellWritten();
    MarkerTableDecodes(MediaTypeAndMagicNumbersList);
    mediaTypes := MatchInOrder(indexToTargetByte, MarkerTable(MediaTypeAndMagicNumbersList));
    MatchedKeyOrderIsMatchedKeys(ExpandTable(MediaTypeAndMagicNumbersList), indexToTargetByte);
  }

  /**
   * The matching loop of `findMediaTypesByMagicNumbers` over any list: an
   * entry whose key is already found is skipped, any other is walked as a
   * serial and its key appended when it matches, so keys come out in the
   * order of their first matching entry.
   */
  method MatchInOrder(indexToTargetByte: Window, list: Sequence.KeyedSequenceCollection)
    returns (matches: seq<string>)
    requires forall i :: 0 <= i < |list| ==> Sequence.KeyedWellFormed(list[i])
    ensures matches == MatchedKeyOrder(Sequence.DecodeCollection(list), indexToTargetByte)
  {
    ghost var d := Sequence.DecodeCollection(list);
    matches := [];
    for i := 0 to |list|
      invariant matches == MatchedKeyOrder(d[..i], indexToTargetByte)
    {
      assert d[..i + 1][..i] == d[..i];
      var listItem := list[i];
      var mediaType := listItem[0].name;
      if mediaType in matches {
        continue;
      }
      Sequence.KeyedSequenceTail(listItem);
      var matched := Serial.MatchSerial(listItem[1..], indexToTargetByte);
      if matched {
        matches := matches + [mediaType];
      }
    }
    assert d[..|list|] == d;
  }
}
