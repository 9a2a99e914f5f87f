/**
 * Guessing by file extension (src/feat/MediaType/guess/byFileExtension.ts)
 * over the preset `extensionToMediaTypesTable`: the same lowercased-extension
 * lookup as the top-level guesser, over the larger table.
 */
module ByFileExtension {
  import opened Wrappers
  import opened FileExtension
  import opened PresetExtensionTable

  /**
   * `guessMediaTypesByFileExtension`: the media types the table lists for the
   * filename's lowercased extension; none when there is no extension
   * (`new Set(undefined)`) or it is not listed.
   */
  function GuessMediaTypesByFileExtension(filename: string): (r: set<string>)
    ensures forall t :: t in r <==> t in LookupTypes(ExtensionToMediaTypesTable, filename)
    ensures Extension(filename).None? ==> r == {}
  {
    set t | t in LookupTypes(ExtensionToMediaTypesTable, filename)
  }

  /**
   * The same function as written: for the extensions `constructor` and
   * `__proto__` the lookup reaches `Object.prototype` and `new Set` throws; for
   * every other filename it agrees with the corrected one.
   */
  function GuessMediaTypesByFileExtensionAsWritten(filename: string): (r: SetResult)
    ensures r.TypeError? <==> Extension(filename) == Some("constructor") || Extension(filename) == Some("__proto__")
    ensures r.Made? ==> r.members == GuessMediaTypesByFileExtension(filename)
  {
    UnlistedNamesOutside();
    PrototypeReached(ExtensionToMediaTypesTable, filename);
    NewSet(LookupAsWritten(ExtensionToMediaTypesTable, filename))
  }

  /** `a.__proto__` makes the function as written throw, where the corrected one finds nothing. */
  lemma ProtoThrows()
    ensures GuessMediaTypesByFileExtensionAsWritten("a.__proto__") == TypeError
    ensures GuessMediaTypesByFileExtension("a.__proto__") == {}
  {
    assert NoUpper("__proto__");
    ExtensionIs("a.__proto__", "a", "__proto__");
    UnlistedNamesOutside();
    UnlistedNoTypes(ExtensionToMediaTypesTable, "a.__proto__");
  }

  /** The extension is case insensitive. */
  lemma FileExtensionCaseInsensitive(a: string, b: string)
    requires LowerAscii(a) == LowerAscii(b)
    ensures GuessMediaTypesByFileExtension(a) == GuessMediaTypesByFileExtension(b)
  {
    LookupCaseInsensitive(ExtensionToMediaTypesTable, a, b);
  }

  /** `photo.PNG` is a PNG or an animated PNG. */
  lemma PngByFileExtension()
    ensures GuessMediaTypesByFileExtension("photo.PNG") == {"image/png", "image/apng"}
  {
    PngLookup();
    ListedPair(GuessMediaTypesByFileExtension("photo.PNG"), LookupTypes(ExtensionToMediaTypesTable, "photo.PNG"));
  }

  lemma PngLookup()
    ensures LookupTypes(ExtensionToMediaTypesTable, "photo.PNG") == ["image/png", "image/apng"]
  {
    assert "photo" + "." + "PNG" == "photo.PNG";
    UpperPngExtension("photo.PNG", "photo");
    PngTypes();
    LookupOwn(ExtensionToMediaTypesTable, "photo.PNG", "png", ["image/png", "image/apng"]);
  }

  /** Only the last extension counts: `archive.tar.gz` is gzip data. */
  lemma LastExtensionOnly()
    ensures GuessMediaTypesByFileExtension("archive.tar.gz") == {"application/gzip"}
  {
    GzLookup();
    ListedSingle(GuessMediaTypesByFileExtension("archive.tar.gz"), LookupTypes(ExtensionToMediaTypesTable, "archive.tar.gz"));
  }

  lemma GzLookup()
    ensures LookupTypes(ExtensionToMediaTypesTable, "archive.tar.gz") == ["application/gzip"]
  {
    assert NoUpper("gz");
    ExtensionIs("archive.tar.gz", "archive.tar", "gz");
    GzTypes();
    LookupOwn(ExtensionToMediaTypesTable, "archive.tar.gz", "gz", ["application/gzip"]);
  }

  /** The set of a one-element list. */
  lemma ListedSingle(r: set<string>, types: seq<string>)
    requires |types| == 1 && forall t :: t in r <==> t in types
    ensures r == {types[0]}
  {
  }

  /** The set of a two-element list. */
  lemma ListedPair(r: set<string>, types: seq<string>)
    requires |types| == 2 && forall t :: t in r <==> t in types
    ensures r == {types[0], types[1]}
  {
  }

  /** A filename ending in a dot, or without one, has no extension and gives nothing. */
  lemma NoExtensionNothing()
    ensures GuessMediaTypesByFileExtension("archive.") == {}
    ensures GuessMediaTypesByFileExtension("README") == {}
  {
    NoExtensionNoTypes(ExtensionToMediaTypesTable, "archive.");
    assert '.' !in "README";
    NoExtensionNoTypes(ExtensionToMediaTypesTable, "README");
  }
}
