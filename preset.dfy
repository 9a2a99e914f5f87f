/**
 * The preset tables of src/preset.ts: the supported media types, the
 * extension table, the list of media types and magic numbers (marker layout
 * with `undefined` as the marker, offsets below zero counted from the end of
 * the data) and the index ranges read from the data. The list is kept as run
 * lists; its literal layout is `MarkerTable(MediaTypeAndMagicNumbersList)`.
 */
module Preset {
  import opened Wrappers
  import opened Matching
  import opened Signatures
  import opened IndexRanges
  import opened TableChecks
  import opened FileExtension

  /** `SupportedMediaTypes`: the 26 media types the tables may name. */
  const SupportedMediaTypes: set<string> := {
    "application/gzip",
    "application/java-archive",
    "application/pdf",
    "application/vnd.openxmlformats-officedocument.presentationml.presentation",
    "application/vnd.openxmlformats-officedocument.spreadsheetml.sheet",
    "application/vnd.openxmlformats-officedocument.wordprocessingml.document",
    "application/xhtml+xml",
    "application/xml",
    "application/xml-dtd",
    "application/xml-external-parsed-entity",
    "application/zip",
    "audio/mpeg",
    "font/otf",
    "font/ttf",
    "font/woff",
    "font/woff2",
    "image/apng",
    "image/avif",
    "image/jpeg",
    "image/png",
    "image/vnd.microsoft.icon",
    "text/html",
    "text/xml",
    "text/xml-external-parsed-entity",
    "video/mp4",
    "video/mpeg"
  }

  /** The extensions from `apk` to `jar`. */
  const ExtensionsApkToJar: ExtensionTable := [
    ("apk", ["application/zip"]),
    ("apng", ["image/apng"]),
    ("avif", ["image/avif"]),
    ("epub", ["application/zip"]),
    ("docx", ["application/vnd.openxmlformats-officedocument.wordprocessingml.document", "application/zip"]),
    ("gz", ["application/gzip"]),
    ("ico", ["image/vnd.microsoft.icon"]),
    ("jar", ["application/java-archive", "application/zip"])
  ]

  /** The extensions from `jpe` to `mp2`. */
  const ExtensionsJpeToMp2: ExtensionTable := [
    ("jpe", ["image/jpeg"]),
    ("jpeg", ["image/jpeg"]),
    ("jpg", ["image/jpeg"]),
    ("htm", ["text/html"]),
    ("html", ["text/html"]),
    ("m2v", ["video/mpeg"]),
    ("mp1", ["audio/mpeg"]),
    ("mp2", ["audio/mpeg"])
  ]

  /** The extensions from `mp3` to `odt`. */
  const ExtensionsMp3ToOdt: ExtensionTable := [
    ("mp3", ["audio/mpeg"]),
    ("mp4", ["video/mp4"]),
    ("mpeg", ["video/mpeg"]),
    ("mpg", ["video/mpeg"]),
    ("mpg4", ["video/mp4"]),
    ("odp", ["application/zip"]),
    ("ods", ["application/zip"]),
    ("odt", ["application/zip"])
  ]

  /** The extensions from `otf` to `woff`. */
  const ExtensionsOtfToWoff: ExtensionTable := [
    ("otf", ["font/otf", "font/ttf"]),
    ("pdf", ["application/pdf"]),
    ("png", ["image/png", "image/apng"]),
    ("pptx", ["application/vnd.openxmlformats-officedocument.presentationml.presentation", "application/zip"]),
    ("tgz", ["application/gzip"]),
    ("ttf", ["font/ttf"]),
    ("war", ["application/zip"]),
    ("woff", ["font/woff"])
  ]

  /** The extensions from `woff2` to `z03`. */
  const ExtensionsWoff2ToZ03: ExtensionTable := [
    ("woff2", ["font/woff2"]),
    ("xlsx", ["application/vnd.openxmlformats-officedocument.spreadsheetml.sheet", "application/zip"]),
    ("xml", ["application/xml"]),
    ("z", ["application/gzip"]),
    ("z00", ["application/zip"]),
    ("z01", ["application/zip"]),
    ("z02", ["application/zip"]),
    ("z03", ["application/zip"])
  ]

  /** The extensions from `z04` to `zipx`. */
  const ExtensionsZ04ToZipx: ExtensionTable := [
    ("z04", ["application/zip"]),
    ("z05", ["application/zip"]),
    ("z06", ["application/zip"]),
    ("z07", ["application/zip"]),
    ("z08", ["application/zip"]),
    ("z09", ["application/zip"]),
    ("zip", ["application/zip"]),
    ("zipx", ["application/zip"])
  ]

  /** The application entries. */
  const ApplicationNumbers: Table := [
    ("application/gzip", [Run(0, [0x1f, 0x8b])]),
    ("application/java-archive", [Run(0, [0x50, 0x4b, 0x03, 0x04])]),
    ("application/pdf", [Run(0, [0x25, 0x50, 0x44, 0x46, 0x2d])]),
    ("application/vnd.openxmlformats-officedocument.presentationml.presentation", [Run(0, [0x50, 0x4b, 0x03, 0x04])]),
    ("application/vnd.openxmlformats-officedocument.spreadsheetml.sheet", [Run(0, [0x50, 0x4b, 0x03, 0x04])]),
    ("application/vnd.openxmlformats-officedocument.wordprocessingml.document", [Run(0, [0x50, 0x4b, 0x03, 0x04])]),
    ("application/xml", [Run(0, [0x3c, 0x3f, 0x78, 0x6d, 0x6c])]),
    ("application/xml", [Run(0, [0xfe, 0xff, 0x00, 0x3c, 0x00, 0x3f, 0x00, 0x78, 0x00, 0x6d])]),
    ("application/xml", [Run(0, [0xff, 0xfe, 0x3c, 0x00, 0x3f, 0x00, 0x78, 0x00, 0x6d, 0x00])]),
    ("application/zip", [Run(0, [0x50, 0x4b, 0x03, 0x04])]),
    ("application/zip", [Run(0, [0x50, 0x4b, 0x07, 0x08])])
  ]

  /** The audio and font entries. */
  const AudioAndFontNumbers: Table := [
    ("audio/mpeg", [Run(0, [0x49, 0x44, 0x33])]),
    ("audio/mpeg", [Run(-128, [0x54, 0x41, 0x47])]),
    ("font/otf", [Run(0, [0x4f, 0x54, 0x54, 0x4f])]),
    ("font/otf", [Run(0, [0x00, 0x01, 0x00, 0x00])]),
    ("font/ttf", [Run(0, [0x00, 0x01, 0x00, 0x00])]),
    ("font/woff", [Run(0, [0x77, 0x4f, 0x46, 0x46])]),
    ("font/woff2", [Run(0, [0x77, 0x4f, 0x46, 0x32])])
  ]

  /** The image entries. */
  const ImageNumbers: Table := [
    ("image/apng", [Run(0, [0x89, 0x50, 0x4e, 0x47, 0x0d, 0x0a, 0x1a, 0x0a])]),
    ("image/avif", [Run(4, [0x66, 0x74, 0x79, 0x70, 0x61, 0x76, 0x69, 0x66])]),
    ("image/vnd.microsoft.icon", [Run(0, [0x00, 0x00, 0x01, 0x00])]),
    ("image/jpeg", [Run(0, [0xff, 0xd8, 0xff]), Run(-2, [0xff, 0xd9])]),
    ("image/png", [Run(0, [0x89, 0x50, 0x4e, 0x47, 0x0d, 0x0a, 0x1a, 0x0a])])
  ]

  /** The text and video entries. */
  const TextAndVideoNumbers: Table := [
    ("text/html", [Run(0, [0x3c, 0x21, 0x44, 0x4f])]),
    ("text/html", [Run(0, [0x3c, 0x21, 0x64, 0x6f])]),
    ("text/html", [Run(0, [0x3c, 0x68, 0x74, 0x6d, 0x6c])]),
    ("video/mp4", [Run(4, [0x66, 0x74, 0x79, 0x70, 0x69, 0x73, 0x6f])]),
    ("video/mp4", [Run(4, [0x66, 0x74, 0x79, 0x70, 0x6d, 0x70, 0x34])]),
    ("video/mpeg", [Run(0, [0x00, 0x00, 0x01])])
  ]

  /** `extensionToMediaTypes`: 48 extensions in the literal's order. */
  const ExtensionToMediaTypes: ExtensionTable :=
    ExtensionsApkToJar + ExtensionsJpeToMp2 + ExtensionsMp3ToOdt + ExtensionsOtfToWoff + ExtensionsWoff2ToZ03 + ExtensionsZ04ToZipx

  /** `mediaTypeAndMagicNumbersList`: 29 entries in the source's order. */
  const MediaTypeAndMagicNumbersList: Table :=
    ApplicationNumbers + AudioAndFontNumbers + ImageNumbers + TextAndVideoNumbers

  /**
   * `magicNumberIndexRanges`: the last 128 bytes' first three (ID3v1 `TAG`),
   * the last two bytes (an absent end reads to the end of the data, which the
   * index map stores under -2 and -1) and the first twelve.
   */
  const MagicNumberIndexRanges: seq<IndexRange> :=
    [IndexRange(-128, Some(-125)), IndexRange(-2, None), IndexRange(0, Some(12))]

  lemma ApplicationNumbersChecked()
    ensures EntriesChecked(ApplicationNumbers, MagicNumberIndexRanges, 0)
    ensures KeysChecked(ApplicationNumbers, SupportedMediaTypes, 0)
  {
  }

  lemma AudioAndFontNumbersChecked()
    ensures EntriesChecked(AudioAndFontNumbers, MagicNumberIndexRanges, 0)
    ensures KeysChecked(AudioAndFontNumbers, SupportedMediaTypes, 0)
  {
  }

  lemma ImageNumbersChecked()
    ensures EntriesChecked(ImageNumbers, MagicNumberIndexRanges, 0)
    ensures KeysChecked(ImageNumbers, SupportedMediaTypes, 0)
  {
  }

  lemma TextAndVideoNumbersChecked()
    ensures EntriesChecked(TextAndVideoNumbers, MagicNumberIndexRanges, 0)
    ensures KeysChecked(TextAndVideoNumbers, SupportedMediaTypes, 0)
  {
  }

  lemma ExtensionsApkToJarChecked()
    ensures TypesChecked(ExtensionsApkToJar, SupportedMediaTypes, 0)
  {
  }

  lemma ExtensionsApkToJarAvoid()
    ensures KeysOutside(ExtensionsApkToJar, UnlistedNames + {"png"})
  {
    KeysAvoidSound(ExtensionsApkToJar, UnlistedNames + {"png"}, 0);
  }

  lemma ExtensionsJpeToMp2Checked()
    ensures TypesChecked(ExtensionsJpeToMp2, SupportedMediaTypes, 0)
  {
  }

  lemma ExtensionsJpeToMp2Avoid()
    ensures KeysOutside(ExtensionsJpeToMp2, UnlistedNames + {"png"})
  {
    KeysAvoidSound(ExtensionsJpeToMp2, UnlistedNames + {"png"}, 0);
  }

  lemma ExtensionsMp3ToOdtChecked()
    ensures TypesChecked(ExtensionsMp3ToOdt, SupportedMediaTypes, 0)
  {
  }

  lemma ExtensionsMp3ToOdtAvoid()
    ensures KeysOutside(ExtensionsMp3ToOdt, UnlistedNames + {"png"})
  {
    KeysAvoidSound(ExtensionsMp3ToOdt, UnlistedNames + {"png"}, 0);
  }

  lemma ExtensionsOtfToWoffChecked()
    ensures TypesChecked(ExtensionsOtfToWoff, SupportedMediaTypes, 0)
  {
  }

  lemma ExtensionsOtfToWoffAvoid()
    ensures KeysOutside(ExtensionsOtfToWoff, UnlistedNames)
  {
    KeysAvoidSound(ExtensionsOtfToWoff, UnlistedNames, 0);
  }

  lemma ExtensionsWoff2ToZ03Checked()
    ensures TypesChecked(ExtensionsWoff2ToZ03, SupportedMediaTypes, 0)
  {
  }

  lemma ExtensionsWoff2ToZ03Avoid()
    ensures KeysOutside(ExtensionsWoff2ToZ03, UnlistedNames + {"png"})
  {
    KeysAvoidSound(ExtensionsWoff2ToZ03, UnlistedNames + {"png"}, 0);
  }

  lemma ExtensionsZ04ToZipxChecked()
    ensures TypesChecked(ExtensionsZ04ToZipx, SupportedMediaTypes, 0)
  {
  }

  lemma ExtensionsZ04ToZipxAvoid()
    ensures KeysOutside(ExtensionsZ04ToZipx, UnlistedNames + {"png"})
  {
    KeysAvoidSound(ExtensionsZ04ToZipx, UnlistedNames + {"png"}, 0);
  }

  /**
   * Every list entry is a key, a marker, an offset and at least one number,
   * every later marker is followed by an offset and at least one number, every
   * run lies inside the index ranges and every key is a supported media type.
   */
  lemma ListWellWritten()
    ensures WellWritten(MediaTypeAndMagicNumbersList)
    ensures ReadsWithin(MediaTypeAndMagicNumbersList, Covered(MagicNumberIndexRanges))
    ensures KeysWithin(MediaTypeAndMagicNumbersList, SupportedMediaTypes)
  {
    var s := Covered(MagicNumberIndexRanges);
    ApplicationNumbersChecked();
    CheckedTable(ApplicationNumbers, MagicNumberIndexRanges);
    CheckedKeys(ApplicationNumbers, SupportedMediaTypes);
    AudioAndFontNumbersChecked();
    CheckedTable(AudioAndFontNumbers, MagicNumberIndexRanges);
    CheckedKeys(AudioAndFontNumbers, SupportedMediaTypes);
    ImageNumbersChecked();
    CheckedTable(ImageNumbers, MagicNumberIndexRanges);
    CheckedKeys(ImageNumbers, SupportedMediaTypes);
    TextAndVideoNumbersChecked();
    CheckedTable(TextAndVideoNumbers, MagicNumberIndexRanges);
    CheckedKeys(TextAndVideoNumbers, SupportedMediaTypes);
    var t := ApplicationNumbers;
    WellWrittenAppend(t, AudioAndFontNumbers, s, SupportedMediaTypes);
    t := t + AudioAndFontNumbers;
    WellWrittenAppend(t, ImageNumbers, s, SupportedMediaTypes);
    t := t + ImageNumbers;
    WellWrittenAppend(t, TextAndVideoNumbers, s, SupportedMediaTypes);
    t := t + TextAndVideoNumbers;
  }

  /** Every media type the extension table names is a supported media type. */
  lemma ExtensionTypesSupported()
    ensures TypesWithin(ExtensionToMediaTypes, SupportedMediaTypes)
  {
    ExtensionsApkToJarChecked();
    CheckedTypes(ExtensionsApkToJar, SupportedMediaTypes);
    ExtensionsJpeToMp2Checked();
    CheckedTypes(ExtensionsJpeToMp2, SupportedMediaTypes);
    ExtensionsMp3ToOdtChecked();
    CheckedTypes(ExtensionsMp3ToOdt, SupportedMediaTypes);
    ExtensionsOtfToWoffChecked();
    CheckedTypes(ExtensionsOtfToWoff, SupportedMediaTypes);
    ExtensionsWoff2ToZ03Checked();
    CheckedTypes(ExtensionsWoff2ToZ03, SupportedMediaTypes);
    ExtensionsZ04ToZipxChecked();
    CheckedTypes(ExtensionsZ04ToZipx, SupportedMediaTypes);
    var t := ExtensionsApkToJar;
    TypesWithinAppend(t, ExtensionsJpeToMp2, SupportedMediaTypes);
    t := t + ExtensionsJpeToMp2;
    TypesWithinAppend(t, ExtensionsMp3ToOdt, SupportedMediaTypes);
    t := t + ExtensionsMp3ToOdt;
    TypesWithinAppend(t, ExtensionsOtfToWoff, SupportedMediaTypes);
    t := t + ExtensionsOtfToWoff;
    TypesWithinAppend(t, ExtensionsWoff2ToZ03, SupportedMediaTypes);
    t := t + ExtensionsWoff2ToZ03;
    TypesWithinAppend(t, ExtensionsZ04ToZipx, SupportedMediaTypes);
    t := t + ExtensionsZ04ToZipx;
  }

  /** None of the unlisted names is a key of the extension table. */
  lemma ExtensionsUnlisted()
    ensures KeysOutside(ExtensionToMediaTypes, UnlistedNames)
  {
    ExtensionsApkToJarAvoid();
    ExtensionsJpeToMp2Avoid();
    ExtensionsMp3ToOdtAvoid();
    ExtensionsOtfToWoffAvoid();
    ExtensionsWoff2ToZ03Avoid();
    ExtensionsZ04ToZipxAvoid();
    var t := ExtensionsApkToJar;
    KeysOutsideAppend(t, ExtensionsJpeToMp2, UnlistedNames);
    t := t + ExtensionsJpeToMp2;
    KeysOutsideAppend(t, ExtensionsMp3ToOdt, UnlistedNames);
    t := t + ExtensionsMp3ToOdt;
    KeysOutsideAppend(t, ExtensionsOtfToWoff, UnlistedNames);
    t := t + ExtensionsOtfToWoff;
    KeysOutsideAppend(t, ExtensionsWoff2ToZ03, UnlistedNames);
    t := t + ExtensionsWoff2ToZ03;
    KeysOutsideAppend(t, ExtensionsZ04ToZipx, UnlistedNames);
    t := t + ExtensionsZ04ToZipx;
  }

  lemma PngEntry()
    ensures OwnProperty(ExtensionsOtfToWoff, "png") == Some(["image/png", "image/apng"])
  {
    assert KeysAvoid(ExtensionsOtfToWoff, {"png"}, 3);
    KeysAvoidSound(ExtensionsOtfToWoff, {"png"}, 3);
    OwnPropertyFound(ExtensionsOtfToWoff, 2, "png");
  }

  /** The `png` entry lists the plain and the animated variant, in that order. */
  lemma PngTypes()
    ensures OwnProperty(ExtensionToMediaTypes, "png") == Some(["image/png", "image/apng"])
  {
    var before := ExtensionsApkToJar + ExtensionsJpeToMp2 + ExtensionsMp3ToOdt;
    ExtensionsWoff2ToZ03Avoid();
    NoOwnProperty(ExtensionsWoff2ToZ03, UnlistedNames + {"png"}, "png");
    ExtensionsZ04ToZipxAvoid();
    NoOwnProperty(ExtensionsZ04ToZipx, UnlistedNames + {"png"}, "png");
    PngEntry();
    OwnPropertyAppend(before, ExtensionsOtfToWoff, "png");
    OwnPropertyAppend(before + ExtensionsOtfToWoff, ExtensionsWoff2ToZ03, "png");
    OwnPropertyAppend(before + ExtensionsOtfToWoff + ExtensionsWoff2ToZ03, ExtensionsZ04ToZipx, "png");
  }

  /** The ranges are sorted, non-empty and do not overlap, an absent end counting as 0. */
  lemma IndexRangesSortedDisjoint()
    ensures SortedDisjoint(MagicNumberIndexRanges)
  {
    assert Precedes(MagicNumberIndexRanges[0], MagicNumberIndexRanges[1]);
    assert Precedes(MagicNumberIndexRanges[1], MagicNumberIndexRanges[2]);
  }

  /** The covered indices are -128..-126, -2..-1 and 0..11. */
  lemma CoveredIndices()
    ensures forall x :: x in Covered(MagicNumberIndexRanges) <==> -128 <= x < -125 || -2 <= x < 12
  {
    forall x ensures x in Covered(MagicNumberIndexRanges) <==> -128 <= x < -125 || -2 <= x < 12 {
      CoveredIff(MagicNumberIndexRanges, x);
      if -128 <= x < -125 {
        assert MagicNumberIndexRanges[0].begin <= x < EndOrZero(MagicNumberIndexRanges[0]);
      } else if -2 <= x < 0 {
        assert MagicNumberIndexRanges[1].begin <= x < EndOrZero(MagicNumberIndexRanges[1]);
      } else if 0 <= x < 12 {
        assert MagicNumberIndexRanges[2].begin <= x < EndOrZero(MagicNumberIndexRanges[2]);
      }
    }
  }

  /**
   * The entries that reach the ends of the ranges: audio/mpeg's ID3v1 `TAG` at
   * -128, image/jpeg's SOI at 0 and EOI at -2, image/apng's PNG signature at
   * 0 and image/avif's `ftypavif` at 4.
   */
  lemma WideRuns()
    ensures var l := MediaTypeAndMagicNumbersList;
      |l| == 29 &&
      l[12] == ("audio/mpeg", [Run(-128, [0x54, 0x41, 0x47])]) &&
      l[21] == ("image/jpeg", [Run(0, [0xff, 0xd8, 0xff]), Run(-2, [0xff, 0xd9])]) &&
      |l[18].1| == 1 && l[18].1[0].offset == 0 && |l[18].1[0].bytes| == 8 &&
      |l[19].1| == 1 && l[19].1[0].offset == 4 && |l[19].1[0].bytes| == 8
  {
    var l := MediaTypeAndMagicNumbersList;
    assert l[12] == AudioAndFontNumbers[1];
    assert l[18] == ImageNumbers[0] && l[19] == ImageNumbers[1] && l[21] == ImageNumbers[3];
  }

  /** A table holding those runs reads every index from -128 to -126, from -2 to -1 and from 0 to 11. */
  lemma ReadAcross(t: Table)
    requires |t| == 29 && |t[12].1| == 1 && |t[21].1| == 2 && |t[18].1| == 1 && |t[19].1| == 1
    requires t[12].1[0].offset == -128 && |t[12].1[0].bytes| == 3
    requires t[21].1[1].offset == -2 && |t[21].1[1].bytes| == 2
    requires t[18].1[0].offset == 0 && |t[18].1[0].bytes| == 8
    requires t[19].1[0].offset == 4 && |t[19].1[0].bytes| == 8
    ensures forall x :: -128 <= x < -125 || -2 <= x < 12 ==> x in DecodedIndices(ExpandTable(t))
  {
    RunDecoded(t, 12, 0);
    RunDecoded(t, 21, 1);
    RunDecoded(t, 18, 0);
    RunDecoded(t, 19, 0);
  }

  /** The indices the ranges cover are exactly the indices the list's entries read. */
  lemma CoveredIndicesAreDecodedIndices()
    ensures DecodedIndices(ExpandTable(MediaTypeAndMagicNumbersList)) == Covered(MagicNumberIndexRanges)
  {
    CoveredIndices();
    ListWellWritten();
    WideRuns();
    ReadAcross(MediaTypeAndMagicNumbersList);
    DecodedIsCovered(MediaTypeAndMagicNumbersList, Covered(MagicNumberIndexRanges));
  }

  /**
   * ID3v1 `TAG` sits 128 bytes before the end and JPEG's EOI `ff d9` in the
   * last two bytes; JPEG's entry reads `ff d8 ff` at 0..2 and `ff d9` at -2..-1,
   * each inside a range.
   */
  lemma NegativeOffsets()
    ensures Expand(MediaTypeAndMagicNumbersList[12].1) == [(-128, 0x54), (-127, 0x41), (-126, 0x47)]
    ensures Expand(MediaTypeAndMagicNumbersList[21].1) == [(0, 0xff), (1, 0xd8), (2, 0xff), (-2, 0xff), (-1, 0xd9)]
    ensures forall x :: x in [-128, -127, -126, -2, -1, 0, 1, 2] ==> x in Covered(MagicNumberIndexRanges)
  {
    WideRuns();
    CoveredIndices();
  }

  /** `application/xml` has three alternative entries with different signatures. */
  lemma XmlAlternatives()
    ensures var l := MediaTypeAndMagicNumbersList;
      l[6].0 == l[7].0 == l[8].0 == "application/xml" &&
      l[6].1 != l[7].1 && l[7].1 != l[8].1 && l[6].1 != l[8].1
  {
    var l := MediaTypeAndMagicNumbersList;
    assert l[6] == ApplicationNumbers[6] && l[7] == ApplicationNumbers[7] && l[8] == ApplicationNumbers[8];
  }
}
