/**
 * The signature collection of src/preset/mediaTypeAndMagicBytesCollection.ts,
 * its index ranges and the constants derived from them. The collection is
 * written in the marker layout; here it is kept as run lists, and its literal
 * layout is `MarkerTable(MediaTypeAndMagicBytesCollection)`. It is written out
 * in groups of entries, kept in the source's order, so that each group can be
 * checked on its own.
 */
module MagicBytesCollection {
  import opened Wrappers
  import opened Matching
  import opened Signatures
  import opened IndexRanges
  import opened TableChecks
  import Sequence
  import SparseArray

  /** The application entries. */
  const ApplicationEntries: Table := [
    ("application/gzip", [Run(0, [0x1f, 0x8b])]),
    ("application/java-archive", [Run(0, [0x50, 0x4b, 0x03, 0x04])]),
    ("application/pdf", [Run(0, [0x25, 0x50, 0x44, 0x46, 0x2d])]),
    ("application/vnd.openxmlformats-officedocument.presentationml.presentation", [Run(0, [0x50, 0x4b, 0x03, 0x04])]),
    ("application/vnd.openxmlformats-officedocument.spreadsheetml.sheet", [Run(0, [0x50, 0x4b, 0x03, 0x04])]),
    ("application/vnd.openxmlformats-officedocument.wordprocessingml.document", [Run(0, [0x50, 0x4b, 0x03, 0x04])]),
    ("application/xml-dtd", [Run(0, [0x3c, 0x21])]),
    ("application/xml", [Run(0, [0x3c, 0x3f, 0x78, 0x6d, 0x6c])]),
    ("application/zip", [Run(0, [0x50, 0x4b, 0x03, 0x04])]),
    ("application/zip", [Run(0, [0x50, 0x4b, 0x07, 0x08, 0x50, 0x4b, 0x03, 0x04])]),
    ("application/zip", [Run(0, [0x50, 0x4b, 0x05, 0x06])])
  ]

  /** The audio entries. */
  const AudioEntries: Table := [
    ("audio/mpeg", [Run(0, [0x49, 0x44, 0x33])]),
    ("audio/mpeg", [Run(0, [0xff, 0xfb])]),
    ("audio/mpeg", [Run(0, [0xff, 0xfd])]),
    ("audio/mpeg", [Run(0, [0xff, 0xfe])])
  ]

  /** The font entries. */
  const FontEntries: Table := [
    ("font/otf", [Run(0, [0x4f, 0x54, 0x54, 0x4f])]),
    ("font/otf", [Run(0, [0x00, 0x01, 0x00, 0x00])]),
    ("font/ttf", [Run(0, [0x00, 0x01, 0x00, 0x00])]),
    ("font/woff", [Run(0, [0x77, 0x4f, 0x46, 0x46])]),
    ("font/woff2", [Run(0, [0x77, 0x4f, 0x46, 0x32])])
  ]

  /** The image entries from `image/apng` to `image/jpx`. */
  const ImageEntries: Table := [
    ("image/apng", [Run(0, [0x89, 0x50, 0x4e, 0x47, 0x0d, 0x0a, 0x1a, 0x0a])]),
    ("image/avif", [Run(4, [0x66, 0x74, 0x79, 0x70, 0x61, 0x76, 0x69])]),
    ("image/bmp", [Run(0, [0x42, 0x4d])]),
    ("image/gif", [Run(0, [0x47, 0x49, 0x46])]),
    ("image/heic", [Run(4, [0x66, 0x74, 0x79, 0x70, 0x68, 0x65, 0x69])]),
    ("image/heic-sequence", [Run(4, [0x66, 0x74, 0x79, 0x70, 0x68, 0x65, 0x76])]),
    ("image/heif", [Run(4, [0x66, 0x74, 0x79, 0x70, 0x6d, 0x69, 0x66])]),
    ("image/heif-sequence", [Run(4, [0x66, 0x74, 0x79, 0x70, 0x6d, 0x73, 0x66])]),
    ("image/j2c", [Run(0, [0xff, 0x4f, 0xff, 0x51])]),
    ("image/jp2", [Run(0, [0x00, 0x00, 0x00, 0x0c, 0x6a]), Run(20, [0x6a, 0x70, 0x32])]),
    ("image/jpm", [Run(0, [0x00, 0x00, 0x00, 0x0c, 0x6a]), Run(20, [0x6a, 0x70, 0x6d])]),
    ("image/jpx", [Run(0, [0x00, 0x00, 0x00, 0x0c, 0x6a]), Run(20, [0x6a, 0x70, 0x78])])
  ]

  /** The image entries from `image/jpeg` to `image/webp`. */
  const MoreImageEntries: Table := [
    ("image/jpeg", [Run(0, [0xff, 0xd8, 0xff])]),
    ("image/png", [Run(0, [0x89, 0x50, 0x4e, 0x47, 0x0d, 0x0a, 0x1a, 0x0a])]),
    ("image/svg+xml", [Run(0, [0x3c, 0x73, 0x76, 0x67])]),
    ("image/svg+xml", [Run(0, [0x3c, 0x3f, 0x78, 0x6d, 0x6c])]),
    ("image/tiff", [Run(0, [0x49, 0x49, 0x2a, 0x00])]),
    ("image/tiff", [Run(0, [0x4d, 0x4d, 0x00, 0x2a])]),
    ("image/vnd.djvu", [Run(0, [0x41, 0x54, 0x26, 0x54, 0x46, 0x4f, 0x52, 0x4d])]),
    ("image/vnd.microsoft.icon", [Run(0, [0x00, 0x00, 0x01, 0x00])]),
    ("image/vnd.wap.wbmp", [Run(0, [0x00, 0x00])]),
    ("image/webp", [Run(0, [0x52, 0x49, 0x46, 0x46]), Run(8, [0x57, 0x45, 0x42, 0x50])])
  ]

  /** The text entries. */
  const TextEntries: Table := [
    ("text/html", [Run(0, [0x3c, 0x21, 0x44, 0x4f, 0x43, 0x54, 0x59, 0x50])]),
    ("text/html", [Run(0, [0x3c, 0x21, 0x64, 0x6f, 0x63, 0x74, 0x79, 0x70])])
  ]

  /** The video entries. */
  const VideoEntries: Table := [
    ("video/mj2", [Run(0, [0x00, 0x00, 0x00, 0x0c, 0x6a]), Run(20, [0x6d, 0x6a])]),
    ("video/mp4", [Run(4, [0x66, 0x74, 0x79, 0x70, 0x69, 0x73, 0x6f])]),
    ("video/mp4", [Run(4, [0x66, 0x74, 0x79, 0x70, 0x6d, 0x70, 0x34, 0x32])]),
    ("video/mp4", [Run(4, [0x66, 0x74, 0x79, 0x70, 0x6d, 0x70, 0x34, 0x31])]),
    ("video/mp4", [Run(4, [0x66, 0x74, 0x79, 0x70, 0x61, 0x76, 0x63, 0x31])]),
    ("video/mpeg", [Run(0, [0x00, 0x00, 0x01, 0xba])]),
    ("video/mpeg", [Run(0, [0x00, 0x00, 0x01, 0xb3])])
  ]

  /** `mediaTypeAndMagicBytesCollection`: 51 entries in the source's order. */
  const MediaTypeAndMagicBytesCollection: Table :=
    ApplicationEntries + AudioEntries + FontEntries + ImageEntries + MoreImageEntries + TextEntries + VideoEntries

  /** `magicBytesIndexRanges`: `[0, 12)` and `[20, 23)`. */
  const MagicBytesIndexRanges: seq<IndexRange> := [IndexRange(0, Some(12)), IndexRange(20, Some(23))]

  /** `magicBytesIndexMax`: the end of the last range. */
  function MagicBytesIndexMax(): int
  {
    EndOrZero(MagicBytesIndexRanges[|MagicBytesIndexRanges| - 1])
  }

  /** `magicBytesIndexMin`: the begin of the first range. */
  function MagicBytesIndexMin(): int
  {
    MagicBytesIndexRanges[0].begin
  }

  /** `magicBytesIndexRange`: the maximum less the minimum. */
  function MagicBytesIndexRange(): int
  {
    MagicBytesIndexMax() - MagicBytesIndexMin()
  }

  lemma ApplicationEntriesChecked()
    ensures EntriesChecked(ApplicationEntries, MagicBytesIndexRanges, 0)
  {
    assert EntriesChecked(ApplicationEntries, MagicBytesIndexRanges, 10);
    assert EntriesChecked(ApplicationEntries, MagicBytesIndexRanges, 9);
    assert EntriesChecked(ApplicationEntries, MagicBytesIndexRanges, 8);
    assert EntriesChecked(ApplicationEntries, MagicBytesIndexRanges, 7);
    assert EntriesChecked(ApplicationEntries, MagicBytesIndexRanges, 6);
    assert EntriesChecked(ApplicationEntries, MagicBytesIndexRanges, 5);
    assert EntriesChecked(ApplicationEntries, MagicBytesIndexRanges, 4);
    assert EntriesChecked(ApplicationEntries, MagicBytesIndexRanges, 3);
    assert EntriesChecked(ApplicationEntries, MagicBytesIndexRanges, 2);
    assert EntriesChecked(ApplicationEntries, MagicBytesIndexRanges, 1);
  }

  lemma AudioEntriesChecked()
    ensures EntriesChecked(AudioEntries, MagicBytesIndexRanges, 0)
  {
  }

  lemma FontEntriesChecked()
    ensures EntriesChecked(FontEntries, MagicBytesIndexRanges, 0)
  {
  }

  lemma ImageEntriesChecked()
    ensures EntriesChecked(ImageEntries, MagicBytesIndexRanges, 0)
  {
    assert EntriesChecked(ImageEntries, MagicBytesIndexRanges, 11);
    assert EntriesChecked(ImageEntries, MagicBytesIndexRanges, 10);
    assert EntriesChecked(ImageEntries, MagicBytesIndexRanges, 9);
    assert EntriesChecked(ImageEntries, MagicBytesIndexRanges, 8);
    assert EntriesChecked(ImageEntries, MagicBytesIndexRanges, 7);
    assert EntriesChecked(ImageEntries, MagicBytesIndexRanges, 6);
    assert EntriesChecked(ImageEntries, MagicBytesIndexRanges, 5);
    assert EntriesChecked(ImageEntries, MagicBytesIndexRanges, 4);
    assert EntriesChecked(ImageEntries, MagicBytesIndexRanges, 3);
    assert EntriesChecked(ImageEntries, MagicBytesIndexRanges, 2);
    assert EntriesChecked(ImageEntries, MagicBytesIndexRanges, 1);
  }

  lemma MoreImageEntriesChecked()
    ensures EntriesChecked(MoreImageEntries, MagicBytesIndexRanges, 0)
  {
    assert EntriesChecked(MoreImageEntries, MagicBytesIndexRanges, 9);
    assert EntriesChecked(MoreImageEntries, MagicBytesIndexRanges, 8);
    assert EntriesChecked(MoreImageEntries, MagicBytesIndexRanges, 7);
    assert EntriesChecked(MoreImageEntries, MagicBytesIndexRanges, 6);
    assert EntriesChecked(MoreImageEntries, MagicBytesIndexRanges, 5);
    assert EntriesChecked(MoreImageEntries, MagicBytesIndexRanges, 4);
    assert EntriesChecked(MoreImageEntries, MagicBytesIndexRanges, 3);
    assert EntriesChecked(MoreImageEntries, MagicBytesIndexRanges, 2);
    assert EntriesChecked(MoreImageEntries, MagicBytesIndexRanges, 1);
  }

  lemma TextEntriesChecked()
    ensures EntriesChecked(TextEntries, MagicBytesIndexRanges, 0)
  {
  }

  lemma VideoEntriesChecked()
    ensures EntriesChecked(VideoEntries, MagicBytesIndexRanges, 0)
  {
    assert EntriesChecked(VideoEntries, MagicBytesIndexRanges, 6);
    assert EntriesChecked(VideoEntries, MagicBytesIndexRanges, 5);
    assert EntriesChecked(VideoEntries, MagicBytesIndexRanges, 4);
    assert EntriesChecked(VideoEntries, MagicBytesIndexRanges, 3);
    assert EntriesChecked(VideoEntries, MagicBytesIndexRanges, 2);
    assert EntriesChecked(VideoEntries, MagicBytesIndexRanges, 1);
  }

  /**
   * Every entry is a key, a marker, an offset and at least one byte, and every
   * later marker is followed by an offset and at least one byte; every run
   * lies inside the index ranges.
   */
  lemma CollectionWellWritten()
    ensures WellWritten(MediaTypeAndMagicBytesCollection)
    ensures ReadsWithin(MediaTypeAndMagicBytesCollection, Covered(MagicBytesIndexRanges))
  {
    var s := Covered(MagicBytesIndexRanges);
    ApplicationEntriesChecked();
    AudioEntriesChecked();
    FontEntriesChecked();
    ImageEntriesChecked();
    MoreImageEntriesChecked();
    TextEntriesChecked();
    VideoEntriesChecked();
    CheckedTable(ApplicationEntries, MagicBytesIndexRanges);
    CheckedTable(AudioEntries, MagicBytesIndexRanges);
    CheckedTable(FontEntries, MagicBytesIndexRanges);
    CheckedTable(ImageEntries, MagicBytesIndexRanges);
    CheckedTable(MoreImageEntries, MagicBytesIndexRanges);
    CheckedTable(TextEntries, MagicBytesIndexRanges);
    CheckedTable(VideoEntries, MagicBytesIndexRanges);
    var t := ApplicationEntries;
    WellWrittenAppend(t, AudioEntries, s, {});
    t := t + AudioEntries;
    WellWrittenAppend(t, FontEntries, s, {});
    t := t + FontEntries;
    WellWrittenAppend(t, ImageEntries, s, {});
    t := t + ImageEntries;
    WellWrittenAppend(t, MoreImageEntries, s, {});
    t := t + MoreImageEntries;
    WellWrittenAppend(t, TextEntries, s, {});
    t := t + TextEntries;
    WellWrittenAppend(t, VideoEntries, s, {});
  }

  /** The ranges are sorted, non-empty and do not overlap. */
  lemma IndexRangesSortedDisjoint()
    ensures SortedDisjoint(MagicBytesIndexRanges)
  {
    assert Precedes(MagicBytesIndexRanges[0], MagicBytesIndexRanges[1]);
  }

  /** Each index from 0 to 11 and from 20 to 22 is read by some entry. */
  lemma RangesReadByEntries()
    ensures forall x :: 0 <= x < 12 || 20 <= x < 23 ==> x in DecodedIndices(ExpandTable(MediaTypeAndMagicBytesCollection))
  {
    // `<!DOCTYP` of text/html reads 0..7, the `ftypmp42` brand of video/mp4
    // reads 4..11, and the `jp2` run of image/jp2 reads 20..22
    WideRuns();
    ReadAcross(MediaTypeAndMagicBytesCollection);
  }

  /** The three runs that reach furthest: text/html's first, video/mp4's brand and image/jp2's `jp2`. */
  lemma WideRuns()
    ensures var c := MediaTypeAndMagicBytesCollection;
      |c| == 51 && |c[42].1| > 0 && |c[46].1| > 0 && |c[29].1| > 1 &&
      c[42].1[0].offset == 0 && |c[42].1[0].bytes| == 8 &&
      c[46].1[0].offset == 4 && |c[46].1[0].bytes| == 8 &&
      c[29].1[1].offset == 20 && |c[29].1[1].bytes| == 3
  {
    var c := MediaTypeAndMagicBytesCollection;
    assert c[42] == TextEntries[0] && c[46] == VideoEntries[2] && c[29] == ImageEntries[9];
  }

  /** A table holding those three runs reads every index from 0 to 11 and from 20 to 22. */
  lemma ReadAcross(t: Table)
    requires |t| == 51 && |t[42].1| > 0 && |t[46].1| > 0 && |t[29].1| > 1
    requires t[42].1[0].offset == 0 && |t[42].1[0].bytes| == 8
    requires t[46].1[0].offset == 4 && |t[46].1[0].bytes| == 8
    requires t[29].1[1].offset == 20 && |t[29].1[1].bytes| == 3
    ensures forall x :: 0 <= x < 12 || 20 <= x < 23 ==> x in DecodedIndices(ExpandTable(t))
  {
    RunDecoded(t, 42, 0);
    RunDecoded(t, 46, 0);
    RunDecoded(t, 29, 1);
  }

  /** The covered indices are 0..11 and 20..22. */
  lemma CoveredIndices()
    ensures forall x :: x in Covered(MagicBytesIndexRanges) <==> 0 <= x < 12 || 20 <= x < 23
  {
    forall x ensures x in Covered(MagicBytesIndexRanges) <==> 0 <= x < 12 || 20 <= x < 23 {
      CoveredIff(MagicBytesIndexRanges, x);
      if 0 <= x < 12 {
        assert MagicBytesIndexRanges[0].begin <= x < EndOrZero(MagicBytesIndexRanges[0]);
      } else if 20 <= x < 23 {
        assert MagicBytesIndexRanges[1].begin <= x < EndOrZero(MagicBytesIndexRanges[1]);
      }
    }
  }

  /** The indices the ranges cover are exactly the indices the decoders read from the collection's entries. */
  lemma CoveredIndicesAreDecodedIndices()
    ensures DecodedIndices(ExpandTable(MediaTypeAndMagicBytesCollection)) == Covered(MagicBytesIndexRanges)
  {
    CoveredIndices();
    CollectionWellWritten();
    RangesReadByEntries();
    DecodedIsCovered(MediaTypeAndMagicBytesCollection, Covered(MagicBytesIndexRanges));
  }

  /**
   * `magicBytesIndexMax == 23`, `magicBytesIndexMin == 0` and
   * `magicBytesIndexRange == 23`, and every index the collection reads lies in
   * `[magicBytesIndexMin, magicBytesIndexMax)`.
   */
  lemma DerivedConstants()
    ensures MagicBytesIndexMax() == 23 && MagicBytesIndexMin() == 0 && MagicBytesIndexRange() == 23
    ensures forall x :: x in DecodedIndices(ExpandTable(MediaTypeAndMagicBytesCollection)) ==>
      MagicBytesIndexMin() <= x < MagicBytesIndexMax()
  {
    CoveredIndices();
    CoveredIndicesAreDecodedIndices();
  }

  /**
   * The image/webp entry reads `RIFF` at 0..3 and `WEBP` at 8..11 and leaves
   * 4..7, the chunk size, free.
   */
  lemma WebpRuns()
    ensures MediaTypeAndMagicBytesCollection[41].0 == "image/webp"
    ensures Expand(MediaTypeAndMagicBytesCollection[41].1) ==
      SparseArray.Section(0, [0x52, 0x49, 0x46, 0x46]) + SparseArray.Section(8, [0x57, 0x45, 0x42, 0x50])
    ensures SigIndices(MediaTypeAndMagicBytesCollection[41].1) == Interval(0, 4) + Interval(8, 12)
  {
    var sig := MediaTypeAndMagicBytesCollection[41].1;
    assert sig == MoreImageEntries[9].1;
    assert sig[1..][1..] == [];
  }

  /** Keys repeat (application/zip has three entries, video/mp4 four), so the matchers' skip of recorded keys is exercised. */
  lemma RepeatedKeys()
    ensures exists i, j ::
      0 <= i < j < |MediaTypeAndMagicBytesCollection| &&
      MediaTypeAndMagicBytesCollection[i].0 == MediaTypeAndMagicBytesCollection[j].0
  {
    var c := MediaTypeAndMagicBytesCollection;
    assert c[8].0 == c[9].0 == "application/zip";
  }

  lemma ApplicationEntriesOnIconBytes()
    ensures TableChecks.KeysMatchingData(ApplicationEntries, [0x00, 0x00, 0x01, 0x00], 0) == {}
  {
  }

  lemma AudioEntriesOnIconBytes()
    ensures TableChecks.KeysMatchingData(AudioEntries, [0x00, 0x00, 0x01, 0x00], 0) == {}
  {
  }

  lemma FontEntriesOnIconBytes()
    ensures TableChecks.KeysMatchingData(FontEntries, [0x00, 0x00, 0x01, 0x00], 0) == {}
  {
  }

  lemma ImageEntriesOnIconBytes()
    ensures TableChecks.KeysMatchingData(ImageEntries, [0x00, 0x00, 0x01, 0x00], 0) == {}
  {
  }

  lemma MoreImageEntriesOnIconBytes()
    ensures TableChecks.KeysMatchingData(MoreImageEntries, [0x00, 0x00, 0x01, 0x00], 0) ==
      {"image/vnd.microsoft.icon", "image/vnd.wap.wbmp"}
  {
  }

  lemma TextEntriesOnIconBytes()
    ensures TableChecks.KeysMatchingData(TextEntries, [0x00, 0x00, 0x01, 0x00], 0) == {}
  {
  }

  lemma VideoEntriesOnIconBytes()
    ensures TableChecks.KeysMatchingData(VideoEntries, [0x00, 0x00, 0x01, 0x00], 0) == {}
  {
  }

  /**
   * The bytes `00 00 01 00` match exactly image/vnd.microsoft.icon (`00 00 01 00`)
   * and image/vnd.wap.wbmp (`00 00`); every other entry reads a byte that
   * differs or an index beyond the fourth byte.
   */
  lemma IconBytesMatchIconAndWbmp()
    ensures MatchedKeys(ExpandTable(MediaTypeAndMagicBytesCollection), ArrayWindow([0x00, 0x00, 0x01, 0x00])) ==
      {"image/vnd.microsoft.icon", "image/vnd.wap.wbmp"}
  {
    var data := [0x00, 0x00, 0x01, 0x00];
    var w := ArrayWindow(data);
    ApplicationEntriesOnIconBytes();
    AudioEntriesOnIconBytes();
    FontEntriesOnIconBytes();
    ImageEntriesOnIconBytes();
    MoreImageEntriesOnIconBytes();
    TextEntriesOnIconBytes();
    VideoEntriesOnIconBytes();
    var t := ApplicationEntries;
    KeysMatchingDataIsMatchedKeys(t, data);
    KeysMatchingDataIsMatchedKeys(AudioEntries, data);
    MatchedKeysOfAppend(t, AudioEntries, w);
    t := t + AudioEntries;
    KeysMatchingDataIsMatchedKeys(FontEntries, data);
    MatchedKeysOfAppend(t, FontEntries, w);
    t := t + FontEntries;
    KeysMatchingDataIsMatchedKeys(ImageEntries, data);
    MatchedKeysOfAppend(t, ImageEntries, w);
    t := t + ImageEntries;
    KeysMatchingDataIsMatchedKeys(MoreImageEntries, data);
    MatchedKeysOfAppend(t, MoreImageEntries, w);
    t := t + MoreImageEntries;
    KeysMatchingDataIsMatchedKeys(TextEntries, data);
    MatchedKeysOfAppend(t, TextEntries, w);
    t := t + TextEntries;
    KeysMatchingDataIsMatchedKeys(VideoEntries, data);
    MatchedKeysOfAppend(t, VideoEntries, w);
  }
}
