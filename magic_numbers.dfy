/**
 * The magic numbers of src/preset/magicNumbers.ts: the byte signatures, the
 * masked signature with its masks, and the offset-end constants that bound
 * the bytes a caller must read. The tables are written in the marker layout;
 * here they are run lists, and the literal layout of each is its `MarkerForm`.
 */
module MagicNumbers {
  import opened Wrappers
  import opened Matching
  import opened Signatures
  import opened IndexRanges
  import opened TableChecks
  import Sequence

  /** The application entries. */
  const ApplicationBytes: Table := [
    ("application/gzip", [Run(0, [0x1f, 0x8b])]),
    ("application/java-archive", [Run(0, [0x50, 0x4b, 0x03, 0x04])]),
    ("application/pdf", [Run(0, [0x25, 0x50, 0x44, 0x46, 0x2d])]),
    ("application/vnd.openxmlformats-officedocument.presentationml.presentation", [Run(0, [0x50, 0x4b, 0x03, 0x04])]),
    ("application/vnd.openxmlformats-officedocument.spreadsheetml.sheet", [Run(0, [0x50, 0x4b, 0x03, 0x04])]),
    ("application/vnd.openxmlformats-officedocument.wordprocessingml.document", [Run(0, [0x50, 0x4b, 0x03, 0x04])]),
    ("application/xml-dtd", [Run(0, [0x3c, 0x21])]),
    ("application/xml", [Run(0, [0x3c, 0x3f, 0x78, 0x6d, 0x6c])]),
    ("application/zip", [Run(0, [0x50, 0x4b, 0x03, 0x04])]),
    ("application/zip", [Run(0, [0x50, 0x4b, 0x07, 0x08, 0x50, 0x4b, 0x03, 0x04])]),
    ("application/zip", [Run(0, [0x50, 0x4b, 0x05, 0x06])])
  ]

  /** The audio entry. */
  const AudioBytes: Table := [
    ("audio/mpeg", [Run(0, [0x49, 0x44, 0x33])])
  ]

  /** The font entries. */
  const FontBytes: Table := [
    ("font/otf", [Run(0, [0x4f, 0x54, 0x54, 0x4f])]),
    ("font/otf", [Run(0, [0x00, 0x01, 0x00, 0x00])]),
    ("font/ttf", [Run(0, [0x00, 0x01, 0x00, 0x00])]),
    ("font/woff", [Run(0, [0x77, 0x4f, 0x46, 0x46])]),
    ("font/woff2", [Run(0, [0x77, 0x4f, 0x46, 0x32])])
  ]

  /** The image entries from `image/apng` to `image/jpx`. */
  const ImageBytes: Table := [
    ("image/apng", [Run(0, [0x89, 0x50, 0x4e, 0x47, 0x0d, 0x0a, 0x1a, 0x0a])]),
    ("image/avif", [Run(4, [0x66, 0x74, 0x79, 0x70, 0x61, 0x76, 0x69])]),
    ("image/bmp", [Run(0, [0x42, 0x4d])]),
    ("image/gif", [Run(0, [0x47, 0x49, 0x46])]),
    ("image/heic", [Run(4, [0x66, 0x74, 0x79, 0x70, 0x68, 0x65, 0x69])]),
    ("image/heic-sequence", [Run(4, [0x66, 0x74, 0x79, 0x70, 0x68, 0x65, 0x76])]),
    ("image/heif", [Run(4, [0x66, 0x74, 0x79, 0x70, 0x6d, 0x69, 0x66])]),
    ("image/heif-sequence", [Run(4, [0x66, 0x74, 0x79, 0x70, 0x6d, 0x73, 0x66])]),
    ("image/j2c", [Run(0, [0xff, 0x4f, 0xff, 0x51])]),
    ("image/jp2", [Run(0, [0x00, 0x00, 0x00, 0x0c, 0x6a]), Run(20, [0x6a, 0x70, 0x32])]),
    ("image/jpm", [Run(0, [0x00, 0x00, 0x00, 0x0c, 0x6a]), Run(20, [0x6a, 0x70, 0x6d])]),
    ("image/jpx", [Run(0, [0x00, 0x00, 0x00, 0x0c, 0x6a]), Run(20, [0x6a, 0x70, 0x78])])
  ]

  /** The image entries from `image/jpeg` to `image/webp`. */
  const MoreImageBytes: Table := [
    ("image/jpeg", [Run(0, [0xff, 0xd8, 0xff])]),
    ("image/png", [Run(0, [0x89, 0x50, 0x4e, 0x47, 0x0d, 0x0a, 0x1a, 0x0a])]),
    ("image/svg+xml", [Run(0, [0x3c, 0x73, 0x76, 0x67])]),
    ("image/svg+xml", [Run(0, [0x3c, 0x3f, 0x78, 0x6d, 0x6c])]),
    ("image/tiff", [Run(0, [0x49, 0x49, 0x2a, 0x00])]),
    ("image/tiff", [Run(0, [0x4d, 0x4d, 0x00, 0x2a])]),
    ("image/vnd.djvu", [Run(0, [0x41, 0x54, 0x26, 0x54, 0x46, 0x4f, 0x52, 0x4d])]),
    ("image/vnd.microsoft.icon", [Run(0, [0x00, 0x00, 0x01, 0x00])]),
    ("image/vnd.wap.wbmp", [Run(0, [0x00, 0x00])]),
    ("image/webp", [Run(0, [0x52, 0x49, 0x46, 0x46]), Run(8, [0x57, 0x45, 0x42, 0x50])])
  ]

  /** The text entries. */
  const TextBytes: Table := [
    ("text/html", [Run(0, [0x3c, 0x21, 0x44, 0x4f, 0x43, 0x54, 0x59, 0x50])]),
    ("text/html", [Run(0, [0x3c, 0x21, 0x64, 0x6f, 0x63, 0x74, 0x79, 0x70])])
  ]

  /** The video entries. */
  const VideoBytes: Table := [
    ("video/mj2", [Run(0, [0x00, 0x00, 0x00, 0x0c, 0x6a]), Run(20, [0x6d, 0x6a])]),
    ("video/mp4", [Run(4, [0x66, 0x74, 0x79, 0x70, 0x69, 0x73, 0x6f])]),
    ("video/mp4", [Run(4, [0x66, 0x74, 0x79, 0x70, 0x6d, 0x70, 0x34, 0x32])]),
    ("video/mp4", [Run(4, [0x66, 0x74, 0x79, 0x70, 0x6d, 0x70, 0x34, 0x31])]),
    ("video/mp4", [Run(4, [0x66, 0x74, 0x79, 0x70, 0x61, 0x76, 0x63, 0x31])]),
    ("video/mpeg", [Run(0, [0x00, 0x00, 0x01, 0xba])]),
    ("video/mpeg", [Run(0, [0x00, 0x00, 0x01, 0xb3])])
  ]

  /** `mediaTypeAndMagicBytes`: 48 entries in the source's order. */
  const MediaTypeAndMagicBytes: Table :=
    ApplicationBytes + AudioBytes + FontBytes + ImageBytes + MoreImageBytes + TextBytes + VideoBytes

  /** `magicBytesOffsetEnd`. */
  const MagicBytesOffsetEnd: int := 23

  /** `mediaTypeAndMagicMaskedBytes`: MPEG audio frame sync, `ff e0` under the masks. */
  const MediaTypeAndMagicMaskedBytes: Table := [("audio/mpeg", [Run(0, [0xff, 0xe0])])]

  /** `magicMaskedBytesOffsetEnd`. */
  const MagicMaskedBytesOffsetEnd: int := 2

  /** `magicMasks`: the masks, one run from offset 0. */
  const MagicMasks: Signature := [Run(0, [0xff, 0xe0])]

  /** `magicNumbersOffsetEnd`: the larger of the two offset ends. */
  function MagicNumbersOffsetEnd(): (e: int)
    ensures e >= MagicBytesOffsetEnd && e >= MagicMaskedBytesOffsetEnd
    ensures e == MagicBytesOffsetEnd || e == MagicMaskedBytesOffsetEnd
  {
    if MagicBytesOffsetEnd >= MagicMaskedBytesOffsetEnd then MagicBytesOffsetEnd else MagicMaskedBytesOffsetEnd
  }

  /** The indices below the byte signatures' offset end, as a range. */
  const BytesOffsetRange: seq<IndexRange> := [IndexRange(0, Some(MagicBytesOffsetEnd))]

  lemma ApplicationBytesChecked()
    ensures EntriesChecked(ApplicationBytes, BytesOffsetRange, 0)
  {
  }

  lemma AudioBytesChecked()
    ensures EntriesChecked(AudioBytes, BytesOffsetRange, 0)
  {
  }

  lemma FontBytesChecked()
    ensures EntriesChecked(FontBytes, BytesOffsetRange, 0)
  {
  }

  lemma ImageBytesChecked()
    ensures EntriesChecked(ImageBytes, BytesOffsetRange, 0)
  {
  }

  lemma MoreImageBytesChecked()
    ensures EntriesChecked(MoreImageBytes, BytesOffsetRange, 0)
  {
  }

  lemma TextBytesChecked()
    ensures EntriesChecked(TextBytes, BytesOffsetRange, 0)
  {
  }

  lemma VideoBytesChecked()
    ensures EntriesChecked(VideoBytes, BytesOffsetRange, 0)
  {
  }

  /**
   * Every entry of the byte signatures is a marker, an offset and at least one
   * byte, every later marker is followed by an offset and at least one byte,
   * and every run lies in `[0, magicBytesOffsetEnd)`.
   */
  lemma MagicBytesChecked()
    ensures WellWritten(MediaTypeAndMagicBytes)
    ensures ReadsWithin(MediaTypeAndMagicBytes, Covered(BytesOffsetRange))
  {
    var s := Covered(BytesOffsetRange);
    ApplicationBytesChecked();
    CheckedTable(ApplicationBytes, BytesOffsetRange);
    AudioBytesChecked();
    CheckedTable(AudioBytes, BytesOffsetRange);
    FontBytesChecked();
    CheckedTable(FontBytes, BytesOffsetRange);
    ImageBytesChecked();
    CheckedTable(ImageBytes, BytesOffsetRange);
    MoreImageBytesChecked();
    CheckedTable(MoreImageBytes, BytesOffsetRange);
    TextBytesChecked();
    CheckedTable(TextBytes, BytesOffsetRange);
    VideoBytesChecked();
    CheckedTable(VideoBytes, BytesOffsetRange);
    var t := ApplicationBytes;
    WellWrittenAppend(t, AudioBytes, s, {});
    t := t + AudioBytes;
    WellWrittenAppend(t, FontBytes, s, {});
    t := t + FontBytes;
    WellWrittenAppend(t, ImageBytes, s, {});
    t := t + ImageBytes;
    WellWrittenAppend(t, MoreImageBytes, s, {});
    t := t + MoreImageBytes;
    WellWrittenAppend(t, TextBytes, s, {});
    t := t + TextBytes;
    WellWrittenAppend(t, VideoBytes, s, {});
    t := t + VideoBytes;
  }

  /** Every index the byte signatures read lies in `[0, magicBytesOffsetEnd)`. */
  lemma MagicBytesWellWritten()
    ensures WellWritten(MediaTypeAndMagicBytes)
    ensures forall x :: x in DecodedIndices(ExpandTable(MediaTypeAndMagicBytes)) ==> 0 <= x < MagicBytesOffsetEnd
  {
    MagicBytesChecked();
    WithinOffsetRange(MediaTypeAndMagicBytes);
  }

  /** A table whose runs lie in the range reads indices in `[0, magicBytesOffsetEnd)` only. */
  lemma WithinOffsetRange(t: Table)
    requires ReadsWithin(t, Covered(BytesOffsetRange))
    ensures forall x :: x in DecodedIndices(ExpandTable(t)) ==> 0 <= x < MagicBytesOffsetEnd
  {
    var s := Covered(BytesOffsetRange);
    ReadsWithinDecoded(t, s);
    forall x | x in s ensures 0 <= x < MagicBytesOffsetEnd {
      CoveredIff(BytesOffsetRange, x);
    }
  }

  /** The bound is tight: the `jp2`, `jpm` and `jpx` runs at offset 20 read index 22. */
  lemma MagicBytesOffsetEndTight()
    ensures MagicBytesOffsetEnd - 1 in DecodedIndices(ExpandTable(MediaTypeAndMagicBytes))
  {
    var t := MediaTypeAndMagicBytes;
    assert t[26] == ImageBytes[9];
    RunDecoded(t, 26, 1);
  }

  /** The masked signature decodes to `(0, 0xff), (1, 0xe0)`, so it reads exactly indices 0 and 1, below its offset end. */
  lemma MaskedBytesIndices()
    ensures WellWritten(MediaTypeAndMagicMaskedBytes)
    ensures ExpandTable(MediaTypeAndMagicMaskedBytes) == [("audio/mpeg", [(0, 0xff), (1, 0xe0)])]
    ensures DecodedIndices(ExpandTable(MediaTypeAndMagicMaskedBytes)) == {0, 1}
    ensures forall x :: x in DecodedIndices(ExpandTable(MediaTypeAndMagicMaskedBytes)) ==> 0 <= x < MagicMaskedBytesOffsetEnd
  {
    var d := ExpandTable(MediaTypeAndMagicMaskedBytes);
    assert d[0].1 == [(0, 0xff), (1, 0xe0)];
    assert d[0].1[0].0 == 0 && d[0].1[1].0 == 1;
  }

  /**
   * The masks decode to `(0, 0xff), (1, 0xe0)`, the same indices as the masked
   * signature. Their literal layout is `[NaN, 0, 0xff, 0xe0]`; in the section
   * layout they are `[0, 2, 0xff, 0xe0]`.
   */
  lemma MasksIndices()
    ensures Expand(MagicMasks) == [(0, 0xff), (1, 0xe0)]
    ensures MarkerForm(MagicMasks) == [Sequence.Marker, Sequence.Num(0), Sequence.Num(0xff), Sequence.Num(0xe0)]
    ensures SectionForm(MagicMasks) == [0, 2, 0xff, 0xe0]
  {
    assert Nums([0xff, 0xe0]) == [Sequence.Num(0xff), Sequence.Num(0xe0)];
  }

  /** `magicNumbersOffsetEnd == 23`. */
  lemma OffsetEnds()
    ensures MagicNumbersOffsetEnd() == 23
  {
  }

  /**
   * All offsets are non-negative and below `magicNumbersOffsetEnd`, so matching
   * only the first `magicNumbersOffsetEnd` bytes of some data (all of them when
   * shorter) finds the same media types as matching all of it, for both tables.
   */
  lemma PrefixSuffices(data: seq<int>)
    ensures var n := if |data| < MagicNumbersOffsetEnd() then |data| else MagicNumbersOffsetEnd();
      MatchedKeys(ExpandTable(MediaTypeAndMagicBytes), ArrayWindow(data[..n])) ==
        MatchedKeys(ExpandTable(MediaTypeAndMagicBytes), ArrayWindow(data)) &&
      MatchedKeys(ExpandTable(MediaTypeAndMagicMaskedBytes), ArrayWindow(data[..n])) ==
        MatchedKeys(ExpandTable(MediaTypeAndMagicMaskedBytes), ArrayWindow(data))
  {
    MagicBytesWellWritten();
    MaskedBytesIndices();
    Matching.PrefixSuffices(ExpandTable(MediaTypeAndMagicBytes), data, MagicNumbersOffsetEnd());
    Matching.PrefixSuffices(ExpandTable(MediaTypeAndMagicMaskedBytes), data, MagicNumbersOffsetEnd());
  }
}
