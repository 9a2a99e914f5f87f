# auto-media-type: the magic-number matching engine, in Dafny

auto-media-type guesses the media type of a file in two ways. One is the
file name's extension. The other is a few bytes of the file's content: its
magic numbers. This project models the engine behind both and proves its
properties.

The engine has these parts:

- **Signature decoders.** A signature is a compact list of numbers. A decoder
  turns it into an ordered list of `(index, expected byte)` pairs. There are
  two layouts:
  - the section layout `start, length, e1 .. e_length` (`readSparseArray`);
  - the marker-run layout, where a marker is followed by an offset and then
    values (`_readSequence`, the inline walk of `matchKeyedSerials`, and the
    `undefined`-marker walks of `guessMediaTypesByMagicNumbers` and
    `findMediaTypesByMagicNumbers`).
- **Keyed matchers.** A matcher scans a keyed table in order. It skips keys
  it has already recorded and stops comparing an entry at its first
  mismatch. It reports the keys whose entry fully matches a window. A window
  maps an index to a byte, and a missing index is a mismatch.
- **The masking pass** of `guessMediaTypesByMagicBits`. It copies a prefix
  of the data, ANDs the masks into the copy in place, then matches the copy
  against the masked signatures.
- **The extension lookups** of `guessMediaTypesByExtension`,
  `findMediaTypesByExtension` and `guessMediaTypesByFileExtension`. Each takes
  the non-empty dot-free run after the last `.` of a name, lowercases it and
  reads the table.
- **The preset tables** and the consistency their tests assert. The index
  ranges are sorted and disjoint. The indices they cover are exactly the
  indices the signatures read. The offset-end constants bound every index.

Module layout:

- `Matching` states what every matcher computes. `MatchedKeys` is the set of
  keys with a fully matching entry. `MatchedKeyOrder` is the same keys in
  the insertion order of a JavaScript `Set`.
- `SparseArray`, `Sequence` and `Serial` hold the decoders and matchers of
  src/core as imperative methods. Each method is proved equal to that
  meaning.
- `Signatures` writes each signature once, as a list of runs
  `Run(offset, bytes)`. It encodes a run list into the marker layout and the
  section layout, and proves that both layouts decode back to the same pairs.
- `MagicNumbers`, `MagicBytesCollection`, `Preset` and `PresetExtensionTable`
  transcribe the tables. `IndexRanges` and `TableChecks` hold the range and
  table predicates used to check them.
- `TargetBytes` builds the index-to-byte map of guess.ts and find.ts.
- `FileExtension` is the shared extension lookup.
- `MagicBits`, `Guess`, `Find` and `ByFileExtension` are the entry points.

Inputs the source reads from outside are parameters here:

- The bytes `blob.slice(begin, end)` yields for each index range are the
  `slices` argument.
- The `Uint8Array` given to the magic-bits guesser is an `array<int>` of
  bytes.

## Model

| member | source | states |
|---|---|---|
| Matching.MatchesCons | src/core/serial.ts:82-85 | An entry's pairs match iff the first pair finds its byte and the rest match. This is why stopping at the first mismatch is sound. |
| Matching.MatchesAppend | src/core/sequence.ts:143-151 | Two pair lists put one after the other match iff both match. |
| Matching.MatchedKeysIff | src/core/sparseArray.ts:49-77 | A key is reported iff some entry with that key has every decoded pair present in the window with the expected byte. |
| Matching.MatchedKeysWithinKeys | src/core/sparseArray.ts:71-74 | Only keys of the table are ever reported. |
| Matching.MatchedKeysMonotone | src/core/sparseArray.ts:62-69 | Extending the window with more bytes never loses a key, as long as the existing bytes are kept. |
| Matching.EmptyWindowMatchesNothing | src/core/serial.ts:80-85 | An empty window matches nothing when every entry reads at least one index. |
| Matching.MatchedKeysAppend | src/core/sequence.ts:62-84 | Scanning two tables one after the other reports the union of their keys. |
| Matching.MatchedKeysSnoc | src/core/sequence.ts:66-83 | One more scanned entry adds its key exactly when it matches. An earlier match of the same key changes nothing, so skipping recorded keys is sound. |
| Matching.MatchedKeyOrderIsMatchedKeys | src/find.ts:56-91 | The ordered keys hold no duplicate and are exactly the matched keys. |
| Matching.MatchesAgree | src/core/sparseArray.ts:64-69 | Two windows that agree on an entry's indices both match it or both do not. |
| Matching.MatchedKeysAgree | src/core/sparseArray.ts:49-77 | Two windows that agree on every index a table reads report the same keys. |
| Matching.PrefixSuffices | src/feat/MediaType/guess/byMagicBits.ts:24 | When every index a table reads is below `bound`, matching the first `bound` bytes finds what matching the whole array finds. |
| Matching.MatchPairs | src/core/sparseArray.ts:63-69 | The comparison loop, which breaks at the first missing or different byte, returns true iff the pairs match. |
| SparseArray.ReadSparseArray | src/core/sparseArray.ts:92-103 | The nested header and element loops yield exactly the pairs of the sections, section after section. |
| SparseArray.ReadSection | src/core/sparseArray.ts:93-97 | A section header is followed by a length that is not negative and that many elements. Reading and decoding both continue after those elements. |
| SparseArray.ReadSectionsDecode | src/core/sparseArray.ts:92-103 | The pairs already read followed by the rest of the outer loop's reading equal those pairs followed by the decoding from the current position. |
| SparseArray.SectionSnoc | src/core/sparseArray.ts:98-101 | Each further element adds one pair at the next index to the end of what has been read. |
| SparseArray.MatchSparseArrayCollection | src/core/sparseArray.ts:49-77 | The loop with its skip of recorded keys and its early break returns exactly `MatchedKeys` of the decoded collection. |
| SparseArray.WellFormedAppend | src/core/sparseArray.ts:95-102 | A well-formed run of sections followed by a well-formed sparse array is well-formed. |
| SparseArray.SectionsFromAppend | src/core/sparseArray.ts:95-102 | The concatenation decodes to the first part's pairs followed by the second part's pairs. |
| SparseArray.WellFormedShift | src/core/sparseArray.ts:95-102 | Sections keep their pairs when other numbers are put in front of them. |
| SparseArray.SectionsAppend | src/core/sparseArray.ts:92-103 | Sections decode in order: decoding a concatenation is decoding each part in turn. |
| SparseArray.SectionsLength | src/core/sparseArray.ts:95-102 | A well-formed sparse array yields exactly the sum of its section lengths. |
| SparseArray.SectionFirst | src/core/sparseArray.ts:96-100 | A section `(start, n, e1..en)` yields `(start, e1) .. (start+n-1, en)` first. A negative start is kept and still counts upward. |
| SparseArray.ZeroLengthSectionsMatchAnything | src/core/sparseArray.ts:98 | An entry whose sections all have length zero matches every pattern, even the empty one. |
| SparseArray.PatternTooShort | src/core/sparseArray.ts:65 | A pattern without an index the entry reads never matches that entry. |
| Sequence.ReadSequenceFrom | src/core/sequence.ts:139-152 | The running index starts at 0. A marker reloads it from the next number and takes the number after that as the value. Every yield moves the index up by one. The pairs are exactly the decoding. |
| Sequence.ReadKeyedSequence | src/core/sequence.ts:101-105 | Reading a keyed sequence decodes from position 1 with the index at 0. |
| Sequence.ReadSequence | src/core/sequence.ts:119-121 | Reading a sequence decodes from position 0 with the index at 0. |
| Sequence.MatchKeyedSequences | src/core/sequence.ts:56-86 | The loop with its skip of recorded keys and its early break returns exactly `MatchedKeys` of the decoded collection. |
| Sequence.ValueStep | src/core/sequence.ts:144-150 | A value cell decodes to its value at the running index, and the index moves up by one. |
| Sequence.MarkerStep | src/core/sequence.ts:144-150 | A marker is followed by an offset and a value; it decodes to that value at that offset, and the running index continues from offset + 1. |
| Sequence.DecodeShift | src/core/sequence.ts:139-152 | Cells put in front of a sequence change neither its well-formedness nor its decoding. |
| Sequence.ReadOne | src/core/sequence.ts:143-151 | One turn of the reading loop reads the pair that decoding yields first. After a value cell that pair is at the running index; after a marker it is at the offset. Reading then resumes further on, at a position that is still well-formed. |
| Sequence.ReadFromDecode | src/core/sequence.ts:139-152 | The pairs already read followed by the rest of the loop's reading equal those pairs followed by the decoding from the current position. |
| Sequence.KeyedSequenceSkipsKey | src/core/sequence.ts:101-121 | `readKeyedSequence([key, ...s])` yields exactly what `readSequence(s)` yields. |
| Sequence.KeyedSequenceTail | src/core/serial.ts:72 | Decoding `entry.slice(1)` from 0 is decoding the entry from position 1. |
| Sequence.WellFormedTail | src/core/serial.ts:72 | The tail of a well-formed keyed sequence is itself well-formed. |
| Sequence.DecodeLength | src/core/sequence.ts:143-151 | Every cell that is neither a marker nor an offset yields exactly one pair. The count of pairs is the count of cells less two per marker. |
| Sequence.DecodeAfter | src/core/sequence.ts:146-148 | A second run that starts with a marker decodes the same after a first run, whatever the first run left in the running index. |
| Sequence.DecodeAppend | src/core/sequence.ts:143-151 | A multi-run sequence decodes run by run. The running index of one run does not leak into the next, and negative offsets pass through unchanged. |
| Serial.MatchSerial | src/core/serial.ts:72-86 | The inline walk over `entry.slice(1)` reports true iff every decoded pair holds in the target. |
| Serial.MatchKeyedSerials | src/core/serial.ts:56-93 | The result is exactly `MatchedKeys` of the decoded collection. That is the same set `Sequence.MatchKeyedSequences` returns for the same collection and target. |
| Signatures.NumsDecode | src/core/sequence.ts:143-151 | Plain values decode to consecutive indices from the running index. |
| Signatures.MarkerRunDecodes | src/core/sequence.ts:146-150 | One marker run decodes to its bytes from its offset upward, whatever the running index was. |
| Signatures.MarkerFormDecodes | src/core/sequence.ts:139-152 | Round trip: the marker layout of a run list is well-formed and decodes back to the run list's pairs. |
| Signatures.SectionFormDecodes | src/core/sparseArray.ts:92-103 | Round trip: the section layout of a run list is well-formed and decodes back to the run list's pairs. |
| Signatures.MarkerTableDecodes | src/core/serial.ts:56-93 | Every entry of the marker-layout table is well-formed and decodes to its run list's pairs. |
| Signatures.SectionTableDecodes | src/core/sparseArray.ts:49-77 | Every entry of the section-layout table is well-formed and decodes to its run list's pairs. |
| Signatures.LayoutsMatchAlike | src/core/sparseArray.ts:49-77 | The two layouts of one table report the same keys on every window. |
| Signatures.MatchedKeysWithin | src/preset.ts:237 | A table whose keys all lie in a set reports keys from that set only. |
| Signatures.SigIndicesIff | src/core/sequence.ts:143-151 | A signature reads an index iff one of its runs covers it. |
| Signatures.ExpandIndices | src/core/sequence.ts:143-151 | The decoded pairs read exactly the indices the runs cover. |
| Signatures.ReadsWithinDecoded | src/preset/mediaTypeAndMagicBytesCollection.ts:160-171 | A table whose runs lie inside a set decodes to indices in that set only. |
| Signatures.DecodedIsCovered | src/preset/mediaTypeAndMagicBytesCollection.ts:160-171 | A table whose runs lie inside a set, and that reads every index of the set, decodes to exactly that set. |
| Signatures.RunDecoded | src/core/sequence.ts:143-151 | Every index of every run is read by the decoded table. |
| Signatures.ExpandTableAppend | src/preset.ts:149-237 | Expanding two tables put one after the other is expanding each in turn. |
| IndexRanges.CoveredIff | src/preset.ts:256-260 | An index is covered iff one of the ranges holds it, an absent end counting as 0. |
| IndexRanges.SortedDisjointApart | src/preset.ts:250-252 | Under `[i][0] < [i][1] <= [i+1][0]`, every range ends before every later range begins, so no two ranges share an index. |
| TargetBytes.ReadTargetBytes | src/guess.ts:43-55 | The map-building loops yield `TargetByteMap`: each range's bytes stored in turn, a later write to an index winning. |
| TargetBytes.StoreSlice | src/find.ts:48-52 | The inner loop adds exactly the bytes of one slice, under `beginIndex`, `beginIndex + 1`, ... |
| TargetBytes.TargetByteMapDomain | src/guess.ts:43-55 | An index is in the map iff some slice, stored from its begin, reaches it. |
| TargetBytes.TargetByteMapValue | src/find.ts:40-53 | Every byte in the map is the byte some slice holds at that index. |
| TargetBytes.NegativeKeys | src/guess.ts:45-54 | A negative index is in the map only when a range with a negative begin reaches it. Bytes read from the start never land under a negative key. |
| TargetBytes.FitsApart | src/preset.ts:250-252 | Sorted, disjoint ranges with slices no longer than the ranges keep every slice before the begin of every later one. |
| TargetBytes.ExactByte | src/guess.ts:44-55 | When no slice reaches into a later one, no write overrides another: every byte of every slice is in the map under its own index. |
| TargetBytes.SliceStored | src/guess.ts:44-55 | When no slice reaches into a later one, a run of index/byte pairs that one slice holds matches the stored bytes. |
| Bits.And | src/feat/MediaType/guess/byMagicBits.ts:27 | `b & m`, bit by bit from the lowest bit: the result is at most either operand. |
| Bits.AndLowOnes | src/feat/MediaType/guess/byMagicBits.ts:27 | A mask of `k` low one-bits keeps every number below `2^k`. |
| Bits.AndTopThree | src/preset/magicNumbers.ts:215 | `b & 0xe0` keeps the top three bits of a byte: it equals `32 * (b / 32)`. |
| Bits.TopBitsKept | src/preset/magicNumbers.ts:215 | Every byte from `0xe0` to `0xff` masks to `0xe0`. |
| Bits.TopBitsMissing | src/preset/magicNumbers.ts:215 | A byte below `0xe0` does not mask to `0xe0`. |
| MagicBits.MaskAt | src/feat/MediaType/guess/byMagicBits.ts:27 | `maskedBytes[offset] &= mask` changes only that position, to `byte & mask`. An offset outside the array changes nothing, as with a typed array. |
| MagicBits.ApplyMasks | src/feat/MediaType/guess/byMagicBits.ts:26-28 | Applying the masks in order keeps the length and every position that no mask names. |
| MagicBits.MaskedValue | src/feat/MediaType/guess/byMagicBits.ts:26-28 | After the masks are applied, a position that exactly one mask names holds its old byte AND that mask. |
| MagicBits.CopyLength | src/feat/MediaType/guess/byMagicBits.ts:24 | The copy keeps `min(length, magicMaskedBytesOffsetEnd)` bytes. |
| MagicBits.MaskedBytes | src/feat/MediaType/guess/byMagicBits.ts:24-28 | The masked copy has the copy's length. Its first byte is the data's first byte and its second is `data[1] & 0xe0`. |
| Bits.AndAllOnes | src/preset/magicNumbers.ts:215 | Masking with `0xff` keeps a byte. |
| MagicBits.GuessMediaTypesByMagicBits | src/feat/MediaType/guess/byMagicBits.ts:20-30 | Copy, mask in place, match; the data is not modified. The result is `audio/mpeg` iff the data has at least two bytes, `data[0] == 0xff` and `data[1] & 0xe0 == 0xe0`, and nothing else ever. |
| MagicBits.Slice | src/feat/MediaType/guess/byMagicBits.ts:24 | `data.slice(0, end)` is a fresh array holding the first `min(length, end)` bytes. |
| MagicBits.MaskInPlace | src/feat/MediaType/guess/byMagicBits.ts:26-28 | The masking loop leaves the array equal to `ApplyMasks` of its old contents. |
| MagicBits.MaskedMatch | src/preset/magicNumbers.ts:195-215 | The masked signature matches exactly the data with an MPEG audio frame sync, and reports no other key. |
| MagicBits.ShortDataMatchesNothing | src/feat/MediaType/guess/byMagicBits.ts:24 | Data shorter than two bytes matches nothing, because the copy lacks index 1. |
| MagicBits.LowBitsIgnored | src/preset/magicNumbers.ts:215 | The low five bits of the second byte are ignored: `ff e0` through `ff ff` all match. |
| MagicBits.HighBitsNeeded | src/preset/magicNumbers.ts:196 | A second byte below `0xe0` rules the match out. |
| MagicNumbers.MagicNumbersOffsetEnd | src/preset/magicNumbers.ts:228-231 | `magicNumbersOffsetEnd` is the larger of the two offset ends. |
| MagicNumbers.MagicBytesChecked | src/preset/magicNumbers.ts:36-165 | Every entry of `mediaTypeAndMagicBytes` is well written, with at least one run of at least one byte, and reads only indices in `[0, 23)`. |
| MagicNumbers.MagicBytesWellWritten | src/preset/magicNumbers.ts:174 | `magicBytesOffsetEnd` exceeds every index the byte signatures read, and none of them is negative. |
| MagicNumbers.WithinOffsetRange | src/preset/magicNumbers.ts:174 | A table whose runs lie in `[0, 23)` reads only indices in that range. |
| MagicNumbers.MagicBytesOffsetEndTight | src/preset/magicNumbers.ts:87-131 | The bound is tight: the runs at offset 20 read index 22. |
| MagicNumbers.MaskedBytesIndices | src/preset/magicNumbers.ts:195-206 | The masked signature decodes to `(0, 0xff), (1, 0xe0)`. It reads exactly indices 0 and 1, both below `magicMaskedBytesOffsetEnd`. |
| MagicNumbers.MasksIndices | src/preset/magicNumbers.ts:215 | The masks decode to `(0, 0xff), (1, 0xe0)`. Their marker layout is the source's `[NaN, 0, 0xff, 0xe0]` and their section layout is `[0, 2, 0xff, 0xe0]`. |
| MagicNumbers.OffsetEnds | src/preset/magicNumbers.ts:228-231 | `magicNumbersOffsetEnd == 23`. |
| MagicNumbers.PrefixSuffices | src/preset/magicNumbers.ts:228-231 | Matching the first `magicNumbersOffsetEnd` bytes finds what matching all the data finds, for both tables. |
| MagicBytesCollection.CollectionWellWritten | src/preset/mediaTypeAndMagicBytesCollection.ts:19-151 | Every entry is key, marker, offset, then at least one byte, and each later marker is followed by an offset and at least one byte. Every run lies inside the ranges. |
| MagicBytesCollection.IndexRangesSortedDisjoint | src/preset/mediaTypeAndMagicBytesCollection.ts:160-171 | The ranges satisfy `[i][0] < [i][1] <= [i+1][0]`. |
| MagicBytesCollection.RangesReadByEntries | src/preset/mediaTypeAndMagicBytesCollection.ts:19-151 | Every index from 0 to 11 and from 20 to 22 is read by some entry. |
| MagicBytesCollection.CoveredIndices | src/preset/mediaTypeAndMagicBytesCollection.ts:168-171 | The covered indices are 0..11 and 20..22. |
| MagicBytesCollection.CoveredIndicesAreDecodedIndices | src/preset/mediaTypeAndMagicBytesCollection.ts:160-171 | The covered indices are exactly the indices decoded from all entries. |
| MagicBytesCollection.DerivedConstants | src/preset/mediaTypeAndMagicBytesCollection.ts:180-200 | `magicBytesIndexMax == 23`, `magicBytesIndexMin == 0` and `magicBytesIndexRange == 23`, and every decoded index lies in `[min, max)`. |
| MagicBytesCollection.WebpRuns | src/preset/mediaTypeAndMagicBytesCollection.ts:127-141 | The webp entry reads `RIFF` at 0..3 and `WEBP` at 8..11, and leaves 4..7 free. |
| MagicBytesCollection.RepeatedKeys | src/preset/mediaTypeAndMagicBytesCollection.ts:52-54 | Keys repeat across entries, so the skip of recorded keys is exercised. |
| MagicBytesCollection.IconBytesMatchIconAndWbmp | src/preset/mediaTypeAndMagicBytesCollection.ts:125-126 | The bytes `00 00 01 00` match exactly `image/vnd.microsoft.icon` and `image/vnd.wap.wbmp`. |
| TableChecks.CheckedTable | src/preset/mediaTypeAndMagicBytesCollection.ts:19-151 | A table that passes the entry-by-entry check is well written and reads only covered indices. |
| TableChecks.CheckedKeys | src/preset.ts:149-237 | A table that passes the key check names only keys of the given set. |
| TableChecks.KeysMatchingDataIsMatchedKeys | src/core/sparseArray.ts:49-77 | The keys evaluated run by run against a byte array are exactly the matched keys. |
| TableChecks.MatchedKeysOfAppend | src/core/serial.ts:56-93 | Matching two tables put one after the other reports the keys of both. |
| Preset.ListWellWritten | src/preset.ts:149-237 | Every list entry is key, marker, offset, then at least one number. Every run lies inside `magicNumberIndexRanges`. Every key is a supported media type. |
| Preset.ExtensionTypesSupported | src/preset.ts:60-118 | Every media type `extensionToMediaTypes` names is a supported media type. |
| Preset.ExtensionsUnlisted | src/preset.ts:60-118 | `undefined`, `undefined-2`, `constructor` and `__proto__` are not keys of the table. |
| Preset.PngTypes | src/preset.ts:60-118 | The `png` entry lists `image/png` then `image/apng`. |
| Preset.IndexRangesSortedDisjoint | src/preset.ts:250-260 | The ranges satisfy `[i][0] < [i][1] <= [i+1][0]`, an absent end counting as 0. |
| Preset.CoveredIndices | src/preset.ts:256-260 | The covered indices are -128..-126, -2..-1 and 0..11. |
| Preset.CoveredIndicesAreDecodedIndices | src/preset.ts:149-260 | The covered indices are exactly the indices decoded from `mediaTypeAndMagicNumbersList`. |
| Preset.NegativeOffsets | src/preset.ts:220-229 | ID3v1 `TAG` is read at -128..-126. JPEG reads `ff d8 ff` at 0..2 and `ff d9` at -2..-1. All of these indices lie inside the ranges. |
| Preset.XmlAlternatives | src/preset.ts:186-216 | `application/xml` has three entries with different signatures. |
| PresetExtensionTable.UnlistedNamesOutside | src/preset/extensionToMediaTypesTable.ts:21-114 | `undefined`, `undefined-2`, `constructor` and `__proto__` are not keys of the table. |
| PresetExtensionTable.PngTypes | src/preset/extensionToMediaTypesTable.ts:82 | The `png` entry lists `image/png` then `image/apng`. |
| PresetExtensionTable.GzTypes | src/preset/extensionToMediaTypesTable.ts:36 | The `gz` entry lists `application/gzip`. |
| FileExtension.DotFreeSuffix | src/guess.ts:20 | The longest dot-free tail of the name. Either it is the whole name, or a `.` comes right before it. |
| FileExtension.ExtensionOf | src/guess.ts:20 | `/\.([^\.]+)$/` captures a non-empty, dot-free run that a `.` precedes and the end of the name follows. |
| FileExtension.LowerChar | src/guess.ts:20 | ASCII lowercasing leaves no upper-case letter and keeps lower-case ones. |
| FileExtension.LowerAsciiLowers | src/guess.ts:20 | After lowercasing no upper-case ASCII letter is left, and a string without one comes back unchanged. |
| FileExtension.UpperPngExtension | src/guess.ts:20-21 | The extension of `name.PNG` is `png`, whatever comes before the dot: the capture is lowercased before any table is read. |
| FileExtension.ExtensionAfterDot | src/feat/MediaType/guess/byFileExtension.ts:19 | A non-empty, dot-free run after a `.` is the extension, whatever comes before it. Only the final segment counts. |
| FileExtension.NoExtension | src/find.ts:20-21 | A name has no extension iff it is empty, ends in `.` or holds no `.`. |
| FileExtension.ExtensionOfLowered | src/guess.ts:20 | Lowercasing the whole name first gives the same extension. |
| FileExtension.CaseInsensitive | src/feat/MediaType/guess/byFileExtension.ts:16-19 | Names that differ only in the case of ASCII letters have the same extension. |
| FileExtension.OwnProperty | src/preset.ts:60-118 | A key is an own property iff some entry has it, and its value is that of an entry with the key. |
| FileExtension.OwnPropertyAppend | src/preset/extensionToMediaTypesTable.ts:21-114 | In two tables written one after the other, the later table's property wins. |
| FileExtension.OwnPropertyWithin | src/preset.ts:118 | Whatever a table yields for a key is drawn from the types the table lists. |
| FileExtension.OwnPropertyFound | src/preset.ts:60-118 | An entry that no later entry overrides gives the key's value. |
| FileExtension.LookupTypes | src/find.ts:19-22 | The corrected lookup gives the listed array for the lowercased extension, and `[]` when there is no extension or the extension is not a key of the table. |
| FileExtension.LookupCaseInsensitive | src/guess.ts:20 | Names that differ only in letter case look up the same types. |
| FileExtension.LookupWithin | src/preset.ts:118 | Every type a lookup yields is one the table lists. |
| FileExtension.NoExtensionNoTypes | src/guess.ts:21-24 | A name without a `.`, or ending in one, looks up nothing. |
| FileExtension.UnlistedNoTypes | src/guess.ts:22 | An extension that is not a key looks up nothing. |
| FileExtension.LookupAsWritten | src/find.ts:21 | The lookup as written gives a value that is not an array iff the extension is `constructor` or `__proto__`. Otherwise it is the corrected lookup. |
| FileExtension.PrototypeReached | src/guess.ts:22 | For a table without those keys, the lookup as written misbehaves exactly on the extensions `constructor` and `__proto__`. |
| FileExtension.LoweredPrototypeKeys | src/guess.ts:20-22 | Of the keys of `Object.prototype`, only `constructor` and `__proto__` can be a lowercased extension. |
| Guess.GuessMediaTypesByExtension | src/guess.ts:19-25 | The set of the types listed for the lowercased extension, all of them supported media types. The set is empty when there is no extension. |
| Guess.GuessMediaTypesByExtensionAsWritten | src/guess.ts:19-25 | As written, the guesser throws iff the extension is `constructor` or `__proto__`. Otherwise it agrees with the corrected one. |
| Guess.ConstructorThrows | src/guess.ts:22 | `x.constructor` throws as written and gives nothing when corrected. |
| Guess.ExtensionCaseInsensitive | src/guess.ts:20 | Names that differ only in letter case give the same set. |
| Guess.PngByExtension | src/preset.ts:90 | `x.PNG` gives `{image/png, image/apng}`. |
| Guess.NoExtensionGuessesNothing | src/guess.ts:21-24 | `''` and `'an-extensionless-file'` give the empty set. |
| Guess.UndefinedGuessesNothing | src/guess.ts:20-22 | `'filename.undefined'` gives the empty set: `undefined` is no key of the table. |
| Guess.UndefinedTwoGuessesNothing | src/guess.ts:20-22 | `'.undefined-2'` gives the empty set: an empty stem still yields the extension `undefined-2`, which is no key of the table. |
| Guess.GuessMediaTypesByMagicNumbers | src/guess.ts:39-94 | Build the map, then match each entry not yet found. The result is exactly the keys whose entry has all its pairs in the map with equal bytes. All of them are supported media types. |
| Guess.MagicNumberTypesSupported | src/preset.ts:149-237 | Whatever the bytes, every matched key is a supported media type. |
| Guess.MatchedFromSlices | src/guess.ts:57-93 | A matched media type is backed by the data: some entry with that key reads every index inside a slice, which holds the expected byte there. |
| Guess.JpegFromBothEnds | src/preset.ts:229 | When the slice read for the range `(-2, -)` is `ff d9` and the slice read for the range `(0, 12)` starts `ff d8 ff`, `image/jpeg` is among the keys matched on the stored bytes. |
| Guess.JpegEntry | src/preset.ts:229 | The JPEG entry reads `ff d8 ff` at 0..2 and `ff d9` at -2..-1. |
| Guess.JpegBytesStored | src/guess.ts:43-55 | Slices holding the two markers store them at 0..2 and -2..-1 of the map. |
| Find.FindMediaTypesByExtension | src/find.ts:19-22 | The listed array for the lowercased extension, order included, drawn from the supported media types. It is `[]` when there is no extension or the extension is not a key. |
| Find.FindMediaTypesByExtensionAsWritten | src/find.ts:19-22 | As written, the finder returns a non-array iff the extension is `constructor` or `__proto__`. Otherwise it returns the corrected array. |
| Find.ProtoNotAnArray | src/find.ts:21 | `x.__proto__` returns a non-array as written and `[]` when corrected. |
| Find.PngFound | src/preset.ts:90 | `image.PNG` gives `["image/png", "image/apng"]`, in that order. |
| Find.FindMediaTypesByMagicNumbers | src/find.ts:36-92 | The array holds each matched media type once, in the order of its first matching entry. Its members are exactly the matched keys. |
| Find.MatchInOrder | src/find.ts:55-91 | The matching loop, with its skip of found types, returns the keys in the insertion order of a JavaScript `Set`. |
| ByFileExtension.GuessMediaTypesByFileExtension | src/feat/MediaType/guess/byFileExtension.ts:18-23 | The set of the types listed for the lowercased extension. It is empty when there is no extension or the extension is not a key. |
| ByFileExtension.GuessMediaTypesByFileExtensionAsWritten | src/feat/MediaType/guess/byFileExtension.ts:18-23 | As written, the guesser throws iff the extension is `constructor` or `__proto__`. Otherwise it agrees with the corrected one. |
| ByFileExtension.ProtoThrows | src/feat/MediaType/guess/byFileExtension.ts:20-22 | `a.__proto__` throws as written and gives nothing when corrected. |
| ByFileExtension.FileExtensionCaseInsensitive | src/feat/MediaType/guess/byFileExtension.ts:16 | The extension is case insensitive. |
| ByFileExtension.PngByFileExtension | src/preset/extensionToMediaTypesTable.ts:82 | `photo.PNG` gives `{image/png, image/apng}`. |
| ByFileExtension.LastExtensionOnly | src/feat/MediaType/guess/byFileExtension.ts:19 | Only the final segment counts: `archive.tar.gz` gives `{application/gzip}`. |
| ByFileExtension.NoExtensionNothing | src/feat/MediaType/guess/byFileExtension.ts:19-22 | `archive.` and `README` have no extension and give the empty set. |

## Left out

- Blob and stream I/O is not modelled: `blob.slice(...).arrayBuffer()`, `readByteStream` and the stream helpers. The bytes each range yields are a parameter (`slices`). The requirement `SlicesFit` in `Guess.JpegFromBothEnds` states what `Blob.slice` guarantees about their lengths.
- Guess.GuessMediaTypesByMagicNumbers: the model does not derive `slices` from a blob. Clamping of a range that runs past the start or end of the data is left to the caller, and so is the handling of short data.
- Find.FindMediaTypesByMagicNumbers: the ranges are a parameter. src/find.ts reads `indexRanges`, which the shown src/preset.ts does not define.
- The async wrappers (`Promise` results), the input-shape dispatch of src/index.ts and src/feat/MediaType/suggest are left out. The set unions there are trivial.
- `guessMediaTypesByMagicBytes` is left out. It is a one-line call of `matchSparseArrayCollection`, which is modelled.
- FileExtension.LowerAscii: lowercases ASCII letters only. `toLowerCase` on other Unicode letters is not modelled.
- `NaN` in the sequence and serial tables and `undefined` in `mediaTypeAndMagicNumbersList` are both the `Marker` cell, not a float.
- MagicBits.GuessMediaTypesByMagicBits: the masks and the masked signature are in the section layout `[0, 2, 0xff, 0xe0]`. src/preset/magicNumbers.ts:196,215 writes them in the marker layout `[NaN, 0, 0xff, 0xe0]`, which the section decoder src/feat/MediaType/guess/byMagicBits.ts:26,29 would misread. The two files come from different revisions. `MagicNumbers.MasksIndices` proves that both layouts describe the same pairs.
- Typed-array writes outside the array are ignored, as in JavaScript. The model writes only in bounds and skips the rest (`MagicBits.MaskAt`).
- The generators are decoded fully and then scanned with an early break. The decoders are total on well-formed input, so the result is the same.
- Malformed tables are excluded by preconditions: a negative section length, or a marker without an offset and a value. The shipped tables are proved well-formed.
- Each table is written once as a list of runs, split into groups of at most a dozen entries. Its marker and section layouts are produced by `Signatures.MarkerForm` and `Signatures.SectionForm`.
- The commented-out `update` function of src/preset.ts is dead code and is not modelled.
- These pure data lists are not modelled: src/preset/extensionToMediaTypes.ts, src/preset/mediaTypeAndMagicNumbersList.ts, src/preset/magicBits.ts, the supported-media-type lists and src/preset/magicalPartByteLength.ts. src/preset/magicNumberIndexRanges.ts is not part of this model either: the signature table that matches its `-5` range is not available.
- The integers are unbounded. Every index and byte in the tables is small, so JavaScript number precision never matters.

## Findings

| source | as written | input that shows it | evidently intended | confidence | as-written member | corrected member |
|---|---|---|---|---|---|---|
| src/guess.ts:22 | `extensionToMediaTypes[extension] ?? []` reads a plain object, so the lowercased extensions `constructor` and `__proto__` reach `Object.prototype`; `new Set` of that function or object throws a `TypeError` | `x.constructor` | an extension that is not a key of the table gives the empty set | not executed | Guess.GuessMediaTypesByExtensionAsWritten, Guess.ConstructorThrows | Guess.GuessMediaTypesByExtension |
| src/find.ts:21 | the same lookup returns `Object.prototype` or `Object` itself, which is not an array | `x.__proto__` | an extension that is not a key of the table gives `[]` | not executed | Find.FindMediaTypesByExtensionAsWritten, Find.ProtoNotAnArray | Find.FindMediaTypesByExtension |
| src/feat/MediaType/guess/byFileExtension.ts:20-22 | the same lookup in `extensionToMediaTypesTable` feeds a non-iterable value to `new Set`, which throws a `TypeError` | `a.__proto__` | an extension that is not a key of the table gives the empty set | not executed | ByFileExtension.GuessMediaTypesByFileExtensionAsWritten, ByFileExtension.ProtoThrows | ByFileExtension.GuessMediaTypesByFileExtension |
