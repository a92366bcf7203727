# A verified model of the gzip framing core of parallel-compression

parallel-compression (the `gziptest` repository) compresses a file as a series of
independent gzip members, one per input block, written in parallel. It decompresses by
cutting the stream back into members without decoding DEFLATE. This project models the
sequential core of that in Dafny and proves what it promises:

- **Header recognition.** `ByteMask` and the 10-byte member header of RFC 1952
  (section 2.3.1) are modelled, with the MTIME field repurposed as a member-length hint
  ("mimetype" in the code). The segment, byte-array and byte-comparison helpers they use
  are modelled too. Files: `byte_mask.dfy`, `gzip_header.dfy`, `segments.dfy`,
  `byte_arrays.dfy`, `bytes_compare.dfy`, `binary.dfy`, `sizes.dfy`.
- **`GzipBuffer`.** A segment with the header positions and the partial header found in
  it, cut into its first block and the rest (`gzip_buffer.dfy`).
- **Splitting a stream into members.** The push-back stream and the read-until-full
  helpers are in `streams.dfy`. Three splitters follow:
  - the size-hint splitter (`mime_splitter.dfy`);
  - the buffer-scanning splitter (`buffer_splitter.dfy`);
  - the splitter chain with its streaming fallback (`block_splitter.dfy`).
  The stream that hands the decoder one member per read is in `exact_stream.dfy`.
  - Each splitter is a method over the stream, proved equal to a reference function of
    the bytes.
  - Lemmas prove three things about those functions: the members plus the bytes left
    are the input, the statuses come in a fixed shape, and pushed-back bytes are read
    again.
- **The resumable output file and the block reader.** The output file is
  `data ++ ASCII(label) ++ LE64(offset)`, and `GetLastOffset` reads back what `Append`
  wrote. The block reader yields blocks with cumulative offsets (`output_file.dfy`,
  `input_file.dfy`, `block.dfy`, `errors.dfy`).
- **The synchronisation primitives as sequential state machines.**
  - the `Limiter` counter;
  - the bounded `BlockingQueue` FIFO;
  - the `BoundedResultsQueue`, which hands results out in acquisition order.
  Files: `limiter.dfy`, `blocking_queue.dfy`, `results_queue.dfy`.
- **Validators.** The compressor settings and their builder (`settings.dfy`), and the
  command-line argument parser (`cli_args.dfy`, `text.dfy`).

Classes mirror the C# objects whose fields change in place: the streams, the output file,
the limiter, the queues, the settings builder and the argument parser. Immutable structs
become datatypes and functions. C# `null` is `Option.None`, and a thrown exception is a
`Result.Failure` naming the exception type. An `IEnumerable` iterator is a method that
runs the enumeration to its end. It returns the items yielded and, when one was thrown,
the exception.

## Model

| member | source | states |
|---|---|---|
| Binary.ToInt32 | parallel-compression/GzipFormat/GzipHeader.cs:139 | `BitConverter.ToInt32` on four little-endian bytes: a 32-bit value whose remainder modulo 2^32 is the bytes' unsigned little-endian value |
| Binary.ToInt64 | parallel-compression/IO/OutputFile.cs:215 | `BitConverter.ToInt64` on eight little-endian bytes: a 64-bit value congruent modulo 2^64 to their unsigned value |
| Binary.Int64RoundTrip | parallel-compression/IO/OutputFile.cs:103-104 | the eight bytes written for an offset read back, through `ToInt64`, as that same offset |
| Binary.Int32RoundTrip | parallel-compression/Compression/GzipBlockCompression.cs:33 | the four bytes `BitConverter.GetBytes(int)` writes into a header's MTIME field read back as the same `int` |
| Binary.Int32BytesOfValue | parallel-compression/GzipFormat/GzipHeader.cs:139 | every four bytes are the encoding of the `int` read from them: no two byte quadruples read as the same value |
| Binary.LittleEndianRoundTrip | parallel-compression/IO/OutputFile.cs:103-104 | writing `n` little-endian bytes of a value below 256^n and reading them back gives the value |
| Binary.LittleEndianBytesOfValue | parallel-compression/GzipFormat/GzipHeader.cs:139 | re-encoding the value read from little-endian bytes gives those bytes back |
| Sizes.LongKilobytes | parallel-compression/Helpers/NumbersToBytesHelpers.cs:5-8 | `long * 1024` with unchecked 64-bit wrap-around, equal to the exact product whenever that fits |
| Sizes.Kilobytes | parallel-compression/Helpers/NumbersToBytesHelpers.cs:15-18 | `int * 1024` with unchecked 32-bit wrap-around, equal to the exact product whenever that fits |
| Sizes.LongMegabytes | parallel-compression/Helpers/NumbersToBytesHelpers.cs:10-13 | `long * 1024 * 1024`: a 64-bit value congruent modulo 2^64 to the exact product by 2^20 |
| Sizes.Megabytes | parallel-compression/Helpers/NumbersToBytesHelpers.cs:20-23 | `int * 1024 * 1024`: a 32-bit value congruent modulo 2^32 to the exact product by 2^20 |
| Sizes.MegabytesIsOneProduct | parallel-compression/Helpers/NumbersToBytesHelpers.cs:20-23 | `value*1024*1024` on `int` wraps as the single product by 2^20 would, is exact when that fits, and equals `Kilobytes` applied twice |
| Sizes.LongMegabytesIsOneProduct | parallel-compression/Helpers/NumbersToBytesHelpers.cs:10-13 | the same for the `long` overload |
| Sizes.Megabytes128 | parallel-compression/Configuration/CompressorSettings.cs:39 | `128.Megabytes()`, the largest decompression buffer, is 134217728 with no wrap-around |
| BytesCompare.CompareAtFirstDifference | parallel-compression/Helpers/BytesExtensions.cs:22-55 | the comparison of two byte ranges is the difference of the bytes at their first differing position |
| BytesCompare.CompareOfCommonPrefix | parallel-compression/Helpers/BytesExtensions.cs:53 | when the shorter range is a prefix of the longer, the comparison is the difference of the lengths |
| BytesCompare.CompareIsZeroIffEqual | parallel-compression/Helpers/BytesExtensions.cs:7-20 | the comparison is zero exactly when the two byte ranges are equal, so `UnsafeEquals` is byte-wise equality |
| BytesCompare.FirstDifferenceInWord | parallel-compression/Helpers/BytesExtensions.cs:35-41 | inside an eight-byte word that differs, the byte loop stops at the first differing byte |
| BytesCompare.CompareWords | parallel-compression/Helpers/BytesExtensions.cs:31-43 | the word loop either passes all `length / 8` words, every byte equal, or stops at the first differing byte |
| BytesCompare.CompareTail | parallel-compression/Helpers/BytesExtensions.cs:45-53 | the byte loop over the last `length % 8` bytes, then the length difference, complete the comparison of the whole ranges |
| BytesCompare.CompareArrays | parallel-compression/Helpers/BytesExtensions.cs:22-55 | `Compare` on two non-null arrays returns the reference comparison `CompareBytes` of the two ranges |
| BytesCompare.Compare | parallel-compression/Helpers/BytesExtensions.cs:22-55 | `Compare` on two byte arrays (a null one only with an empty range) returns the reference comparison `CompareBytes` of the two ranges |
| BytesCompare.UnsafeEqualsArrays | parallel-compression/Helpers/BytesExtensions.cs:7-10 | throws `NullReferenceException` exactly when an array is null, and otherwise is true exactly when the arrays hold the same bytes |
| BytesCompare.UnsafeEqualsSegments | parallel-compression/Helpers/BytesExtensions.cs:12-15 | true exactly when the two segments cover the same bytes |
| BytesCompare.UnsafeEqualsSegmentArray | parallel-compression/Helpers/BytesExtensions.cs:17-20 | throws `NullReferenceException` exactly when the array is null, and otherwise is true exactly when the segment covers the array's bytes |
| ByteMasks.DefaultMatchesNothing | parallel-compression/Models/ByteMask.cs:32-35 | a default mask, whose predicate is null, matches no byte |
| ByteMasks.IsMatched | parallel-compression/Models/ByteMask.cs:32-35 | a mask without a predicate matches nothing, and `Any` or the full range matches every byte |
| ByteMasks.Any | parallel-compression/Models/ByteMask.cs:8 | `Any` matches every byte |
| ByteMasks.Between | parallel-compression/Models/ByteMask.cs:10-15 | throws `ArgumentException` exactly when `min > max`, and otherwise matches exactly the bytes in `[min, max]` |
| ByteMasks.Values | parallel-compression/Models/ByteMask.cs:17-21 | a null array throws `ArgumentNullException` (the `HashSet` constructor), otherwise the mask matches exactly the listed bytes |
| ByteMasks.Exact | parallel-compression/Models/ByteMask.cs:23 | matches exactly the given byte |
| ByteMasks.FromInt | parallel-compression/Models/ByteMask.cs:37-40 | the implicit conversion from `int` truncates to the low byte and matches exactly it |
| ByteMasks.FromByte | parallel-compression/Models/ByteMask.cs:42-45 | the implicit conversion from `byte` matches exactly that byte |
| ByteMasks.FromBytes | parallel-compression/Models/ByteMask.cs:47-50 | the implicit conversion from `byte[]` fails on null and otherwise matches exactly the listed bytes |
| ByteMasks.FromNullableByte | parallel-compression/Models/ByteMask.cs:52-55 | the conversion from `byte?` matches every byte when null and exactly the value otherwise |
| Segments.NewSegment | parallel-compression/Helpers/ByteArrayExtensions.cs:35-38 | `new ArraySegment(array, offset, count)` succeeds exactly on a non-null array with a non-negative range inside it, throwing `ArgumentNullException` on null and `ArgumentOutOfRangeException` on a negative offset or count |
| Segments.LastOffset | parallel-compression/Helpers/ArraySegmentExtensions.cs:10-13 | the array index of the segment's last byte, or one before its offset when it is empty |
| Segments.TakeFirst | parallel-compression/Helpers/ArraySegmentExtensions.cs:15-20 | a null segment is returned as it is; otherwise the first `count` bytes, on the same array, and a negative count fails |
| Segments.ShiftOffsetRight | parallel-compression/Helpers/ArraySegmentExtensions.cs:22-28 | a zero skip returns the segment itself; otherwise the bytes after the first `skip`, on the same array, failing past the end or on a null array |
| Segments.SliceFromEnd | parallel-compression/Helpers/ArraySegmentExtensions.cs:30-36 | a zero count returns the segment itself; otherwise its last `count` bytes on the same array |
| Segments.RemoveFromEnd | parallel-compression/Helpers/ArraySegmentExtensions.cs:38-44 | a zero count returns the segment itself; otherwise all but its last `count` bytes, from the same offset, failing when more are removed than it holds |
| Segments.RemoveAndSliceFromEndReassemble | parallel-compression/Helpers/ArraySegmentExtensions.cs:30-44 | `RemoveFromEnd(k)` followed by `SliceFromEnd(k)` gives back the segment's bytes |
| Segments.Slice | parallel-compression/Helpers/ArraySegmentExtensions.cs:46-50 | the `count` bytes after the first `skip`, on the same array; an empty slice of a null segment lies on the shared empty array |
| Segments.SliceFromTheEnd | parallel-compression/Helpers/ArraySegmentExtensions.cs:52-56 | the last `k` bytes of the segment, on the same array |
| Segments.SetForwardOffset | parallel-compression/Helpers/ArraySegmentExtensions.cs:58-68 | the same segment for the same offset, `ArgumentException` for an offset before it, and otherwise the bytes from the new offset to the same end |
| Segments.MaskAcceptsPointwise | parallel-compression/Helpers/ArraySegmentExtensions.cs:77-84 | a mask accepts a word exactly when they have the same length and every mask position matches its byte |
| Segments.IsMatchToMask | parallel-compression/Helpers/ArraySegmentExtensions.cs:70-87 | true exactly when the mask is non-empty and the segment's bytes from `startIndex` match it position by position |
| Segments.IsMatchedPartiallyFromEnd | parallel-compression/Helpers/ArraySegmentExtensions.cs:89-110 | false on a null array, an empty mask or an empty segment; `ArgumentException` when `count` exceeds the segment or the mask; otherwise whether the last `count` bytes match the mask's first `count` positions |
| Segments.CopyToArray | parallel-compression/Helpers/ArraySegmentExtensions.cs:134-142 | the shared empty array for a null or empty segment, otherwise a fresh array holding the segment's bytes |
| Segments.Copy | parallel-compression/Helpers/ArraySegmentExtensions.cs:128-132 | a segment over the whole of a copy holding the same bytes |
| Segments.AppendSegment | parallel-compression/Helpers/ArraySegmentExtensions.cs:112-126 | returns one side when the other is null or empty, otherwise a fresh array; in every case the result's bytes are the first segment's followed by the second's |
| ByteArrays.TakeFirst | parallel-compression/Helpers/ByteArrayExtensions.cs:8-11 | the first `count` bytes of the array, on that array; null throws `ArgumentNullException`, a count outside the array fails |
| ByteArrays.Slice | parallel-compression/Helpers/ByteArrayExtensions.cs:30-33 | `Slice` is the same operation as `TakeFirst`, as the comment above it says |
| ByteArrays.SegmentOf | parallel-compression/Helpers/ByteArrayExtensions.cs:35-38 | the bytes `[offset, offset + count)` of the array, and success only for a range inside it |
| ByteArrays.SegmentFrom | parallel-compression/Helpers/ByteArrayExtensions.cs:40-43 | the bytes from `offset` to the end; a null array throws `NullReferenceException` (it reads `bytes.Length` first) |
| ByteArrays.ToSegment | parallel-compression/Helpers/ByteArrayExtensions.cs:45-48 | the whole array as a segment on it; null throws `NullReferenceException` |
| ByteArrays.SliceFromTheEnd | parallel-compression/Helpers/ByteArrayExtensions.cs:50-53 | the last `readFromEnd` bytes; null throws `NullReferenceException`, a count outside the array fails |
| ByteArrays.JoinWindowsStep | parallel-compression/Helpers/ByteArrayExtensions.cs:18-26 | the invariant of the `Slices` loop: the slices so far, joined, are the array's first `offset` bytes |
| ByteArrays.Slices | parallel-compression/Helpers/ByteArrayExtensions.cs:13-27 | null throws `NullReferenceException` and a negative size on a non-empty array `ArgumentOutOfRangeException`; otherwise slice `j` starts at offset `j * size` on the array and holds between 1 and `size` bytes, all but the last exactly `size`, and joined in order they are the whole array; an empty array gives no slices |
| GzipHeaders.HeaderMaskIsBuiltFromTheFlags | parallel-compression/GzipFormat/GzipHeader.cs:13-35 | the header mask is the ten masks `31, 139, 8`, six `Any` and the OS flag list, built with the mask conversions |
| GzipHeaders.HeaderMaskMeaning | parallel-compression/GzipFormat/GzipHeader.cs:35-36 | the mask has ten positions: ID1 `0x1F`, ID2 `0x8B`, CM `0x08`, any FLG/MTIME/XFL byte, and an OS byte of 0 to 13, 19 or 255 |
| GzipHeaders.HeaderMaskAccepts | parallel-compression/GzipFormat/GzipHeader.cs:35 | the mask's first `n` positions accept exactly the header prefixes of length `n` |
| GzipHeaders.MatchesAtIsHeaderAt | parallel-compression/GzipFormat/GzipHeader.cs:112 | matching the mask at an index is the same as a header starting there |
| GzipHeaders.SuffixMatchIsHeaderPart | parallel-compression/GzipFormat/GzipHeader.cs:89 | matching the mask's first `p` positions against the last `p` bytes is the same as the data ending with a header prefix of length `p` |
| GzipHeaders.IsHeader | parallel-compression/GzipFormat/GzipHeader.cs:39-45 | true exactly for a non-null segment of ten bytes that form a header |
| GzipHeaders.IsPrefixFor | parallel-compression/GzipFormat/GzipHeader.cs:47-53 | true exactly for a non-null segment of ten bytes or more that starts with a header |
| GzipHeaders.FirstHeaderIsFirst | parallel-compression/GzipFormat/GzipHeader.cs:110-118 | the reference first-header position has no header before it, and none exists when it reports none |
| GzipHeaders.FindFirst | parallel-compression/GzipFormat/GzipHeader.cs:104-119 | null exactly when the bytes hold no header; otherwise the ten-byte segment at the first header, which `IsHeader` accepts |
| GzipHeaders.AllHeadersAreHeaders | parallel-compression/GzipFormat/GzipHeader.cs:56-77 | every position of the header scan starts a header, in increasing order, and consecutive headers do not overlap |
| GzipHeaders.AllHeadersSkipNothing | parallel-compression/GzipFormat/GzipHeader.cs:56-77 | the scan misses no header that does not overlap one it found: none before the first, between two, or after the last |
| GzipHeaders.ScanStep | parallel-compression/GzipFormat/GzipHeader.cs:62-76 | one turn of the scan: the first header from the current index, then the scan resumes right after it |
| GzipHeaders.FindNext | parallel-compression/GzipFormat/GzipHeader.cs:64-75 | one turn of the `FindAllHeaders` loop on the remaining segment yields the next header of the scan, or ends it |
| GzipHeaders.FindAllHeaders | parallel-compression/GzipFormat/GzipHeader.cs:56-77 | the headers found are those of the greedy left-to-right scan, each as a ten-byte segment at its position |
| GzipHeaders.PartialHeaderFrom | parallel-compression/GzipFormat/GzipHeader.cs:86-95 | the longest header prefix of length at most `p` at the end of the data: no longer one ends it |
| GzipHeaders.PartialHeaderLength | parallel-compression/GzipFormat/GzipHeader.cs:86 | a partial header is shorter than a header and than the data |
| GzipHeaders.GetOffsetOfMatchedPartFromEnd | parallel-compression/GzipFormat/GzipHeader.cs:80-96 | -1 on null or when no header prefix shorter than ten ends the data; otherwise the array index where the longest such prefix starts |
| GzipHeaders.AfterHeader | parallel-compression/GzipFormat/GzipHeader.cs:99-102 | the bytes after the first ten, on the same array, failing on a shorter segment |
| GzipHeaders.Position | parallel-compression/GzipFormat/GzipHeader.cs:130 | the array index of the header's first byte |
| GzipHeaders.EndPosition | parallel-compression/GzipFormat/GzipHeader.cs:131 | the array index of the header's last byte, nine after its position |
| GzipHeaders.MimetypeBytes | parallel-compression/GzipFormat/GzipHeader.cs:129 | the four MTIME bytes, at offsets 4 to 7 of the header on its array; the default segment for a default header |
| GzipHeaders.GetMimetypeAsInt | parallel-compression/GzipFormat/GzipHeader.cs:133-140 | 0 for a default header, otherwise the `int` whose little-endian encoding is the MTIME bytes |
| GzipHeaders.SetMimetypeBytes | parallel-compression/GzipFormat/GzipHeader.cs:144-156 | `InvalidOperationException` on a default header, `ArgumentNullException` on null, `ArgumentException` unless four bytes, leaving the array unchanged; otherwise array bytes 4 to 7 of the header become the given ones and nothing else changes |
| GzipHeaders.MimetypeRoundTrip | parallel-compression/GzipFormat/GzipHeader.cs:133-156 | after the MTIME field holds the encoding of a value, `GetMimetypeAsInt` reads that value |
| GzipHeaders.ScanOfDrop | parallel-compression/GzipFormat/GzipHeader.cs:70-75 | scanning the bytes from `k` on finds the same headers the whole scan finds from `k`, shifted by `k` |
| GzipHeaders.ScanFromMember | parallel-compression/GzipFormat/GzipHeader.cs:62-76 | the scan restarted at one of its own headers finds the rest of the same list |
| GzipBuffers.NewGzipBuffer | parallel-compression/GzipFormat/GzipBuffer.cs:13-32 | `ArgumentNullException` on a null array; otherwise the buffer over the segment with the scan's headers and, when the last header does not end the bytes, the offset of the partial header at the end |
| GzipBuffers.ScanStartsWithHeader | parallel-compression/GzipFormat/GzipBuffer.cs:51-53 | the bytes start with a header exactly when the scan's first header is at index 0 |
| GzipBuffers.ScanFindsNothing | parallel-compression/GzipFormat/GzipBuffer.cs:56 | the scan finds nothing exactly when the bytes hold no header anywhere |
| GzipBuffers.IsEmpty | parallel-compression/GzipFormat/GzipBuffer.cs:45 | a buffer is empty when it has no bytes; the default buffer is empty |
| GzipBuffers.ContainsOnlyOneCompressedBlockFromStart | parallel-compression/GzipFormat/GzipBuffer.cs:47-50 | implies the buffer starts with a header, holds no whole block, has headers and is not only a partial header |
| GzipBuffers.IsStartsWithCompressedBlock | parallel-compression/GzipFormat/GzipBuffer.cs:51-53 | the public header list is non-empty and its first header is at the buffer's offset |
| GzipBuffers.IsContainAtLestOneWholeBlock | parallel-compression/GzipFormat/GzipBuffer.cs:54 | exactly when the public header list, null read as empty, has two headers or more |
| GzipBuffers.NoHeaders | parallel-compression/GzipFormat/GzipBuffer.cs:56 | exactly when the public header list, null read as empty, is empty |
| GzipBuffers.NoHeadersOrParts | parallel-compression/GzipFormat/GzipBuffer.cs:55 | implies no headers and that the buffer is not only a partial header |
| GzipBuffers.ContainsOnlyPart | parallel-compression/GzipFormat/GzipBuffer.cs:57 | implies a partial header was recorded |
| GzipBuffers.StartsWithBlockOfScan | parallel-compression/GzipFormat/GzipBuffer.cs:51-53 | `IsStartsWithCompressedBlock` of a fresh buffer holds exactly when its bytes start with a header |
| GzipBuffers.NoHeadersOfScan | parallel-compression/GzipFormat/GzipBuffer.cs:55-56 | `NoHeaders` of a fresh buffer holds exactly when no header is in its bytes, and `NoHeadersOrParts` when in addition no header prefix ends them |
| GzipBuffers.WholeBlockOfScan | parallel-compression/GzipFormat/GzipBuffer.cs:54 | `IsContainAtLestOneWholeBlock` of a fresh buffer holds exactly when its bytes hold two non-overlapping headers |
| GzipBuffers.OnlyOneBlockOfScan | parallel-compression/GzipFormat/GzipBuffer.cs:47-50 | `ContainsOnlyOneCompressedBlockFromStart` of a fresh buffer holds exactly when its bytes start with a header, hold no other, and are only that header or end with no header prefix |
| GzipBuffers.PartOfScan | parallel-compression/GzipFormat/GzipBuffer.cs:22-29 | the partial header is recorded exactly when a prefix ends the bytes and no header ends them, and it is the longest such prefix |
| GzipBuffers.OnlyPartOfScan | parallel-compression/GzipFormat/GzipBuffer.cs:57 | `ContainsOnlyPart` of a fresh buffer holds exactly when its bytes are a proper header prefix |
| GzipBuffers.CutFirst | parallel-compression/GzipFormat/GzipBuffer.cs:129-172 | null headers throw `NullReferenceException`; a first header past the start ends the block there; a header at the start ends it at the second header; with no header after the start the block runs to the partial header or the end |
| GzipBuffers.CutFirstBlock | parallel-compression/GzipFormat/GzipBuffer.cs:76-92 | a default buffer gives a default pair; otherwise the block starts the buffer, and the buffer left holds the bytes after it on the same array (the shared empty segment when none) with the same partial header |
| GzipBuffers.BytesAfterBlockShifts | parallel-compression/GzipFormat/GzipBuffer.cs:86-88 | the bytes left after a block that is not the whole buffer are `ShiftOffsetRight(blockCount)` |
| GzipBuffers.CutFirstBlockReassembles | parallel-compression/GzipFormat/GzipBuffer.cs:76-92 | the block cut off followed by the bytes left are the buffer's bytes |
| GzipBuffers.CutAtSecondHeader | parallel-compression/GzipFormat/GzipBuffer.cs:141-147 | on fresh bytes that start with a header and hold another, the block ends at the second header and the buffer left is the fresh buffer over the rest |
| GzipBuffers.CutAtFirstHeader | parallel-compression/GzipFormat/GzipBuffer.cs:153-157 | on fresh bytes with a header past the start, the block is what comes before it and the buffer left is the fresh buffer over the rest |
| GzipBuffers.CutToEnd | parallel-compression/GzipFormat/GzipBuffer.cs:167-171 | with no header after the start and no partial header, the block is the whole buffer and the buffer left is empty |
| GzipBuffers.CutToPart | parallel-compression/GzipFormat/GzipBuffer.cs:167-171 | with no header after the start and a partial header, the block stops at the partial header and the buffer left is the fresh buffer over it |
| GzipBuffers.CutFirstBlockRescans | parallel-compression/GzipFormat/GzipBuffer.cs:76-92 | cutting the first block of a fresh buffer always succeeds and leaves exactly the buffer the constructor would build over the remaining bytes |
| GzipBuffers.RebaseHeaders | parallel-compression/GzipFormat/GzipBuffer.cs:71 | each header moved to the copy at `Position - srcOffset`, in order; it fails exactly when a header does not fit in the copy |
| GzipBuffers.ShiftPart | parallel-compression/GzipFormat/GzipBuffer.cs:73 | the partial-header offset minus `srcOffset`, null staying null |
| GzipBuffers.ToOwnedBuffer | parallel-compression/GzipFormat/GzipBuffer.cs:61-74 | a default buffer stays default; null headers throw `ArgumentNullException`; otherwise a fresh array holding the same bytes, the moved headers and the moved partial header |
| GzipBuffers.OwnedScanIsScan | parallel-compression/GzipFormat/GzipBuffer.cs:61-74 | the owned copy of a fresh buffer is the fresh buffer over the copy |
| GzipBuffers.GetPossiblePart | parallel-compression/GzipFormat/GzipBuffer.cs:95-105 | the default segment without a partial header or array; otherwise the bytes from the partial header to the end of the array |
| GzipBuffers.PossiblePartOfScan | parallel-compression/GzipFormat/GzipBuffer.cs:95-105 | for a fresh buffer reaching the end of its array, the possible part is exactly the longest header prefix ending the bytes |
| GzipBuffers.ReturnToStartAsWritten | parallel-compression/GzipFormat/GzipBuffer.cs:108-127 | as written: default for two default segments, the buffer itself for a null block, `InvalidOperationException` unless the block sits on the same array right before the buffer, otherwise the joined segment with the partial header and null headers |
| GzipBuffers.ReturnToStartLosesHeaders | parallel-compression/GzipFormat/GzipBuffer.cs:123-126 | the buffer `ReturnToStart` returns as written can never be cut again: `CutFirstBlock` throws `NullReferenceException` |
| GzipBuffers.ReturnToStart | parallel-compression/GzipFormat/GzipBuffer.cs:108-127 | as intended: the same outcome, bytes and partial header, with the block's headers followed by the buffer's as its headers |
| GzipBuffers.ReturnToStartCanBeCut | parallel-compression/GzipFormat/GzipBuffer.cs:108-127 | the intended buffer can be cut again without `NullReferenceException` |
| GzipBuffers.ReturnToStartUndoesCut | parallel-compression/GzipFormat/GzipBuffer.cs:76-127 | returning the block cut off a buffer gives back its bytes and its partial header |
| SplitResults.WithBlock | parallel-compression/Decompression/GzipSplitting/SplitResult.cs:7-14 | a result with the block and the `Block` status, which therefore has a block |
| SplitResults.StatusOnly | parallel-compression/Decompression/GzipSplitting/SplitResult.cs:16-24 | throws `ArgumentException` exactly for the `Block` status; otherwise a result with only that status and no block |
| SplitResults.Terminal | parallel-compression/Decompression/GzipSplitting/SplitResult.cs:42-45 | the implicit conversion from a status other than `Block` is `StatusOnly` of it |
| SplitResults.ShapedPrepend | parallel-compression/Decompression/GzipSplitting/SplitResult.cs:28-29 | blocks yielded before a well-shaped enumeration (blocks, then one status, or only blocks before an exception) keep it well shaped |
| SplitResults.ShapedEnded | parallel-compression/Decompression/GzipSplitting/SplitResult.cs:16-24 | blocks followed by `StreamIsEnd` form a well-shaped enumeration |
| SplitResults.HasBlock | parallel-compression/Decompression/GzipSplitting/SplitResult.cs:28 | a result has a block exactly when its status is none of `StreamIsEnd`, `WrongFormat`, `CantReadBlock` |
| SplitResults.HasOnlyStatus | parallel-compression/Decompression/GzipSplitting/SplitResult.cs:29 | a result has only a status exactly when its status is one of the three that end an enumeration; the default result is one |
| Streams.RewindableStream.constructor | parallel-compression/Decompression/Streams/RewindableReadonlyStream.cs:14-18 | the position starts at the wrapped stream's position and no bytes are held back |
| Streams.RewindableStream.ReadToTheEndIffNothingRemains | parallel-compression/Decompression/Streams/RewindableReadonlyStream.cs:84 | `IsReadToTheEnd` holds exactly when no byte, returned or not yet read, remains |
| Streams.RewindableStream.IsReadToTheEnd | parallel-compression/Decompression/Streams/RewindableReadonlyStream.cs:84 | on a valid stream, at the end only when no returned bytes are held and the wrapped stream is read to its end |
| Streams.RewindableStream.Read | parallel-compression/Decompression/Streams/RewindableReadonlyStream.cs:22-57 | the four argument checks with their exceptions, leaving everything unchanged; otherwise the next bytes of what remains (returned bytes first) are written at `offset`, the position advances by the count, at least one byte comes unless nothing remains or an empty segment was returned, and `someBufferLeft` says whether returned bytes are still held |
| Streams.RewindableStream.ReadReturned | parallel-compression/Decompression/Streams/RewindableReadonlyStream.cs:33-51 | with returned bytes held, `Min(held, count)` of them are copied and the rest stay held |
| Streams.RewindableStream.ReadWrapped | parallel-compression/Decompression/Streams/RewindableReadonlyStream.cs:54-56 | without returned bytes, the wrapped stream's read, with the position advanced by what it read |
| Streams.RewindableStream.ReturnTailOfReadedBytes | parallel-compression/Decompression/Streams/RewindableReadonlyStream.cs:90-106 | `InvalidOperationException` while returned bytes are still held and `ArgumentException` when more bytes are returned than were read, changing nothing; otherwise the position moves back and the next reads deliver the held bytes, then the returned ones, then the rest of the stream |
| Streams.Requeued | parallel-compression/Decompression/Streams/RewindableReadonlyStream.cs:103-105 | the new held segment is a copy of the returned bytes or the held ones followed by them |
| Streams.ReadExactBuffer | parallel-compression/Helpers/StreamHelpers.cs:32-50 | the segment from index 0 holds the next `Min(buffer.Length, remaining)` bytes of the stream, which are consumed, and the end flag is set exactly when fewer than a full buffer remained |
| Streams.ReadExactInto | parallel-compression/Helpers/StreamHelpers.cs:38-47 | the read loop: the next `Min(count, remaining)` bytes are written at `offset` and consumed, ending early exactly when the stream runs out |
| Streams.ReadNext | parallel-compression/Helpers/StreamHelpers.cs:40-46 | one turn of the loop extends the bytes written and consumed, and reads nothing only at the end of the stream |
| Streams.ReadExactFullBufferOfSize | parallel-compression/Helpers/StreamHelpers.cs:26-30 | a negative size throws `OverflowException` (the array allocation); otherwise a fresh buffer of that size read as `ReadExactBuffer` does |
| Streams.ReadExactBufferAt | parallel-compression/Helpers/StreamHelpers.cs:52-70 | the segment at `offset` holds the next `Min(count, remaining)` bytes for a positive count (none otherwise), consumed from the stream, with the end flag set exactly when the stream ran out; bad offsets throw what `Stream.Read` throws |
| Streams.ReadExactFullBufferAt | parallel-compression/Helpers/StreamHelpers.cs:72-83 | with `offset < count`, reads until `count` is reached or the stream ends and returns the index reached and whether it stopped short; with `offset >= count` reads nothing and returns `(offset, false)` |
| Text.AsciiBytes | parallel-compression/IO/OutputFile.cs:42 | the label's bytes: one byte per character, the character's code below 128 and `?` for anything else |
| OutputFiles.ToErrorCode | parallel-compression/IO/OutputFile.cs:182-194 | a file that shrank while its trailer was read maps to `OutputFileUnexpectedlyReduced` and exactly the other two reading errors to `OutputFileHaveWrongFormatOrAlreadyCommitted` |
| OutputFiles.Trailer | parallel-compression/IO/OutputFile.cs:99-105 | the trailer is the label's bytes followed by the offset's eight little-endian bytes |
| OutputFiles.TrailerOffset | parallel-compression/IO/OutputFile.cs:196-216 | reading the trailer of a file's bytes fails with `FileTooShort` exactly when the file is shorter than label plus eight bytes, never reports a shrinking file, and a value it yields is a 64-bit integer |
| OutputFiles.AppendedReadsBack | parallel-compression/IO/OutputFile.cs:47-120 | after an append the file is not empty, its trailer reads back the offset appended, and what lies before the trailer is the old payload followed by the appended bytes |
| OutputFiles.AppendedAt | parallel-compression/IO/OutputFile.cs:54-64 | writing the block and trailer at the start of an empty file, or where the old trailer starts, yields the appended file |
| OutputFiles.AppendAllPayload | parallel-compression/IO/OutputFile.cs:47-175 | after any series of appends the trailer holds the last offset and the payload is the old payload followed by every appended block in order |
| OutputFiles.AppendsThenCommit | parallel-compression/IO/OutputFile.cs:47-175 | appends starting from an empty file, then `Commit`, leave exactly the appended blocks one after another |
| OutputFiles.ReadExactFullBuffer | parallel-compression/Helpers/StreamHelpers.cs:10-24 | fails with "End of stream" exactly when fewer bytes remain than the buffer holds; either way the buffer starts with the next bytes of the stream, which are consumed, and the file's bytes do not change |
| OutputFiles.OutputFile.constructor | parallel-compression/IO/OutputFile.cs:41-44 | the stream is kept, the label is held as its ASCII bytes and the trailer buffer is label length plus eight bytes |
| OutputFiles.OutputFile.Open | parallel-compression/IO/OutputFile.cs:27-45 | a null or blank label throws `ArgumentException`, then a null stream `ArgumentNullException`, then a stream that cannot write, read or seek `ArgumentException`; otherwise a valid file over that stream |
| OutputFiles.OutputFile.ReadOffsetFromTheEndOfTheStream | parallel-compression/IO/OutputFile.cs:196-216 | the result is the trailer read from the file's bytes (too short, wrong label, or the offset), and the bytes do not change |
| OutputFiles.OutputFile.OverwritePreviousOffset | parallel-compression/IO/OutputFile.cs:85-89 | no error exactly when the file's trailer can be read; otherwise the wrong-format code; the bytes do not change |
| OutputFiles.OutputFile.WriteBlock | parallel-compression/IO/OutputFile.cs:91-97 | the segment's bytes overwrite the file at the position, which advances by their count |
| OutputFiles.OutputFile.WriteOffsetSection | parallel-compression/IO/OutputFile.cs:99-105 | the trailer for the offset overwrites the file at the position, which advances by the trailer's length |
| OutputFiles.OutputFile.WriteBlockAndOffsetSection | parallel-compression/IO/OutputFile.cs:63-64 | from a position within the old trailer's reach, everything after it is replaced by the block and the new trailer |
| OutputFiles.OutputFile.Append | parallel-compression/IO/OutputFile.cs:47-106 | a negative offset throws `ArgumentException`; success without error exactly when the file is empty or its trailer reads, and then the file is the appended file; a file with no readable trailer yields the wrong-format code; in every other case the bytes are unchanged |
| OutputFiles.OutputFile.GetLastOffset | parallel-compression/IO/OutputFile.cs:108-138 | the offset in the trailer when it reads, 0 for an empty file, and the wrong-format code exactly when a non-empty file has no readable trailer; the bytes do not change |
| OutputFiles.OutputFile.Commit | parallel-compression/IO/OutputFile.cs:140-175 | no error exactly when the trailer reads, and then the file is cut to its payload; otherwise the wrong-format code and the bytes unchanged |
| Blocks.BlockBytes | parallel-compression/Models/Block.cs:19 | `Bytes` is never a segment over a null array, and is empty when no bytes were stored |
| Blocks.DefaultBlockIsEmpty | parallel-compression/Models/Block.cs:7-21 | the default block is empty, has offset 0 and its bytes are the shared empty segment |
| Blocks.IsEmpty | parallel-compression/Models/Block.cs:21 | a block that stored no bytes is empty |
| Blocks.NewBlockAsWritten | parallel-compression/Models/Block.cs:10-17 | the constructor succeeds exactly for a positive offset, throws `ArgumentException` otherwise, keeps the offset, and keeps the segment unless its array is null, when it takes the empty segment |
| Blocks.NewBlock | parallel-compression/Models/Block.cs:10-17 | the constructor its message describes: succeeds exactly for a non-negative offset, with the same bytes and offset as above |
| Blocks.NewBlockDiffersAtZero | parallel-compression/Models/Block.cs:12-13 | the two constructors differ exactly at offset 0, where only the corrected one builds a block |
| InputFiles.InputFile.constructor | parallel-compression/IO/InputFile.cs:13-15 | a file over an accepted stream keeps that stream: its bytes, chunk size and failures, at position 0 with no reads made yet |
| InputFiles.InputFile.Open | parallel-compression/IO/InputFile.cs:13-21 | a null stream throws `ArgumentNullException`, then one that cannot seek, then one that cannot read, `ArgumentException`; success exactly for a stream that can seek and read, and then a file over its bytes from the start |
| InputFiles.InputFile.SeekTo | parallel-compression/IO/InputFile.cs:52-76 | the file system's seek failure is returned and the position stays; otherwise the position becomes the offset |
| InputFiles.InputFile.ReadTo | parallel-compression/IO/InputFile.cs:23-50 | an empty buffer throws `ArgumentException` and changes nothing; otherwise one read that either returns the file system's failure for that read and moves nothing, or copies the next `Min(buffer.Length, chunk, remaining)` bytes to the buffer's start and consumes them |
| InputFiles.AddLong | parallel-compression/IO/InputFileHelpers.cs:37 | `lastReadOffset += readBytesCount` on a `long`: always a 64-bit value, and the exact sum when that fits |
| InputFiles.RefusedByConstructor | parallel-compression/IO/InputFileHelpers.cs:40 | the offset test of the read loop is exactly what the as-written and the corrected block constructors refuse |
| InputFiles.ReadLoopStep | parallel-compression/IO/InputFileHelpers.cs:26-41 | one turn of the do-while loop: a failing read yields its error alone and stops; a refused offset throws `ArgumentException`; a read of nothing yields the empty block and stops; otherwise the block of the bytes read, with the offset reached, comes first and the loop goes on over the rest |
| InputFiles.ReadLoopBytes | parallel-compression/IO/InputFileHelpers.cs:26-41 | the blocks yielded, joined, are a prefix of the bytes still to read |
| InputFiles.ReadLoopWhole | parallel-compression/IO/InputFileHelpers.cs:26-41 | when the loop ends on a block without an exception, the blocks joined are all the remaining bytes |
| InputFiles.ReadLoopEnd | parallel-compression/IO/InputFileHelpers.cs:26-41 | without an exception something is yielded and a last block is empty; the only exception is `ArgumentException` |
| InputFiles.ReadLoopOrder | parallel-compression/IO/InputFileHelpers.cs:26-41 | every item but the last is a non-empty block, and no block holds more than `bufferSize` bytes |
| InputFiles.ReadLoopOffsets | parallel-compression/IO/InputFileHelpers.cs:23-41 | each block's offset is the start offset plus the bytes read up to and including that block |
| InputFiles.EmptyFileFromStartThrows | parallel-compression/IO/InputFileHelpers.cs:23-41 | from offset 0 over an empty file the loop throws `ArgumentException` with the constructor as written, and yields the empty block at offset 0 with the corrected one |
| InputFiles.AllMatchStep | parallel-compression/IO/InputFileHelpers.cs:40 | yielding one more matching block keeps every yielded block matched to its item |
| InputFiles.ReadNextBlock | parallel-compression/IO/InputFileHelpers.cs:39-40 | one turn: a negative size throws `OverflowException`, 0 `ArgumentException`; a failing read returns its error and consumes nothing; otherwise `Min(bufferSize, chunk, remaining)` bytes are consumed and the block holds them with the offset reached, unless the constructor refuses that offset |
| InputFiles.ReadNextItem | parallel-compression/IO/InputFileHelpers.cs:26-41 | one turn of the loop yields the first item of `LoopRun` and leaves the rest of the run to the next turn, consuming at least one byte when it goes on |
| InputFiles.ReadLoopTurn | parallel-compression/IO/InputFileHelpers.cs:26-41 | the loop body keeps the items yielded so far matched to the run's prefix and the run still to come equal to `LoopRun` from the new offset |
| InputFiles.ReadLoopFrom | parallel-compression/IO/InputFileHelpers.cs:23-41 | the do-while loop yields exactly the items of `LoopRun` and ends with its exception |
| InputFiles.ReadBlocks | parallel-compression/IO/InputFileHelpers.cs:11-42 | seeks first for a positive offset, yielding a seek failure alone; then yields exactly the items of `BlocksFrom`, each block over its own buffer, and ends with its exception |
| Limiters.ReleaseStepAsWritten | parallel-compression/Threading/Limiter.cs:51-58 | the release step in unchecked 32-bit arithmetic: the counter it installs is a 32-bit value within the maximum; a release that keeps the counter within the maximum is accepted with the sum; one whose exact sum fits in 32 bits but exceeds the maximum is refused |
| Limiters.ReleaseStepOverflows | parallel-compression/Threading/Limiter.cs:51-58 | releasing `int.MaxValue` into a counter of 5 with the default maximum is accepted and installs a negative counter |
| Limiters.ReleaseStep | parallel-compression/Threading/Limiter.cs:51-58 | the intended step: accepted exactly when counter plus count stays within the maximum, installing the sum, and otherwise leaving the counter; the counter stays in `0..maxValue` |
| Limiters.ReleaseStepAgreesWithoutOverflow | parallel-compression/Threading/Limiter.cs:51-58 | while the sum fits in 32 bits the written and the intended steps accept the same releases |
| Limiters.Limiter.constructor | parallel-compression/Threading/Limiter.cs:15-27 | for accepted arguments, a limiter with that counter and maximum, not released |
| Limiters.Limiter.Create | parallel-compression/Threading/Limiter.cs:15-27 | succeeds exactly when `0 <= free <= maxValue` and `maxValue >= 1`, otherwise throws `ArgumentException` |
| Limiters.Limiter.TryRelease | parallel-compression/Threading/Limiter.cs:37-69 | a count that is not positive throws; the result is the counter before the call; the release is accepted exactly when the limiter is not released forever, not at its maximum and the written step accepts it, and then installs the step's counter; otherwise nothing changes; when the sum fits in 32 bits, accepted exactly when it stays within the maximum |
| Limiters.Limiter.TryReleaseOne | parallel-compression/Threading/Limiter.cs:32-35 | releasing one unit is accepted exactly when not released forever and below the maximum, and then adds one; the result is the counter before |
| Limiters.Limiter.ReleaseForever | parallel-compression/Threading/Limiter.cs:71-85 | the counter goes to the maximum and the flag is set; a second call changes nothing |
| Limiters.Limiter.WaitFree | parallel-compression/Threading/Limiter.cs:87-148 | released forever it takes nothing; a positive counter loses one unit; at 0 the caller takes what the waking state offers (a unit if the counter woke positive, nothing when released forever meanwhile); the result is the counter afterwards |
| Limiters.OverflowingRelease | parallel-compression/Threading/Limiter.cs:37-69 | `new Limiter(5).TryRelease(int.MaxValue)` is accepted, reports 5, and leaves a negative counter |
| BlockingQueues.BlockingQueue.constructor | parallel-compression/Threading/BlockingQueue.cs:28-35 | for an accepted capacity, an empty queue that is neither turned off nor disposed, with fresh limiters |
| BlockingQueues.BlockingQueue.Create | parallel-compression/Threading/BlockingQueue.cs:28-35 | succeeds exactly for a capacity of at least 1, otherwise throws `ArgumentException` |
| BlockingQueues.BlockingQueue.Size | parallel-compression/Threading/BlockingQueue.cs:37 | on a valid queue, the number of elements, between 0 and the capacity |
| BlockingQueues.BlockingQueue.IsFull | parallel-compression/Threading/BlockingQueue.cs:38 | on a valid queue, full exactly when it holds `capacity` elements |
| BlockingQueues.BlockingQueue.FullIffNoFreePlace | parallel-compression/Threading/BlockingQueue.cs:37-38 | `IsFull` holds exactly when the enqueue limiter has no free unit, and `Size` is the number of elements, never above the capacity |
| BlockingQueues.BlockingQueue.TurnOffQueueingNewElements | parallel-compression/Threading/BlockingQueue.cs:42-51 | throws `InvalidOperationException` exactly on a disposed queue; otherwise queueing is off afterwards; the elements never change, and a second call changes nothing |
| BlockingQueues.BlockingQueue.Enqueue | parallel-compression/Threading/BlockingQueue.cs:53-66 | a disposed or turned-off queue throws `InvalidOperationException` and keeps its elements; otherwise the value is added at the tail |
| BlockingQueues.BlockingQueue.Dequeue | parallel-compression/Threading/BlockingQueue.cs:68-84 | a disposed or turned-off queue throws `InvalidOperationException` and keeps its elements; otherwise the head is removed and returned |
| BlockingQueues.BlockingQueue.TryDequeue | parallel-compression/Threading/BlockingQueue.cs:86-105 | throws exactly on a disposed queue; otherwise returns and removes the head, or reports `QueueingCancelledButQueueIsEmpty` when there is none |
| BlockingQueues.BlockingQueue.TryDequeIfHeadMatched | parallel-compression/Threading/BlockingQueue.cs:107-146 | a disposed queue throws `InvalidOperationException`, a null condition `ArgumentNullException`, changing nothing; otherwise the head, if any, is returned and removed exactly when the condition holds for it; an empty queue yields `false` |
| BlockingQueues.BlockingQueue.Dispose | parallel-compression/Threading/BlockingQueue.cs:148-152 | the queue is disposed and turned off, its elements unchanged |
| BlockingQueues.BlockingQueue.DequeueWait | parallel-compression/Threading/BlockingQueue.cs:170-186 | before turn-off takes one unit of the dequeue limiter, leaving one less than the size; after turn-off the limiter stays released |
| BlockingQueues.BlockingQueue.DequeueRelease | parallel-compression/Threading/BlockingQueue.cs:188-197 | before turn-off gives back one unit, so the dequeue counter equals the size again; after turn-off does nothing |
| ResultsQueues.CompletedPrefix | parallel-compression/Results/BoundedResultsQueue.cs:50-60 | the number of slots at the head that hold a result: every slot before it holds one and the slot at it, if any, does not |
| ResultsQueues.ResultsOf | parallel-compression/Results/BoundedResultsQueue.cs:52-54 | the results of the given slots, one per slot, in the slots' order |
| ResultsQueues.ResultsOfAppend | parallel-compression/Results/BoundedResultsQueue.cs:52-54 | yielding one more completed slot appends its result |
| ResultsQueues.CheckDisposedAsWritten | parallel-compression/Results/BoundedResultsQueue.cs:82-88 | the check as written throws `InvalidOperationException`, and only that |
| ResultsQueues.CheckDisposed | parallel-compression/Results/BoundedResultsQueue.cs:82-88 | the check as its message describes it throws `InvalidOperationException` exactly on a disposed queue |
| ResultsQueues.BoundedResultsQueue.constructor | parallel-compression/Results/BoundedResultsQueue.cs:18-26 | for accepted arguments, an empty queue with no slots acquired and no results, neither turned off nor disposed |
| ResultsQueues.BoundedResultsQueue.Create | parallel-compression/Results/BoundedResultsQueue.cs:18-26 | succeeds exactly for a non-negative timeout and a capacity of at least 1, otherwise throws `ArgumentException` |
| ResultsQueues.BoundedResultsQueue.Pending | parallel-compression/Results/BoundedResultsQueue.cs:13 | the slots still owed to the consumer are the slot queue's elements |
| ResultsQueues.BoundedResultsQueue.TurnOffAcquiringSlots | parallel-compression/Results/BoundedResultsQueue.cs:28-34 | throws `InvalidOperationException` exactly when acquisition is already off (the check as written); acquisition is off afterwards and no slot or result changes |
| ResultsQueues.BoundedResultsQueue.AcquireFreeResultOrWait | parallel-compression/Results/BoundedResultsQueue.cs:36-44 | on a queue turned off or disposed throws `InvalidOperationException`, changing nothing; otherwise a new slot, numbered in acquisition order and without a result, is appended to the pending slots |
| ResultsQueues.BoundedResultsQueue.SetResult | parallel-compression/Results/BoundedResultsQueue.cs:102-107 | the slot's result is set and nothing else changes; on a disposed queue the release of the disposed semaphore then throws `ObjectDisposedException` |
| ResultsQueues.BoundedResultsQueue.DrainCompleted | parallel-compression/Results/BoundedResultsQueue.cs:50-60 | the consumer loop takes out exactly the completed slots at the head and yields their results in acquisition order; it ends exactly when acquisition is off and nothing was left pending |
| ResultsQueues.BoundedResultsQueue.YieldStep | parallel-compression/Results/BoundedResultsQueue.cs:52-54 | one more slot taken out keeps the yielded results equal to the results of the slots taken, in order |
| ResultsQueues.BoundedResultsQueue.DequeResultsOnCompletion | parallel-compression/Results/BoundedResultsQueue.cs:46-61 | throws `InvalidOperationException` exactly when acquisition is already off, with the pending slots kept; otherwise yields the completed results at the head in acquisition order, as `DrainCompleted` does |
| ResultsQueues.BoundedResultsQueue.Dispose | parallel-compression/Results/BoundedResultsQueue.cs:63-72 | acquisition is off and the queue disposed, with slots and results unchanged |
| ResultsQueues.LateConsumerRefused | parallel-compression/Results/BoundedResultsQueue.cs:28-88 | a consumer that starts after acquisition was turned off is refused with `InvalidOperationException` while a completed result is still pending |
| ResultsQueues.LateConsumerServed | parallel-compression/Results/BoundedResultsQueue.cs:46-88 | with the intended check the same consumer receives the owed result and the enumeration ends |
| ResultsQueues.ProducerAfterDispose | parallel-compression/Results/BoundedResultsQueue.cs:63-107 | a slot acquired before `Dispose` still stores its result, and setting it throws `ObjectDisposedException` |
| Settings.NewCompressorSettings | parallel-compression/Configuration/CompressorSettings.cs:8-31 | succeeds exactly when buffer size, thread count and queue size are positive and the label is neither null nor white space, storing every argument unchanged; otherwise throws `ArgumentException` |
| Settings.ParallelDecompressionBufferSize | parallel-compression/Configuration/CompressorSettings.cs:38 | the parallel decompression buffer is the input reading buffer size, which is positive |
| Settings.MaxParallelDecompressionBufferSize | parallel-compression/Configuration/CompressorSettings.cs:39 | the largest decompression buffer is 128 MiB |
| Settings.DefaultOffsetLabelIsValid | parallel-compression/Configuration/CompressorSettingsBuilder.cs:11 | the default label `========` is accepted as a label |
| Settings.DefaultQueueSize | parallel-compression/Configuration/CompressorSettingsBuilder.cs:54 | the default queue size is at least 1: the thread count minus the input and output threads from three threads on, and 1 below that |
| Settings.SettingsFrom | parallel-compression/Configuration/CompressorSettingsBuilder.cs:76-90 | a thread count, queue size or buffer size still 0, or no label, throws `InvalidOperationException`; fully and validly set fields give the settings with those values and the size hint written; any settings returned are valid |
| Settings.CompressorSettingsBuilder.constructor | parallel-compression/Configuration/CompressorSettingsBuilder.cs:13-16 | a new builder has nothing set |
| Settings.CompressorSettingsBuilder.SetDefaultOffsetLabel | parallel-compression/Configuration/CompressorSettingsBuilder.cs:18-22 | the label becomes the default one and nothing else changes |
| Settings.CompressorSettingsBuilder.SetOffsetLabel | parallel-compression/Configuration/CompressorSettingsBuilder.cs:24-33 | a null or white-space label throws `ArgumentException` and keeps the old one; otherwise the label is stored; nothing else changes |
| Settings.CompressorSettingsBuilder.SetParallelismByThreadsPerCpu | parallel-compression/Configuration/CompressorSettingsBuilder.cs:40-58 | a multiplier that is not positive throws and changes nothing; otherwise the thread count becomes processors times multiplier in 32-bit arithmetic, then a given queue size that is not positive throws, a given positive one is stored, and none gives the default queue size |
| Settings.CompressorSettingsBuilder.SetDefaultPararllelism | parallel-compression/Configuration/CompressorSettingsBuilder.cs:35-38 | one thread per processor and the default queue size |
| Settings.CompressorSettingsBuilder.SetInputFileReadingBufferSize | parallel-compression/Configuration/CompressorSettingsBuilder.cs:60-67 | a size that is not positive throws `ArgumentException` and keeps the old one; otherwise it is stored; nothing else changes |
| Settings.CompressorSettingsBuilder.SetDefaultInputFileReadingBufferSize | parallel-compression/Configuration/CompressorSettingsBuilder.cs:69-73 | the buffer size becomes 84988 bytes, below the large-object heap threshold, and nothing else changes |
| Settings.CompressorSettingsBuilder.GetSettings | parallel-compression/Configuration/CompressorSettingsBuilder.cs:74-90 | the settings `SettingsFrom` gives for the builder's fields |
| Settings.DefaultsMakeSettings | parallel-compression/Configuration/CompressorSettingsBuilder.cs:35-90 | the default parallelism, buffer size and label always make settings, with those values |
| Settings.OverflowingThreadCountIsRejected | parallel-compression/Configuration/CompressorSettingsBuilder.cs:45-90 | a multiplier that overflows the thread count passes the "is it set" test and is rejected by the settings constructor with `ArgumentException` |
| Text.EqualsIgnoreCaseIsEquivalence | Parallel.Compression.Cli/ParamsParsing/CommandKeyOption.cs:45-49 | ordinal case-insensitive equality, which keys are matched with, is reflexive, symmetric and transitive |
| Text.EqualsIgnoreCaseExamples | Parallel.Compression.Cli/ParamsParsing/CommandKeyOption.cs:45-49 | keys differing only in letter case are equal, different letters are not |
| CommandLine.OptionKeyShape | Parallel.Compression.Cli/ParamsParsing/CommandKeyOption.cs:7-10 | a value looks like an option key exactly when it is not null and starts with `-` |
| CommandLine.ValueLooksLikeOptionKey | Parallel.Compression.Cli/ParamsParsing/CommandKeyOption.cs:7-10 | a null or empty value never looks like an option key |
| CommandLine.Shown | Parallel.Compression.Cli/ParamsParsing/CommandKeyOption.cs:41 | a null string formats as the empty string, any other as itself |
| CommandLine.OptionSignature | Parallel.Compression.Cli/ParamsParsing/CommandKeyOption.cs:23-43 | both keys give `short|long`; no short key gives the long key (empty when that is null too); only a short key gives it alone |
| CommandLine.SignatureNamesKeys | Parallel.Compression.Cli/ParamsParsing/CommandKeyOption.cs:23-43 | the signature starts with the short key and ends with the long key, with one separator between them when both exist |
| CommandLine.OptionMatchesItsKeys | Parallel.Compression.Cli/ParamsParsing/CommandKeyOption.cs:45-49 | an option never matches a null key, matches each of its own keys, and matches only a key equal to one of them ignoring case |
| CommandLine.OptionIsMatched | Parallel.Compression.Cli/ParamsParsing/CommandKeyOption.cs:45-49 | a matched key is not null and as long as the short or the long key it equals |
| CommandLine.CommandArgument.IsMatched | Parallel.Compression.Cli/ParamsParsing/CommandArgument.cs:44-47 | a matched value is not null and as long as the command key, and the key itself matches |
| CommandLine.FirstMissing | Parallel.Compression.Cli/ParamsParsing/CommandArgument.cs:61-71 | the first positional value that is null, blank or looks like an option key, with every earlier one present; none when all are present |
| CommandLine.Positional | Parallel.Compression.Cli/ParamsParsing/CommandArgument.cs:61-71 | the positional dictionary has exactly the parameters' keys, and the last parameter maps to its value |
| CommandLine.PositionalStores | Parallel.Compression.Cli/ParamsParsing/CommandArgument.cs:61-71 | every positional value `i` is stored under parameter `i`'s key unless a later parameter repeats that key |
| CommandLine.OptionsKeys | Parallel.Compression.Cli/ParamsParsing/CommandArgument.cs:73-80 | the option loop adds exactly the keys of the pairs some option matches |
| CommandLine.OptionsLastPairWins | Parallel.Compression.Cli/ParamsParsing/CommandArgument.cs:73-80 | a matched key maps to the value of its last occurrence |
| CommandLine.OptionsUntouched | Parallel.Compression.Cli/ParamsParsing/CommandArgument.cs:73-80 | an entry whose key no matched pair names keeps its value |
| CommandLine.ParseArguments | Parallel.Compression.Cli/ParamsParsing/CommandArgument.cs:49-83 | fewer arguments than parameters and an odd number of optional arguments are the two count errors; parsing succeeds exactly when the counts are right and no positional value is missing |
| CommandLine.ParsedKeys | Parallel.Compression.Cli/ParamsParsing/CommandArgument.cs:49-83 | a parsed dictionary's keys are the parameters' keys plus the keys of the matched option pairs |
| CommandLine.PositionalValue | Parallel.Compression.Cli/ParamsParsing/CommandArgument.cs:61-80 | in a parsed dictionary, every positional parameter `i` maps to `args[i]` unless a later parameter repeats its key or a matched option pair overwrites it |
| CommandLine.CommandArgument.constructor | Parallel.Compression.Cli/ParamsParsing/CommandArgument.cs:15-19 | a command with the key and description and no parameters or options |
| CommandLine.CommandArgument.AddPositionParameters | Parallel.Compression.Cli/ParamsParsing/CommandArgument.cs:32-36 | the parameter is appended, options unchanged, and the signature gains `<key>` at its end |
| CommandLine.CommandArgument.AddOption | Parallel.Compression.Cli/ParamsParsing/CommandArgument.cs:38-42 | the option is appended, parameters unchanged |
| CommandLine.CommandArgument.Signature | Parallel.Compression.Cli/ParamsParsing/CommandArgument.cs:23 | the command key and a space, followed by the parameters' part |
| CommandLine.CommandArgument.ParametersDescriptions | Parallel.Compression.Cli/ParamsParsing/CommandArgument.cs:25-30 | one entry per positional parameter, its key and description in order, then one per option, its signature and description |
| CommandLine.CommandArgument.GetArguments | Parallel.Compression.Cli/ParamsParsing/CommandArgument.cs:49-83 | the result of `ParseArguments` over the command's parameters and options, so every positional value stands under its parameter's key (`PositionalValue`) |
| CommandLine.ParameterEntries | Parallel.Compression.Cli/ParamsParsing/CommandArgument.cs:27-28 | each positional parameter as its key and description, in order |
| CommandLine.OptionEntries | Parallel.Compression.Cli/ParamsParsing/CommandArgument.cs:29 | each option as its signature and description, in order |
| CommandLine.StorePositional | Parallel.Compression.Cli/ParamsParsing/CommandArgument.cs:61-71 | the positional loop fails as `ParseArguments` does, or succeeds with no value missing and the positional dictionary |
| CommandLine.StoreOptions | Parallel.Compression.Cli/ParamsParsing/CommandArgument.cs:73-80 | the option loop leaves the dictionary `Options` describes |
| CommandLine.PositionalStep | Parallel.Compression.Cli/ParamsParsing/CommandArgument.cs:70 | one more positional parameter stores its value under its key |
| CommandLine.MissingFound | Parallel.Compression.Cli/ParamsParsing/CommandArgument.cs:65-68 | the first missing positional value makes parsing fail with that parameter's description |
| CommandLine.FirstMissingStays | Parallel.Compression.Cli/ParamsParsing/CommandArgument.cs:61-71 | once a missing value is found, looking further does not change which one is first |
| CommandLine.ParametersSignatureSnoc | Parallel.Compression.Cli/ParamsParsing/CommandArgument.cs:23 | one more parameter adds `<key>` at the end, after a space unless it is the first |
| CommandLine.OccurrencesAppend | Parallel.Compression.Cli/ParamsParsing/CommandArgument.cs:23 | counting a character in a concatenation adds the counts of the parts |
| CommandLine.SignatureOpensOnePerParameter | Parallel.Compression.Cli/ParamsParsing/CommandArgument.cs:23 | with keys free of `<`, the parameters' part opens exactly one `<` per parameter |
| MimeSplitting.NewMimeTypeLengthGzipSplitter | parallel-compression/Decompression/GzipSplitting/MimeTypeLengthGzipSplitter.cs:18-24 | succeeds exactly for a block size limit of at least 1, keeping it; otherwise throws `ArgumentOutOfRangeException` |
| MimeSplitting.HintOf | parallel-compression/Decompression/GzipSplitting/MimeTypeLengthGzipSplitter.cs:33-54 | ten bytes that are no gzip header are `WrongFormat`; a header whose MTIME length is 0 or above the limit is `CantReadBlock`; otherwise the length, which is non-zero and within the limit |
| MimeSplitting.ReadSize | parallel-compression/Decompression/GzipSplitting/MimeTypeLengthGzipSplitter.cs:93-94 | the size `blockLength + 10` computed in 32-bit arithmetic, when not negative, is the exact sum |
| MimeSplitting.FirstOf | parallel-compression/Decompression/GzipSplitting/MimeTypeLengthGzipSplitter.cs:56-88 | the start of the enumeration goes on into the loop only with the stream unchanged, at least a header's worth of bytes, and a non-zero announced length |
| MimeSplitting.StepOf | parallel-compression/Decompression/GzipSplitting/MimeTypeLengthGzipSplitter.cs:90-137 | a turn of the loop goes on only after a member of the announced positive length, with the stream at its end and a non-zero next length |
| MimeSplitting.AfterFullRead | parallel-compression/Decompression/GzipSplitting/MimeTypeLengthGzipSplitter.cs:110-137 | after reading a member and the next header, the loop goes on only from the end of the member |
| MimeSplitting.LoopHeldUnfolds | parallel-compression/Decompression/GzipSplitting/MimeTypeLengthGzipSplitter.cs:90-137 | the bytes held back after the loop are those of the turn that stops it |
| MimeSplitting.MimeHeldUnfolds | parallel-compression/Decompression/GzipSplitting/MimeTypeLengthGzipSplitter.cs:78-137 | the bytes held back after the enumeration are those of the first header read when it stops there, and those of the loop otherwise |
| MimeSplitting.LoopHeldBound | parallel-compression/Decompression/GzipSplitting/MimeTypeLengthGzipSplitter.cs:90-137 | after the loop, the bytes pushed back are among those still held and never more than a member within the limit plus a header |
| MimeSplitting.MimeHeldBound | parallel-compression/Decompression/GzipSplitting/MimeTypeLengthGzipSplitter.cs:26-140 | after the whole enumeration on a fresh stream, the bytes pushed back are among those still held and never more than the limit plus a header |
| MimeSplitting.WrongHintPushesBackAll | parallel-compression/Decompression/GzipSplitting/MimeTypeLengthGzipSplitter.cs:106-126 | a first header whose announced member is not followed by a header makes the enumeration yield only `CantReadBlock` and push back the member and the ten bytes after it |
| MimeSplitting.LoopUnfolds | parallel-compression/Decompression/GzipSplitting/MimeTypeLengthGzipSplitter.cs:90-139 | the loop is the turn's output followed by the rest of the loop, or `StreamIsEnd` after the stream ends |
| MimeSplitting.MimeSplitUnfolds | parallel-compression/Decompression/GzipSplitting/MimeTypeLengthGzipSplitter.cs:78-139 | the enumeration is the start's outcome followed by the loop |
| MimeSplitting.StepShape | parallel-compression/Decompression/GzipSplitting/MimeTypeLengthGzipSplitter.cs:90-137 | a turn yields blocks, and when it stops, blocks followed by one status unless it throws |
| MimeSplitting.LoopShape | parallel-compression/Decompression/GzipSplitting/MimeTypeLengthGzipSplitter.cs:90-139 | the loop yields blocks followed by exactly one status, or throws |
| MimeSplitting.MimeSplitShape | parallel-compression/Decompression/GzipSplitting/MimeTypeLengthGzipSplitter.cs:26-140 | the enumeration yields blocks followed by exactly one status, or throws |
| MimeSplitting.StepConsumes | parallel-compression/Decompression/GzipSplitting/MimeTypeLengthGzipSplitter.cs:90-137 | a turn's blocks followed by what the stream still holds are the bytes it held before |
| MimeSplitting.LoopConsumes | parallel-compression/Decompression/GzipSplitting/MimeTypeLengthGzipSplitter.cs:90-139 | the loop's blocks followed by what the stream still holds are the bytes it held before |
| MimeSplitting.MimeSplitConsumes | parallel-compression/Decompression/GzipSplitting/MimeTypeLengthGzipSplitter.cs:26-140 | the blocks yielded, joined, followed by what the stream still holds, are exactly what it held: nothing is lost or duplicated |
| MimeSplitting.StepHinted | parallel-compression/Decompression/GzipSplitting/MimeTypeLengthGzipSplitter.cs:90-137 | a turn started at a header yields the member that header announces and goes on at the next header, whose length is within the limit |
| MimeSplitting.AfterFullReadHinted | parallel-compression/Decompression/GzipSplitting/MimeTypeLengthGzipSplitter.cs:110-137 | after a full read the block is the announced member and the loop goes on at the next header |
| MimeSplitting.OneStatusHinted | parallel-compression/Decompression/GzipSplitting/MimeTypeLengthGzipSplitter.cs:84-87 | a single status yields no block |
| MimeSplitting.LoopBlocksAreHinted | parallel-compression/Decompression/GzipSplitting/MimeTypeLengthGzipSplitter.cs:90-139 | each block of the loop is exactly the member the header before it announces |
| MimeSplitting.MimeSplitBlocksAreHinted | parallel-compression/Decompression/GzipSplitting/MimeTypeLengthGzipSplitter.cs:26-140 | each block yielded starts at a gzip header and is exactly as long as that header's MTIME field announces, between 1 and the limit, one after another |
| MimeSplitting.HeaderAtStart | parallel-compression/Decompression/GzipSplitting/MimeTypeLengthGzipSplitter.cs:61-72 | whether a header starts the bytes depends only on their first ten |
| MimeSplitting.OneAnnouncedMember | parallel-compression/Decompression/GzipSplitting/MimeTypeLengthGzipSplitter.cs:26-140 | a stream holding exactly one member whose header announces its length yields that member and `StreamIsEnd` |
| MimeSplitting.ShortStreamEnds | parallel-compression/Decompression/GzipSplitting/MimeTypeLengthGzipSplitter.cs:61-69 | a stream with fewer than ten bytes yields only `StreamIsEnd` |
| MimeSplitting.GetBlockLengthFromGzipHeader | parallel-compression/Decompression/GzipSplitting/MimeTypeLengthGzipSplitter.cs:33-54 | the header's length or status as `HintOf` gives it |
| MimeSplitting.SplitToIndependentBlocks | parallel-compression/Decompression/GzipSplitting/MimeTypeLengthGzipSplitter.cs:26-140 | yields exactly what `MimeSplit` describes for the bytes the stream holds and what was pushed back before, leaves the stream holding the run's rest, and pushes back as many bytes as `MimeHeld` says |
| MimeSplitting.ReadBlocks | parallel-compression/Decompression/GzipSplitting/MimeTypeLengthGzipSplitter.cs:90-139 | the while loop yields what `LoopFrom` describes and leaves the pushed-back bytes `LoopHeld` says |
| MimeSplitting.ReadFirstHeader | parallel-compression/Decompression/GzipSplitting/MimeTypeLengthGzipSplitter.cs:78-88 | the first header read and pushed back: the outcome `FirstOf` describes, with `FirstHeld` bytes pushed back when the enumeration stops there |
| MimeSplitting.ReadCurrentGzipBlockLengthFromStream | parallel-compression/Decompression/GzipSplitting/MimeTypeLengthGzipSplitter.cs:56-76 | reads up to ten bytes; the end flag says fewer remained; with ten bytes the length or status is `HintOf` of them; fewer bytes are no error |
| MimeSplitting.PushedBack | parallel-compression/Decompression/GzipSplitting/MimeTypeLengthGzipSplitter.cs:116 | pushing back the bytes read after an offset gives back the stream from that offset |
| MimeSplitting.PushedBackAll | parallel-compression/Decompression/GzipSplitting/MimeTypeLengthGzipSplitter.cs:123 | pushing back the whole read gives back the stream as it was |
| MimeSplitting.Step | parallel-compression/Decompression/GzipSplitting/MimeTypeLengthGzipSplitter.cs:90-137 | one turn of the loop does what `StepOf` describes, with `StepHeld` bytes pushed back when it stops or ends |
| MimeSplitting.StepAfterFullRead | parallel-compression/Decompression/GzipSplitting/MimeTypeLengthGzipSplitter.cs:110-137 | the part of a turn after a full read does what `AfterFullRead` describes |
| MimeSplitting.ReturnWholeRead | parallel-compression/Decompression/GzipSplitting/MimeTypeLengthGzipSplitter.cs:121-125 | pushing back the whole read restores the stream's bytes and holds exactly the read |
| MimeSplitting.ReturnNextHeader | parallel-compression/Decompression/GzipSplitting/MimeTypeLengthGzipSplitter.cs:112-118 | the member is the read without its last ten bytes, which are pushed back so that the stream continues at the next header |
| BufferSplitting.NewBufferBoundGzipSplitter | parallel-compression/Decompression/GzipSplitting/BufferBoundGzipSplitter.cs:17-24 | succeeds exactly for a buffer longer than a gzip header, keeping its size; otherwise throws `ArgumentOutOfRangeException` |
| BufferSplitting.ScanIsSpaced | parallel-compression/Decompression/GzipSplitting/BufferBoundGzipSplitter.cs:60 | the headers found in a buffer lie at least a header's length apart and within it |
| BufferSplitting.Piece | parallel-compression/Decompression/GzipSplitting/BufferBoundGzipSplitter.cs:76-78 | the bytes from a header to the next header, or to the end of the read, at least a header long |
| BufferSplitting.Pieces | parallel-compression/Decompression/GzipSplitting/BufferBoundGzipSplitter.cs:74-80 | the first `countHeaders` blocks, one per header, each the piece from its header on |
| BufferSplitting.HeaderInWindow | parallel-compression/Decompression/GzipSplitting/BufferBoundGzipSplitter.cs:45-85 | a header inside a window of the bytes is a header of the bytes at the shifted position, and the other way round |
| BufferSplitting.HeaderLeft | parallel-compression/Decompression/GzipSplitting/BufferBoundGzipSplitter.cs:82-85 | the bytes pushed back from the last header on start with a header |
| BufferSplitting.PieceIsSingleMember | parallel-compression/Decompression/GzipSplitting/BufferBoundGzipSplitter.cs:74-80 | each block starts with a header and holds no other header |
| BufferSplitting.PiecesAreMembers | parallel-compression/Decompression/GzipSplitting/BufferBoundGzipSplitter.cs:74-80 | every block of a round holds exactly one member |
| BufferSplitting.RoundOf | parallel-compression/Decompression/GzipSplitting/BufferBoundGzipSplitter.cs:34-86 | one round: when it stops, blocks and a status, or an `InvalidOperationException` that only a still-held push-back causes; blocks are single members and, with what the stream still holds, give back what it held; a round that goes on pushes back a part of its read that starts with a header; a stream that held an empty push-back ends at once |
| BufferSplitting.Ending | parallel-compression/Decompression/GzipSplitting/BufferBoundGzipSplitter.cs:39-42 | a round that yields only a status consumes nothing |
| BufferSplitting.Refuse | parallel-compression/Decompression/GzipSplitting/BufferBoundGzipSplitter.cs:45-58 | a buffer without a header at its start, or too small for a whole member, is pushed back and its status yielded; the push-back throws exactly when earlier bytes are still held |
| BufferSplitting.Cut | parallel-compression/Decompression/GzipSplitting/BufferBoundGzipSplitter.cs:60-85 | a buffer that starts with a header yields its whole members, then pushes back the rest from the last header unless the stream ended; the push-back throws only when earlier bytes are still held |
| BufferSplitting.CutPieces | parallel-compression/Decompression/GzipSplitting/BufferBoundGzipSplitter.cs:74-85 | the blocks of a round are single members that, joined with what follows them, give back the stream's bytes, and the part pushed back starts with a header |
| BufferSplitting.BufferLoopUnfolds | parallel-compression/Decompression/GzipSplitting/BufferBoundGzipSplitter.cs:34-88 | the loop is a round's output followed by the rest of the loop, or `StreamIsEnd` after the last round |
| BufferSplitting.RoundAdvances | parallel-compression/Decompression/GzipSplitting/BufferBoundGzipSplitter.cs:34-86 | a round that goes on leaves fewer bytes to read |
| BufferSplitting.BufferLoopShape | parallel-compression/Decompression/GzipSplitting/BufferBoundGzipSplitter.cs:34-88 | the loop yields blocks followed by exactly one status, or throws |
| BufferSplitting.BufferSplitShape | parallel-compression/Decompression/GzipSplitting/BufferBoundGzipSplitter.cs:26-89 | an empty stream yields nothing; otherwise blocks followed by exactly one status, or an exception |
| BufferSplitting.PiecesJoin | parallel-compression/Decompression/GzipSplitting/BufferBoundGzipSplitter.cs:74-80 | the blocks of a round, joined, are the buffer from its first header to where the last block ends |
| BufferSplitting.SpacedGrows | parallel-compression/Decompression/GzipSplitting/BufferBoundGzipSplitter.cs:60 | header positions increase |
| BufferSplitting.BlocksThenRest | parallel-compression/Decompression/GzipSplitting/BufferBoundGzipSplitter.cs:74-85 | the blocks joined with the bytes after them give back the stream's bytes |
| BufferSplitting.BufferLoopConsumes | parallel-compression/Decompression/GzipSplitting/BufferBoundGzipSplitter.cs:34-88 | the loop's blocks followed by what the stream still holds are what it held |
| BufferSplitting.BufferSplitConsumes | parallel-compression/Decompression/GzipSplitting/BufferBoundGzipSplitter.cs:26-89 | the blocks yielded, joined, followed by what the stream still holds, are exactly what it held |
| BufferSplitting.BufferLoopMembers | parallel-compression/Decompression/GzipSplitting/BufferBoundGzipSplitter.cs:34-88 | every block of the loop holds exactly one member |
| BufferSplitting.MembersAppend | parallel-compression/Decompression/GzipSplitting/BufferBoundGzipSplitter.cs:74-80 | blocks of single members stay so when joined |
| BufferSplitting.BufferSplitBlocksAreMembers | parallel-compression/Decompression/GzipSplitting/BufferBoundGzipSplitter.cs:26-89 | every block yielded starts with a gzip header and holds no other one |
| BufferSplitting.BufferLoopThrows | parallel-compression/Decompression/GzipSplitting/BufferBoundGzipSplitter.cs:34-88 | the loop throws only `InvalidOperationException`, and only when more bytes than a buffer were pushed back before it |
| BufferSplitting.BufferSplitThrows | parallel-compression/Decompression/GzipSplitting/BufferBoundGzipSplitter.cs:26-89 | the enumeration throws only `InvalidOperationException`, and only when more bytes than a buffer were pushed back before it |
| BufferSplitting.BufferSplitOverfullThrows | parallel-compression/Decompression/GzipSplitting/BufferBoundGzipSplitter.cs:26-89 | more bytes pushed back than a buffer holds always make it throw; when that buffer holds only the header at its start, it throws before yielding anything |
| BufferSplitting.StartOfBuffer | parallel-compression/Decompression/GzipSplitting/BufferBoundGzipSplitter.cs:45 | a buffer's first header is at its start exactly when the stream's bytes start with a header |
| BufferSplitting.AvoidsAppend | parallel-compression/Decompression/GzipSplitting/BufferBoundGzipSplitter.cs:48 | results free of a status stay so when joined |
| BufferSplitting.RoundAfterHeader | parallel-compression/Decompression/GzipSplitting/BufferBoundGzipSplitter.cs:45-85 | a round that starts at a header never yields `WrongFormat` |
| BufferSplitting.RoundWithoutHeader | parallel-compression/Decompression/GzipSplitting/BufferBoundGzipSplitter.cs:45-49 | a round that does not start at a header yields `WrongFormat` and pushes its read back |
| BufferSplitting.BufferLoopAfterHeader | parallel-compression/Decompression/GzipSplitting/BufferBoundGzipSplitter.cs:34-88 | once started at a header the loop never yields `WrongFormat` |
| BufferSplitting.BufferSplitWrongFormat | parallel-compression/Decompression/GzipSplitting/BufferBoundGzipSplitter.cs:26-89 | a stream that does not start with a gzip header yields only `WrongFormat`, consuming nothing; one that does never yields `WrongFormat` |
| BufferSplitting.SplitToIndependentBlocks | parallel-compression/Decompression/GzipSplitting/BufferBoundGzipSplitter.cs:26-89 | yields exactly what `BufferSplit` describes for the bytes the stream holds and its push-back state, and leaves the stream holding the run's rest |
| BufferSplitting.SplitRound | parallel-compression/Decompression/GzipSplitting/BufferBoundGzipSplitter.cs:36-85 | one round of the loop does what `RoundOf` describes, with its push-back held |
| BufferSplitting.ReadBufferShape | parallel-compression/Decompression/GzipSplitting/BufferBoundGzipSplitter.cs:45-52 | the buffer tests of the loop read as tests on the headers found in the read |
| BufferSplitting.RefuseRead | parallel-compression/Decompression/GzipSplitting/BufferBoundGzipSplitter.cs:45-58 | pushing back the read and yielding a status does what `Refuse` describes |
| BufferSplitting.CutBuffer | parallel-compression/Decompression/GzipSplitting/BufferBoundGzipSplitter.cs:60-85 | yielding the whole members and pushing back the tail does what `Cut` describes |
| BufferSplitting.ReadGzipBufferFromStream | parallel-compression/Decompression/GzipSplitting/BufferBoundGzipSplitter.cs:91-114 | reads a full buffer or what is left; the buffer is scanned unless empty or headerless; the end flag is rechecked when the read holds one header at its start |
| BufferSplitting.BuildBuffer | parallel-compression/Decompression/GzipSplitting/BufferBoundGzipSplitter.cs:96-111 | a read with no header, or none at all, is the default buffer; otherwise the scanned buffer |
| BufferSplitting.ReturnRead | parallel-compression/Decompression/GzipSplitting/BufferBoundGzipSplitter.cs:47-85 | pushing back part of the read throws `InvalidOperationException` exactly when earlier bytes are still held; otherwise the stream continues from that part |
| BufferSplitting.CopyBlocks | parallel-compression/Decompression/GzipSplitting/BufferBoundGzipSplitter.cs:74-80 | the blocks copied out of the buffer are the round's pieces |
| BufferSplitting.CopyBlock | parallel-compression/Decompression/GzipSplitting/BufferBoundGzipSplitter.cs:76-79 | one block copied out of the buffer is its piece |
| BufferSplitting.CopyBlockToStream | parallel-compression/Decompression/GzipSplitting/BufferBoundGzipSplitter.cs:116-125 | a segment over no array throws `ArgumentException`; otherwise a copy of its bytes |
| BlockSplitting.NewGzipBlockSplitter | parallel-compression/Decompression/GzipSplitting/GzipBlockSplitter.cs:14-21 | builds the size-hint splitter and then the buffer splitter, so it succeeds exactly when both accept their sizes and otherwise throws `ArgumentOutOfRangeException`; the two sizes are kept |
| BlockSplitting.WithBlocks | parallel-compression/Decompression/GzipSplitting/GzipBlockSplitter.cs:39-41 | blocks yielded before a stage come before that stage's own blocks |
| BlockSplitting.WithBlocksTwice | parallel-compression/Decompression/GzipSplitting/GzipBlockSplitter.cs:39-41 | prefixing blocks twice is prefixing their concatenation |
| BlockSplitting.StageOf | parallel-compression/Decompression/GzipSplitting/GzipBlockSplitter.cs:35-57 | every block one splitter's enumeration passes on is an independent member |
| BlockSplitting.Closing | parallel-compression/Decompression/GzipSplitting/GzipBlockSplitter.cs:72-80 | after the last stage the blocks are kept, with the streaming block possibly appended, and the split throws exactly after `WrongFormat` or a splitter's exception |
| BlockSplitting.ChainLast | parallel-compression/Decompression/GzipSplitting/GzipBlockSplitter.cs:59-62 | a chain of one splitter closes on what that splitter's enumeration ends in |
| BlockSplitting.SplitUnfolds | parallel-compression/Decompression/GzipSplitting/GzipBlockSplitter.cs:28-80 | the split runs the size-hint splitter on the stream; unless it ends in `CantReadBlock` it closes there, otherwise its blocks come before those of the buffer splitter run on the bytes it left |
| BlockSplitting.MemberBytesAppend | parallel-compression/Decompression/GzipSplitting/GzipBlockSplitter.cs:67-70 | the member bytes of two runs of blocks concatenate |
| BlockSplitting.ShapedWellFormed | parallel-compression/Decompression/GzipSplitting/GzipBlockSplitter.cs:35-57 | a splitter enumeration of the documented shape only ends at its last result and carries blocks before any exception |
| BlockSplitting.StageBytes | parallel-compression/Decompression/GzipSplitting/GzipBlockSplitter.cs:35-57 | the blocks a stage passes on hold exactly the bytes of the splitter's block results, and the stage ends in an exception exactly when the splitter threw one |
| BlockSplitting.ChainConsumes | parallel-compression/Decompression/GzipSplitting/GzipBlockSplitter.cs:28-80 | when splitters hand the stream on in order and nothing throws, the independent members followed by the bytes left are the whole stream |
| BlockSplitting.ChainWellFormed | parallel-compression/Decompression/GzipSplitting/GzipBlockSplitter.cs:30-63 | splitters that hand the stream on in order produce well-formed enumerations |
| BlockSplitting.ChainShape | parallel-compression/Decompression/GzipSplitting/GzipBlockSplitter.cs:66-80 | only the last block can be the streaming block, and it never comes with an exception |
| BlockSplitting.SplitLinked | parallel-compression/Decompression/GzipSplitting/GzipBlockSplitter.cs:30-35 | the buffer splitter starts on exactly the bytes the size-hint splitter left in the shared stream |
| BlockSplitting.SplitConsumes | parallel-compression/Decompression/GzipSplitting/GzipBlockSplitter.cs:23-81 | a split that does not throw yields members which, followed by the bytes the streaming block reads, are the whole stream |
| BlockSplitting.SplitShape | parallel-compression/Decompression/GzipSplitting/GzipBlockSplitter.cs:66-80 | every block but the last is independent, and a final streaming block means the split did not throw |
| BlockSplitting.SplitRejectsNonGzip | parallel-compression/Decompression/GzipSplitting/GzipBlockSplitter.cs:45-75 | a stream that does not open with a gzip header yields nothing and throws `InvalidOperationException` |
| BlockSplitting.SplitShortStream | parallel-compression/Decompression/GzipSplitting/GzipBlockSplitter.cs:42-80 | a stream shorter than a header yields nothing and ends without a streaming block |
| BlockSplitting.SplitOneMember | parallel-compression/Decompression/GzipSplitting/GzipBlockSplitter.cs:39-44 | a stream holding one member that announces its own length within the limit yields exactly that member and nothing else |
| BlockSplitting.WrongHintOverflowsBuffer | parallel-compression/Decompression/GzipSplitting/GzipBlockSplitter.cs:14-21 | with the constructor as written, a member whose size hint points past a non-header and beyond the buffer makes the split throw before yielding any block |
| BlockSplitting.SplitAfterCantReadBlock | parallel-compression/Decompression/GzipSplitting/GzipBlockSplitter.cs:48-63 | after the size-hint splitter gives up at once, a buffer splitter that throws at once makes the split throw with no block |
| BlockSplitting.NewGzipBlockSplitterChecked | parallel-compression/Decompression/GzipSplitting/GzipBlockSplitter.cs:14-21 | the intended constructor: accepts exactly what the constructor as written accepts when the size limit plus a header fits in the search buffer, and otherwise throws `ArgumentOutOfRangeException` |
| BlockSplitting.CheckedSplitterNeverOverflows | parallel-compression/Decompression/GzipSplitting/GzipBlockSplitter.cs:30-63 | with a splitter the intended constructor accepts, the buffer splitter never throws on what the size-hint splitter pushes back |
| BlockSplitting.SplitIgnoresPushBack | parallel-compression/Decompression/GzipSplitting/GzipBlockSplitter.cs:35-47 | when the size-hint splitter throws, the buffer splitter never runs, so the push-back state does not matter |
| BlockSplitting.SplitBlocks | parallel-compression/Decompression/GzipSplitting/GzipBlockSplitter.cs:23-81 | the blocks and exception of `SplitBlocks` over a stream are exactly those of the reference split, and the stream the streaming block reads holds the bytes it left |
| BlockSplitting.SplitOrderly | parallel-compression/Decompression/GzipSplitting/GzipBlockSplitter.cs:30-35 | both splitters' enumerations are well formed |
| BlockSplitting.SplitAssembles | parallel-compression/Decompression/GzipSplitting/GzipBlockSplitter.cs:28-80 | stage results that match the unfolded split are the split |
| BlockSplitting.SplitRest | parallel-compression/Decompression/GzipSplitting/GzipBlockSplitter.cs:48-63 | after the size-hint stage, either closes on it or hands the stream to the buffer splitter, matching the reference split |
| BlockSplitting.HandOver | parallel-compression/Decompression/GzipSplitting/GzipBlockSplitter.cs:31-63 | running the buffer splitter on the rewindable stream closes as the reference split does and leaves the bytes it reports |
| BlockSplitting.Finish | parallel-compression/Decompression/GzipSplitting/GzipBlockSplitter.cs:72-80 | the end of the split is the reference closing |
| BlockSplitting.TakeStage | parallel-compression/Decompression/GzipSplitting/GzipBlockSplitter.cs:35-57 | the loop over one splitter's results computes the reference stage |
| ExactStreams.FirstBlockLength | parallel-compression/Decompression/Streams/ExactlyPositionedAccoringToGzipBlockBoundsStream.cs:88-90 | the first block `CutFirstBlock` ends within the bytes of the buffer |
| ExactStreams.ScanHeads | parallel-compression/Decompression/Streams/ExactlyPositionedAccoringToGzipBlockBoundsStream.cs:88-90 | the first two header positions the scan reports start headers, the second at least a header's length after the first |
| ExactStreams.HeaderInPrefix | parallel-compression/Decompression/Streams/ExactlyPositionedAccoringToGzipBlockBoundsStream.cs:88-108 | a header found in a prefix of the bytes lies inside that prefix and is a header of the whole bytes |
| ExactStreams.EmptyBlockIsPart | parallel-compression/Decompression/Streams/ExactlyPositionedAccoringToGzipBlockBoundsStream.cs:91-99 | an empty first block happens only for bytes shorter than a header that are a header prefix, or for no bytes |
| ExactStreams.PieceBounds | parallel-compression/Decompression/Streams/ExactlyPositionedAccoringToGzipBlockBoundsStream.cs:88-108 | a read of `count` bytes hands out at least one and at most `count` of the buffered bytes |
| ExactStreams.PieceHoldsOneMember | parallel-compression/Decompression/Streams/ExactlyPositionedAccoringToGzipBlockBoundsStream.cs:88-108 | the handed-out piece contains no header after its first ten bytes, and none at all when it does not open with one: at most one member per read |
| ExactStreams.PieceEndsAtBoundary | parallel-compression/Decompression/Streams/ExactlyPositionedAccoringToGzipBlockBoundsStream.cs:88-108 | a piece shorter than both the bytes and `count` ends where the next member or a trailing header prefix starts |
| ExactStreams.PartOrNothing | parallel-compression/Decompression/Streams/ExactlyPositionedAccoringToGzipBlockBoundsStream.cs:91-99 | for an empty first block, hands out the possible partial header when the remainder holds only that, and keeps nothing |
| ExactStreams.FirstBlockAsWritten | parallel-compression/Decompression/Streams/ExactlyPositionedAccoringToGzipBlockBoundsStream.cs:88-108 | as written: a failing cut fails; a block within `requestedCount` is handed out with the remainder of the cut; a longer block, when the slices succeed, is handed out from twice the buffer's offset and the buffer kept has no header list |
| ExactStreams.FirstBlock | parallel-compression/Decompression/Streams/ExactlyPositionedAccoringToGzipBlockBoundsStream.cs:88-108 | as intended: a failing cut fails; a non-empty first block gives the first `Min(block, requestedCount)` bytes from the buffer's start, and the buffer kept covers exactly the bytes after them on the same array |
| ExactStreams.FirstBlockOfScan | parallel-compression/Decompression/Streams/ExactlyPositionedAccoringToGzipBlockBoundsStream.cs:88-108 | on a buffer built over bytes to the end of an array, the intended cut succeeds and hands out the piece's bytes, keeping a buffer over the rest |
| ExactStreams.KeptPiece | parallel-compression/Decompression/Streams/ExactlyPositionedAccoringToGzipBlockBoundsStream.cs:88-108 | the intended cut on a retained buffer hands out the first `PieceLength` bytes and keeps a retained buffer over exactly the bytes after them |
| ExactStreams.TakePiece | parallel-compression/Decompression/Streams/ExactlyPositionedAccoringToGzipBlockBoundsStream.cs:88-108 | the cut as a step: hands out the first `PieceLength` bytes on the same array and keeps a retained buffer over the rest |
| ExactStreams.PieceAtSecond | parallel-compression/Decompression/Streams/ExactlyPositionedAccoringToGzipBlockBoundsStream.cs:88-108 | a buffer opening with a header and holding another hands out up to the second header, cut to `count` |
| ExactStreams.PieceAtFirst | parallel-compression/Decompression/Streams/ExactlyPositionedAccoringToGzipBlockBoundsStream.cs:88-108 | a buffer not opening with a header hands out up to the first header, cut to `count` |
| ExactStreams.PieceToEnd | parallel-compression/Decompression/Streams/ExactlyPositionedAccoringToGzipBlockBoundsStream.cs:88-108 | a buffer with at most a leading header and no trailing header prefix hands out its bytes, cut to `count` |
| ExactStreams.PieceToPart | parallel-compression/Decompression/Streams/ExactlyPositionedAccoringToGzipBlockBoundsStream.cs:88-108 | a buffer with at most a leading header and a trailing header prefix hands out the bytes before the prefix, cut to `count` |
| ExactStreams.PartStart | parallel-compression/Decompression/Streams/ExactlyPositionedAccoringToGzipBlockBoundsStream.cs:88-99 | the trailing header prefix starts where `FirstBlockLength` ends the first block |
| ExactStreams.PieceBeforePart | parallel-compression/Decompression/Streams/ExactlyPositionedAccoringToGzipBlockBoundsStream.cs:88-108 | the bytes before a trailing header prefix are handed out, cut to `count` |
| ExactStreams.CutAtPiece | parallel-compression/Decompression/Streams/ExactlyPositionedAccoringToGzipBlockBoundsStream.cs:88-108 | a cut at `k` hands out `k` bytes, or `count` when the block is longer |
| ExactStreams.RescanHolds | parallel-compression/Decompression/Streams/ExactlyPositionedAccoringToGzipBlockBoundsStream.cs:100-105 | the buffer rebuilt over the bytes after a slice is a retained buffer over exactly those bytes |
| ExactStreams.CutPiece | parallel-compression/Decompression/Streams/ExactlyPositionedAccoringToGzipBlockBoundsStream.cs:100-108 | a cut block of `k` bytes is handed out whole within `count`, or its first `count` bytes otherwise |
| ExactStreams.CutPieceOver | parallel-compression/Decompression/Streams/ExactlyPositionedAccoringToGzipBlockBoundsStream.cs:100-105 | a block longer than `count` gives its first `count` bytes and keeps every later byte |
| ExactStreams.CutPieceWithin | parallel-compression/Decompression/Streams/ExactlyPositionedAccoringToGzipBlockBoundsStream.cs:106-108 | a block within `count` is handed out as cut, with the remainder kept |
| ExactStreams.CutPartPiece | parallel-compression/Decompression/Streams/ExactlyPositionedAccoringToGzipBlockBoundsStream.cs:91-99 | a buffer that is only a header prefix is handed out whole |
| ExactStreams.OversizeInPlace | parallel-compression/Decompression/Streams/ExactlyPositionedAccoringToGzipBlockBoundsStream.cs:100-105 | the intended slice of an oversize block starts where the block starts |
| ExactStreams.OversizeAsWritten | parallel-compression/Decompression/Streams/ExactlyPositionedAccoringToGzipBlockBoundsStream.cs:100-105 | as written, the slice of an oversize block starts at twice the buffer's offset, and the remainder `ReturnToStart` builds cannot be cut again |
| ExactStreams.OversizeReadThrows | parallel-compression/Decompression/Streams/ExactlyPositionedAccoringToGzipBlockBoundsStream.cs:100-105 | a 40-byte member at offset 60 of a 100-byte array read with `count` 30 throws `ArgumentException` as written, while the intended cut hands out its first 30 bytes |
| ExactStreams.WholeChunk | parallel-compression/Decompression/Streams/ExactlyPositionedAccoringToGzipBlockBoundsStream.cs:72-86 | a read with no headers or parts, or with one member from its start, hands out the whole chunk, so keeping nothing loses nothing |
| ExactStreams.ScanFitsOwned | parallel-compression/Decompression/Streams/ExactlyPositionedAccoringToGzipBlockBoundsStream.cs:80-82 | the headers a scan records fit the owned copy of the bytes it was built over |
| ExactStreams.HandOut | parallel-compression/Decompression/Streams/ExactlyPositionedAccoringToGzipBlockBoundsStream.cs:54-64 | copies the first `PieceLength` bytes of the kept buffer into the caller's buffer at `offset` and keeps a retained buffer over the rest |
| ExactStreams.PieceOfChunk | parallel-compression/Decompression/Streams/ExactlyPositionedAccoringToGzipBlockBoundsStream.cs:54-64 | after a fresh read into the caller's buffer, hands out `PieceLength` of the chunk and keeps the rest, with the caller's buffer holding the chunk |
| ExactStreams.Retain | parallel-compression/Decompression/Streams/ExactlyPositionedAccoringToGzipBlockBoundsStream.cs:76-84 | keeps nothing when the chunk is handed out whole, otherwise an owned fresh copy of the chunk |
| ExactStreams.Refusal | parallel-compression/Decompression/Streams/ExactlyPositionedAccoringToGzipBlockBoundsStream.cs:28-44 | a read is accepted exactly for a buffer, a non-negative offset and a `count` of at least a header's length within the buffer; otherwise `ArgumentNullException`, `ArgumentOutOfRangeException` or `ArgumentException` in the source's order |
| ExactStreams.ExactStream.constructor | parallel-compression/Decompression/Streams/ExactlyPositionedAccoringToGzipBlockBoundsStream.cs:17-21 | starts at the wrapped stream's position with nothing kept, not ended and not at the end of the stream |
| ExactStreams.ExactStream.IsEndOfStream | parallel-compression/Decompression/Streams/ExactlyPositionedAccoringToGzipBlockBoundsStream.cs:23 | only after the wrapped stream ended; on a valid stream, exactly when it ended and no kept byte is left |
| ExactStreams.ExactStream.CheckStreamPosition | parallel-compression/Decompression/Streams/ExactlyPositionedAccoringToGzipBlockBoundsStream.cs:141-150 | before the first read, a wrapped stream moved by someone else throws `InvalidOperationException`; otherwise the check is done once and nothing else changes |
| ExactStreams.ExactStream.Read | parallel-compression/Decompression/Streams/ExactlyPositionedAccoringToGzipBlockBoundsStream.cs:25-70 | refuses as the checks demand, changing nothing; otherwise hands out `PieceLength` of the upcoming bytes at `offset`, keeps the rest, advances the position by the count, loses no byte of the stream, and returns 0 only at the end of the stream |
| ExactStreams.ExactStream.Deliver | parallel-compression/Decompression/Streams/ExactlyPositionedAccoringToGzipBlockBoundsStream.cs:46-70 | reads a fresh chunk when nothing is kept and the stream has not ended, hands out one piece and records the end of the stream |
| ExactStreams.ExactStream.ReadKept | parallel-compression/Decompression/Streams/ExactlyPositionedAccoringToGzipBlockBoundsStream.cs:54-70 | a read served from the kept bytes hands out one piece of them and leaves the wrapped stream alone |
| ExactStreams.ExactStream.ReadFresh | parallel-compression/Decompression/Streams/ExactlyPositionedAccoringToGzipBlockBoundsStream.cs:49-70 | a read from the wrapped stream takes up to `count` bytes, hands out one piece and keeps the rest; the stream ends when it returned fewer than `count` |
| ExactStreams.ExactStream.Keep | parallel-compression/Decompression/Streams/ExactlyPositionedAccoringToGzipBlockBoundsStream.cs:66-68 | installs the kept buffer, advances the position by the bytes handed out and records the end |
| ExactStreams.ExactStream.ReadChunk | parallel-compression/Decompression/Streams/ExactlyPositionedAccoringToGzipBlockBoundsStream.cs:72-86 | reads until full into the caller's buffer and keeps an owned copy unless the chunk is handed out whole |
| ExactStreams.ExactStream.Seek | parallel-compression/Decompression/Streams/ExactlyPositionedAccoringToGzipBlockBoundsStream.cs:111-114 | always throws `NotSupportedException` |
| ExactStreams.ExactStream.SetLength | parallel-compression/Decompression/Streams/ExactlyPositionedAccoringToGzipBlockBoundsStream.cs:116-119 | always throws `NotSupportedException` |
| ExactStreams.ExactStream.Write | parallel-compression/Decompression/Streams/ExactlyPositionedAccoringToGzipBlockBoundsStream.cs:121-124 | always throws `NotSupportedException` |
| ExactStreams.ExactStream.SetPosition | parallel-compression/Decompression/Streams/ExactlyPositionedAccoringToGzipBlockBoundsStream.cs:131-135 | setting the position always throws `NotSupportedException` |
| ExactStreams.ExactStream.Length | parallel-compression/Decompression/Streams/ExactlyPositionedAccoringToGzipBlockBoundsStream.cs:129 | the length of the wrapped stream |

## Left out

- Blocking, `Monitor.Wait`/`Pulse`, semaphore waits and their timeouts are not modelled. The model is sequential. A call that would block is ruled out by a precondition, or, where the source waits exactly once, what other threads did meanwhile is a parameter.
- BlockingQueues.BlockingQueue.Enqueue: requires room in a live queue, because the source blocks until a dequeue makes room.
- BlockingQueues.BlockingQueue.Dequeue: requires an element in a live queue, because the source blocks until one is enqueued or the queue is turned off. TryDequeue and the DequeueWait/DequeueRelease steps carry the same precondition.
- ResultsQueues.BoundedResultsQueue.AcquireFreeResultOrWait: requires a free slot, because the source blocks on its full slot queue.
- ResultsQueues.BoundedResultsQueue.SetResult: the `SemaphoreFullException` that more than `int.MaxValue` releases not yet consumed would raise is not modelled; the disposed-semaphore `ObjectDisposedException` is.
- ResultsQueues.BoundedResultsQueue.DequeResultsOnCompletion: yields the results that are already set in acquisition order, then stops at the first slot without one. The source instead waits on that slot with a timeout and goes on, and that repetition is not modelled.
- Limiters.Limiter.WaitFree: sees only one wake-up, given as parameters, as the source's single `Monitor.Wait` does. The timing of the wake-up is not modelled.
- Limiters.Limiter.Create: takes the maximum explicitly. Callers that rely on the constructor's default pass `int.MaxValue` themselves (`IntMaxValue`). The optional `ILog` argument is dropped.
- Iterators run to completion. Each C# `IEnumerable` becomes a method that returns every item together with the exception that ended the enumeration. A consumer that stops early, and the point at which an exception surfaces (at a `MoveNext` rather than up front), are not modelled.
- Text.EqualsIgnoreCase: folds only the ASCII letters. .NET's ordinal case-insensitive comparison also folds other letters; the option keys the parser compares are ASCII.
- CommandLine.OptionKeyShape: compares with an ordinal `StartsWith` where `ValueLooksLikeOptionKey` uses the culture-sensitive overload, because culture data is outside the model. `CommandArgumentValues` (`int.TryParse`) is not part of this model.
- `BitConverter` is taken to be little-endian, as it is on every platform .NET supports.
- Logging is not modelled: `ILog` and every `Log*` call. Neither is the `ArgumentNullException` that the two splitter constructors throw for a null log.
- The catch blocks of `OutputFile` (IO/OutputFile.cs:68-83, 122-137, 159-174), which turn file-system exceptions into `ErrorCodes`, are not modelled. The file stream is an in-memory `FileStream` class that does not fail. `ToErrorCode` and the error codes themselves are modelled.
- `OutputFile.CompressionRatio` (IO/OutputFile.cs:177-180) is floating point and is not modelled.
- OutputFiles.OutputFile.GetLastOffset: the model's file changes only through the output file's own methods. So the `FileReducedWhileReadingOffsetSection` outcome, which needs another writer to shrink the file during the read, cannot arise in it.
- Text.AsciiBytes: maps every UTF-16 code unit outside ASCII to `?`. How .NET's replacement fallback treats a surrogate pair is not modelled.
- InputFiles.InputFile.constructor: builds the file over a stream already accepted. The null, seek and read checks of IO/InputFile.cs:15-20 are in `InputFiles.InputFile.Open`. The exceptions of the underlying `FileStream` become an abstract seek or read fault. Missing and unreadable files are mapped in `FileSystem.OpenFileToRead`, which is not part of this model.
- ByteArrays.Slices: requires a positive size for a non-empty array, because a size of 0 makes the source's loop yield empty segments forever. Its only callers pass a positive size.
- The DEFLATE codec is outside the model: `GZipStream`, `IndependentGzipBlock.Decompress` and `StreamingGzipBlock`. A member is the bytes between two headers. No property claims that a header signature found in compressed payload is a real member boundary, because by design it cannot be told apart from one.
- The thread pool, `BlockingTasksQueue`, `StreamCompressor`/`StreamDecompressor`, the CLI commands, the console output and `Result.cs` are not part of this model.
- ExactStreams.ExactStream.Read: for a kept member longer than `count`, runs the intended cut `FirstBlock`: it hands out the first `count` bytes and keeps the rest. The source's slice at lines 100-105 instead throws `ArgumentException`, or hands out bytes from the wrong place followed by a buffer that cannot be cut again. `FirstBlockAsWritten` and `OversizeReadThrows` state what the source does (see Findings).
- InputFiles.ReadBlocks and the block-splitting chain run the code as written. They use the `Block` constructor that refuses offset 0 and the splitter constructor without the size check. `Limiters.Limiter.TryRelease` and the results queue likewise run the code as written. Each corrected definition is proved beside its as-written version.

## Findings

Both halves of each row are in the Dafny. The as-written member exhibits the input. The corrected member has the intended property proved about it.

| source | as written | input that shows it | evidently intended | confidence | as-written member | corrected member |
|---|---|---|---|---|---|---|
| parallel-compression/GzipFormat/GzipBuffer.cs:108-127 | `ReturnToStart` gathers the headers of the returned block and of the buffer (lines 123-124) but builds its result with a null header list (line 126) | return the first block of any cut to the rest: a second `CutFirstBlock` on the result reads the null list and throws `NullReferenceException` | the joined buffer lists the returned block's headers followed by its own | high, not executed | `GzipBuffers.ReturnToStartAsWritten`, `GzipBuffers.ReturnToStartLosesHeaders` | `GzipBuffers.ReturnToStart`, `GzipBuffers.ReturnToStartCanBeCut`, `GzipBuffers.ReturnToStartUndoesCut` |
| parallel-compression/Decompression/Streams/ExactlyPositionedAccoringToGzipBlockBoundsStream.cs:100-105 | the slice of a block longer than `count` passes the block's absolute array offset where `Slice` expects one relative to the block, twice, and hands the tail to `ReturnToStart` | a kept 40-byte member at offset 60 of a 100-byte array, read with `count` 30: `Slice` throws `ArgumentException` | hand out the block's first `count` bytes and keep every later byte for the next read | high, not executed | `ExactStreams.FirstBlockAsWritten`, `ExactStreams.OversizeReadThrows`, `ExactStreams.OversizeAsWritten` | `ExactStreams.FirstBlock`, `ExactStreams.CutPieceOver`, `ExactStreams.ExactStream.Read` |
| parallel-compression/Threading/Limiter.cs:50-60 | `Math.Min(maxValue, oldFree + count)` and `newfree - oldFree` wrap around in unchecked 32-bit arithmetic | `new Limiter(5)` (maximum `int.MaxValue`), then `TryRelease(int.MaxValue)`: accepted, reporting 5, leaving a negative counter | refuse a release that would take the counter past the maximum | medium, not executed | `Limiters.ReleaseStepAsWritten`, `Limiters.ReleaseStepOverflows`, `Limiters.OverflowingRelease` | `Limiters.ReleaseStep`, `Limiters.ReleaseStepAgreesWithoutOverflow` |
| parallel-compression/Results/BoundedResultsQueue.cs:82-88 | `CheckDisposed` tests `isQueueingTurnOff`, which `TurnOffAcquiringSlots` sets, not `isDisposed` | acquire a slot, set its result, turn acquiring off, then start `DequeResultsOnCompletion`: it throws "Queue is disposed" on a live queue that still owes that result | throw only on a disposed queue, so a consumer that starts after turn-off still drains the queue | medium, not executed | `ResultsQueues.CheckDisposedAsWritten`, `ResultsQueues.LateConsumerRefused` | `ResultsQueues.CheckDisposed`, `ResultsQueues.LateConsumerServed` |
| parallel-compression/Models/Block.cs:12-13 | the constructor refuses `offset <= 0`, although its message and the default block (offset 0) speak only of negative offsets | `ReadBlocks(bufferSize, 0)` over an empty file: the final empty block is built at offset 0 and throws `ArgumentException` | refuse only negative offsets | low, not executed (the compressor's callers refuse an empty input first) | `Blocks.NewBlockAsWritten`, `InputFiles.EmptyFileFromStartThrows` | `Blocks.NewBlock`, `Blocks.NewBlockDiffersAtZero` |
| parallel-compression/Decompression/GzipSplitting/GzipBlockSplitter.cs:14-21 | the size-hint limit (128 MiB, Configuration/CompressorSettings.cs:39, passed at Decompression/StreamDecompressor.cs:28-30) is accepted with no regard to the search buffer size. The size-hint splitter can then push back more bytes than the buffer splitter's first read takes, and the next push-back throws (Decompression/Streams/RewindableReadonlyStream.cs:92-96) | a first member whose MTIME announces `L` bytes within the limit, with no header at byte `L`, `L + 10` above the buffer size, and no other header in the first buffer: the split throws `InvalidOperationException` before yielding any block | the buffer splitter's first read takes in whatever the size-hint splitter pushed back, for example by requiring limit + 10 <= buffer size | medium, not executed | `BlockSplitting.WrongHintOverflowsBuffer` | `BlockSplitting.NewGzipBlockSplitterChecked`, `BlockSplitting.CheckedSplitterNeverOverflows` |
