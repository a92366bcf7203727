/**
 * GzipFormat/GzipBuffer.cs: an immutable view of a byte segment together with the
 * headers a scan found in it and the offset of a header prefix the segment may end
 * with. Header positions and the partial-header offset are indices into the shared
 * array, not into the segment.
 */
module GzipBuffers {
  import opened Binary
  import opened Wrappers
  import opened Segments
  import opened GzipHeaders

  /**
   * The struct's state: `headers` is `None` when the list reference is null (a default
   * buffer, or one `ReturnToStart` built), `part` is `possiblePartOfHeaderAtTheEnd`.
   */
  datatype GzipBuffer = GzipBuffer(bytes: Segment, headers: Option<seq<GzipHeader>>, part: Option<int>)

  /** `default(GzipBuffer)`. */
  const DefaultBuffer: GzipBuffer := GzipBuffer(Default, None, None)

  /**
   * The partial-header offset the constructor records for the bytes `data` of a segment
   * starting at `offset`: only when the scan found no header or its last header ends
   * before the last byte (`EndPosition < LastOffset`, here in segment-relative terms),
   * and only when the bytes end with a header prefix.
   */
  function ScannedPart(offset: int, data: seq<byte>): Option<int> {
    var ps := AllHeaders(data);
    var p := PartialHeaderLength(data);
    if (ps == [] || ps[|ps| - 1] + HeaderLength < |data|) && p > 0 then Some(offset + |data| - p) else None
  }

  /** The buffer the public constructor builds over `s` when `data` are its bytes. */
  function ScanOf(s: Segment, data: seq<byte>): GzipBuffer {
    GzipBuffer(s, Some(HeadersAt(s, AllHeaders(data))), ScannedPart(s.offset, data))
  }

  /** The buffer the public constructor builds over `s`. */
  function Scan(s: Segment): GzipBuffer
    requires Valid(s)
    reads ObjectsOf(s.arr)
  {
    ScanOf(s, Bytes(s))
  }

  /**
   * The public constructor: a null array throws; otherwise the headers are those
   * `FindAllHeaders` yields and the partial offset is `GetOffsetOfMatchedPartFromEnd`'s
   * answer when that is not -1 and no header ends at the last byte.
   */
  method NewGzipBuffer(s: Segment) returns (r: Result<GzipBuffer, Exception>)
    requires Valid(s)
    ensures s.arr.Null? ==> r == Failure(ArgumentNullException)
    ensures !s.arr.Null? ==> r == Success(Scan(s))
  {
    if s.arr.Null? {
      return Failure(ArgumentNullException);
    }
    var allHeaders := FindAllHeaders(s);
    ghost var data := Bytes(s);
    ghost var ps := AllHeaders(data);
    var noHeaderAtEnd := true;
    if |allHeaders| > 0 {
      var last := allHeaders[|allHeaders| - 1];
      assert last == HeaderAt(s, ps[|ps| - 1]) && ps[|ps| - 1] + HeaderLength <= |data| by {
        AllHeadersAreHeaders(data, 0);
      }
      noHeaderAtEnd := EndPosition(last) < LastOffset(s);
    }
    assert noHeaderAtEnd <==> ps == [] || ps[|ps| - 1] + HeaderLength < |data|;
    var part: Option<int> := None;
    if noHeaderAtEnd {
      var partiallyMatchedOffset := GetOffsetOfMatchedPartFromEnd(s);
      if partiallyMatchedOffset >= 0 {
        part := Some(partiallyMatchedOffset);
      }
    }
    assert part == ScannedPart(s.offset, data);
    return Success(GzipBuffer(s, Some(allHeaders), part));
  }

  /** `IsEmpty`: no bytes, as the default buffer. */
  predicate IsEmpty(b: GzipBuffer)
    ensures b == DefaultBuffer ==> IsEmpty(b)
    ensures IsEmpty(b) ==> b.bytes.count == 0
  {
    b.bytes.count == 0
  }

  /** `ContainsOnlyOneCompressedBlockFromStart`: one header, at the start, and no partial header. */
  predicate ContainsOnlyOneCompressedBlockFromStart(b: GzipBuffer)
    ensures ContainsOnlyOneCompressedBlockFromStart(b) ==> IsStartsWithCompressedBlock(b) && !IsContainAtLestOneWholeBlock(b)
    ensures ContainsOnlyOneCompressedBlockFromStart(b) ==> !NoHeaders(b) && !ContainsOnlyPart(b)
  {
    b.headers.Some? && |b.headers.value| == 1 && b.part.None? && b.headers.value[0].bytes.offset == b.bytes.offset
  }

  /** `IsStartsWithCompressedBlock`: the first header is at the start. */
  predicate IsStartsWithCompressedBlock(b: GzipBuffer)
    ensures IsStartsWithCompressedBlock(b) ==> |Headers(b)| > 0 && Headers(b)[0].bytes.offset == b.bytes.offset
  {
    b.headers.Some? && |b.headers.value| > 0 && b.headers.value[0].bytes.offset == b.bytes.offset
  }

  /** `IsContainAtLestOneWholeBlock`: at least two headers, so one whole member lies between them. */
  predicate IsContainAtLestOneWholeBlock(b: GzipBuffer)
    ensures IsContainAtLestOneWholeBlock(b) <==> |Headers(b)| > 1
  {
    b.headers.Some? && |b.headers.value| > 1
  }

  /** `NoHeaders`. */
  predicate NoHeaders(b: GzipBuffer)
    ensures NoHeaders(b) <==> Headers(b) == []
  {
    b.headers.None? || |b.headers.value| == 0
  }

  /** `NoHeadersOrParts`. */
  predicate NoHeadersOrParts(b: GzipBuffer)
    ensures NoHeadersOrParts(b) ==> Headers(b) == [] && !ContainsOnlyPart(b)
  {
    NoHeaders(b) && b.part.None?
  }

  /** `ContainsOnlyPart`: the partial header starts where the buffer starts. */
  predicate ContainsOnlyPart(b: GzipBuffer)
    ensures ContainsOnlyPart(b) ==> b.part.Some?
  {
    b.part == Some(b.bytes.offset)
  }

  /** `Headers`: the empty list for a null one. */
  function Headers(b: GzipBuffer): seq<GzipHeader> {
    if b.headers.None? then [] else b.headers.value
  }

  /** A header starts the data exactly when the scan's first header is at index 0. */
  lemma ScanStartsWithHeader(data: seq<byte>)
    ensures IsHeaderAt(data, 0) <==> AllHeaders(data) != [] && AllHeaders(data)[0] == 0
  {
    AllHeadersAreHeaders(data, 0);
  }

  /** The scan finds nothing exactly when no header starts anywhere in the data. */
  lemma ScanFindsNothing(data: seq<byte>)
    ensures AllHeaders(data) == [] <==> forall j :: !IsHeaderAt(data, j)
  {
    var ps := AllHeaders(data);
    AllHeadersAreHeaders(data, 0);
    AllHeadersSkipNothing(data, 0);
    if ps != [] {
      assert IsHeaderAt(data, ps[0]);
    }
  }

  /** A scanned buffer starts with a compressed block exactly when its bytes start with a header. */
  lemma StartsWithBlockOfScan(s: Segment)
    requires Valid(s) && !s.arr.Null?
    ensures IsStartsWithCompressedBlock(Scan(s)) <==> IsHeaderAt(Bytes(s), 0)
  {
    ScanStartsWithHeader(Bytes(s));
  }

  /** A scanned buffer has no headers exactly when none starts in its bytes; no parts either when it does not end with a header prefix. */
  lemma NoHeadersOfScan(s: Segment)
    requires Valid(s) && !s.arr.Null?
    ensures NoHeaders(Scan(s)) <==> forall j :: !IsHeaderAt(Bytes(s), j)
    ensures NoHeadersOrParts(Scan(s)) <==> (forall j :: !IsHeaderAt(Bytes(s), j)) && PartialHeaderLength(Bytes(s)) == 0
  {
    ScanFindsNothing(Bytes(s));
  }

  /** A scanned buffer holds a whole block exactly when two non-overlapping headers start in its bytes. */
  lemma WholeBlockOfScan(s: Segment)
    requires Valid(s) && !s.arr.Null?
    ensures IsContainAtLestOneWholeBlock(Scan(s)) <==>
      exists i, j :: 0 <= i && i + HeaderLength <= j && IsHeaderAt(Bytes(s), i) && IsHeaderAt(Bytes(s), j)
  {
    var data := Bytes(s);
    var ps := AllHeaders(data);
    AllHeadersAreHeaders(data, 0);
    if |ps| > 1 {
      assert IsHeaderAt(data, ps[0]) && IsHeaderAt(data, ps[1]);
    }
    if i, j :| 0 <= i && i + HeaderLength <= j && IsHeaderAt(data, i) && IsHeaderAt(data, j) {
      AllHeadersSkipNothing(data, 0);
      ScanStep(data, 0);
      var p := FirstHeaderFrom(data, 0).value;
      AllHeadersSkipNothing(data, p + HeaderLength);
    }
  }

  /**
   * A scanned buffer holds only one block, from its start, exactly when its bytes start
   * with a header, no other header starts after it, and either the header is all there
   * is or the bytes do not end with a header prefix.
   */
  lemma OnlyOneBlockOfScan(s: Segment)
    requires Valid(s) && !s.arr.Null?
    ensures ContainsOnlyOneCompressedBlockFromStart(Scan(s)) <==>
      IsHeaderAt(Bytes(s), 0) && (forall j :: HeaderLength <= j ==> !IsHeaderAt(Bytes(s), j))
      && (s.count == HeaderLength || PartialHeaderLength(Bytes(s)) == 0)
  {
    var data := Bytes(s);
    var ps := AllHeaders(data);
    ScanStartsWithHeader(data);
    if IsHeaderAt(data, 0) {
      assert ps == [0] + AllHeadersFrom(data, HeaderLength);
      AllHeadersAreHeaders(data, HeaderLength);
      AllHeadersSkipNothing(data, HeaderLength);
    }
  }

  /**
   * The partial offset of a scanned buffer: recorded exactly when the bytes end with a
   * proper header prefix and the scan's last header does not end at the last byte; it is
   * where the longest such prefix starts.
   */
  lemma PartOfScan(offset: int, data: seq<byte>)
    ensures ScannedPart(offset, data).Some? <==>
      PartialHeaderLength(data) > 0 && |data| - HeaderLength !in AllHeaders(data)
    ensures ScannedPart(offset, data).Some? ==> var q := offset + |data| - ScannedPart(offset, data).value;
      0 < q < HeaderLength && EndsWithHeaderPart(data, q)
      && forall q' :: q < q' < HeaderLength ==> !EndsWithHeaderPart(data, q')
  {
    var ps := AllHeaders(data);
    AllHeadersAreHeaders(data, 0);
    if ps != [] {
      assert IsHeaderAt(data, ps[|ps| - 1]);
      forall k | 0 <= k < |ps| - 1 ensures ps[k] + HeaderLength < |data| {
        assert IsHeaderAt(data, ps[k + 1]);
      }
    }
  }

  /** A scanned buffer holds only a partial header exactly when its bytes are a non-empty proper header prefix. */
  lemma OnlyPartOfScan(s: Segment)
    requires Valid(s) && !s.arr.Null?
    ensures ContainsOnlyPart(Scan(s)) <==> 0 < s.count < HeaderLength && IsHeaderPrefix(Bytes(s))
  {
    var data := Bytes(s);
    assert data[|data| - s.count..] == data;
    if 0 < s.count < HeaderLength && IsHeaderPrefix(data) {
      ScanAtEnd(data, 0);
      assert PartialHeaderLength(data) == PartialHeaderFrom(data, s.count);
      assert EndsWithHeaderPart(data, s.count);
      assert ScannedPart(s.offset, data) == Some(s.offset);
    }
    if ContainsOnlyPart(Scan(s)) {
      PartOfScan(s.offset, data);
    }
  }

  /**
   * The static `CutFirstBlock`: the headers left after the first block, where the block
   * starts and how many bytes it has. A null header list throws (reading its `Count`).
   * The block runs to the second header when the first header is at the start and there
   * is a second, to the first header when that is not at the start, and otherwise to the
   * partial header or the end (`SetReturnWholeBytesBeforePart`).
   */
  function CutFirst(first: int, last: int, headers: Option<seq<GzipHeader>>, part: Option<int>)
    : (r: Result<(seq<GzipHeader>, int, int), Exception>)
    ensures headers.None? <==> r == Failure(NullReferenceException)
    ensures r.Success? ==> r.value.1 == first
    ensures r.Success? ==> var hs := headers.value;
      var (leftHeaders, _, count) := r.value;
      (|hs| > 0 && hs[0].bytes.offset != first ==> leftHeaders == hs && first + count == hs[0].bytes.offset)
      && (|hs| > 1 && hs[0].bytes.offset == first ==> leftHeaders == hs[1..] && first + count == hs[1].bytes.offset)
      && (|hs| == 0 || (|hs| == 1 && hs[0].bytes.offset == first) ==>
            leftHeaders == [] && first + count == (if part.Some? then part.value else last + 1))
  {
    if headers.None? then Failure(NullReferenceException)
    else
      var currentHeaders := headers.value;
      var wholeBytesBeforePart := if part.Some? then part.value else last + 1;
      if |currentHeaders| > 0 then
        var firstHeaderOffset := currentHeaders[0].bytes.offset;
        if firstHeaderOffset == first then
          if |currentHeaders| > 1 then Success((currentHeaders[1..], first, currentHeaders[1].bytes.offset - first))
          else Success(([], first, wholeBytesBeforePart - first))
        else Success((currentHeaders, first, firstHeaderOffset - first))
      else Success(([], first, wholeBytesBeforePart - first))
  }

  /**
   * The public `CutFirstBlock`: the first block as a segment over the same array, and
   * the buffer of the bytes after it, which keeps the partial offset. A buffer over a
   * null array gives two defaults; the remainder is the shared empty segment when the
   * block took every byte.
   */
  function CutFirstBlock(b: GzipBuffer): (r: Result<(Segment, GzipBuffer), Exception>)
    requires Valid(b.bytes)
    ensures b.bytes.arr.Null? ==> r == Success((Default, DefaultBuffer))
    ensures !b.bytes.arr.Null? && b.headers.None? ==> r == Failure(NullReferenceException)
    ensures r.Success? && !b.bytes.arr.Null? ==>
      var (block, left) := r.value;
      Valid(block) && Valid(left.bytes) && !left.bytes.arr.Null?
      && block.arr == b.bytes.arr && block.offset == b.bytes.offset
      && (left.bytes.count > 0 ==> left.bytes.arr == b.bytes.arr)
      && 0 <= block.count <= b.bytes.count && left.part == b.part
      && left.bytes == if block.count == b.bytes.count then EmptySegment else Segment(b.bytes.arr, b.bytes.offset + block.count, b.bytes.count - block.count)
  {
    var bytesArray := b.bytes.arr;
    if bytesArray.Null? then Success((Default, DefaultBuffer))
    else
      // the segment's last offset
      var cut := CutFirst(b.bytes.offset, b.bytes.offset + b.bytes.count - 1, b.headers, b.part);
      if cut.Failure? then Failure(cut.error)
      else
        var (leftHeaders, blockStartOffset, blockCount) := cut.value;
        var blockSegment := NewSegment(bytesArray, blockStartOffset, blockCount);
        if blockSegment.Failure? then Failure(blockSegment.error)
        else
          var leftBytes := BytesAfterBlock(b.bytes, blockCount);
          if leftBytes.Failure? then Failure(leftBytes.error)
          else Success((blockSegment.value, GzipBuffer(leftBytes.value, Some(leftHeaders), b.part)))
  }

  /**
   * The remainder's bytes in `CutFirstBlock`: the shared empty segment when the block
   * has every byte, otherwise the segment shifted past the block.
   */
  function BytesAfterBlock(s: Segment, blockCount: int): (r: Result<Segment, Exception>)
    requires Valid(s) && !s.arr.Null? && 0 <= blockCount
    ensures r.Success? <==> blockCount <= s.count
    ensures r.Success? ==>
      r.value == if blockCount == s.count then EmptySegment else Segment(s.arr, s.offset + blockCount, s.count - blockCount)
    ensures r.Success? ==> Valid(r.value) && !r.value.arr.Null? && (r.value.count > 0 ==> r.value.arr == s.arr)
  {
    if blockCount == s.count then Success(EmptySegment)
    // `Bytes.ShiftOffsetRight(blockCount)`, written out
    else NewSegment(OrEmpty(s.arr), s.offset + blockCount, s.count - blockCount)
  }

  /** Short of the whole segment, the remainder is `ShiftOffsetRight`'s answer. */
  lemma BytesAfterBlockShifts(s: Segment, blockCount: int)
    requires Valid(s) && !s.arr.Null? && 0 <= blockCount && blockCount != s.count
    ensures BytesAfterBlock(s, blockCount) == ShiftOffsetRight(s, blockCount)
  {
  }

  /** The block and the remainder `CutFirstBlock` returns hold the buffer's bytes, in order. */
  lemma CutFirstBlockReassembles(b: GzipBuffer)
    requires Valid(b.bytes) && !b.bytes.arr.Null? && CutFirstBlock(b).Success?
    ensures Bytes(CutFirstBlock(b).value.0) + Bytes(CutFirstBlock(b).value.1.bytes) == Bytes(b.bytes)
  {
    BytesSplit(b.bytes, CutFirstBlock(b).value.0.count);
  }

  /**
   * First case of the cut, over a buffer scanned from `data` (in the program, `data` is
   * `Bytes(s)`): a header starts the bytes and there is a second one; the block runs up to
   * the second header, and the remainder is exactly what the constructor builds over the
   * bytes from there, so it keeps the scan's headers without the first.
   */
  lemma CutAtSecondHeader(s: Segment, data: seq<byte>)
    requires Valid(s) && !s.arr.Null? && |data| == s.count
    requires IsHeaderAt(data, 0) && |AllHeaders(data)| >= 2
    ensures var k := AllHeaders(data)[1];
      AllHeaders(data)[0] == 0 && k + HeaderLength <= |data|
      && CutFirstBlock(ScanOf(s, data))
         == Success((Segment(s.arr, s.offset, k), ScanOf(Segment(s.arr, s.offset + k, |data| - k), data[k..])))
  {
    ScanStartsWithHeader(data);
    CutAtHeader(s, data, 1);
  }

  /**
   * Second case of the cut: the bytes do not start with a header but hold one; the block
   * runs up to it, and the remainder rescans to all of the scan's headers.
   */
  lemma CutAtFirstHeader(s: Segment, data: seq<byte>)
    requires Valid(s) && !s.arr.Null? && |data| == s.count
    requires !IsHeaderAt(data, 0) && AllHeaders(data) != []
    ensures var k := AllHeaders(data)[0];
      0 < k && k + HeaderLength <= |data|
      && CutFirstBlock(ScanOf(s, data))
         == Success((Segment(s.arr, s.offset, k), ScanOf(Segment(s.arr, s.offset + k, |data| - k), data[k..])))
  {
    ScanStartsWithHeader(data);
    CutAtHeader(s, data, 0);
  }

  /**
   * Last case of the cut, without a partial header: no header follows the start, so the
   * block is the whole buffer and the remainder is the empty buffer.
   */
  lemma CutToEnd(s: Segment, data: seq<byte>)
    requires Valid(s) && !s.arr.Null? && |data| == s.count
    requires var ps := AllHeaders(data); ps == [] || (IsHeaderAt(data, 0) && |ps| == 1)
    requires ScannedPart(s.offset, data).None?
    ensures CutFirstBlock(ScanOf(s, data)) == Success((s, GzipBuffer(EmptySegment, Some([]), None)))
  {
    ScanStartsWithHeader(data);
    CutWholeToEnd(s, data);
  }

  /**
   * Last case of the cut, with a partial header: the block ends where the partial header
   * starts, and the remainder is the partial header alone, recorded again as the part.
   */
  lemma CutToPart(s: Segment, data: seq<byte>)
    requires Valid(s) && !s.arr.Null? && |data| == s.count
    requires var ps := AllHeaders(data); ps == [] || (IsHeaderAt(data, 0) && |ps| == 1)
    requires ScannedPart(s.offset, data).Some?
    ensures var c := ScannedPart(s.offset, data).value - s.offset;
      0 <= c < |data|
      && CutFirstBlock(ScanOf(s, data))
         == Success((Segment(s.arr, s.offset, c), ScanOf(Segment(s.arr, s.offset + c, |data| - c), data[c..])))
  {
    ScanStartsWithHeader(data);
    CutWholeToPart(s, data);
  }

  /**
   * Whatever the case, cutting a scanned buffer succeeds and the remainder is again exactly
   * what the constructor builds over the remaining bytes (the empty buffer scans to no
   * headers and no part).
   */
  lemma CutFirstBlockRescans(s: Segment, data: seq<byte>)
    requires Valid(s) && !s.arr.Null? && |data| == s.count
    ensures CutFirstBlock(ScanOf(s, data)).Success?
    ensures var (block, left) := CutFirstBlock(ScanOf(s, data)).value;
      block.count <= |data| && left == ScanOf(left.bytes, data[block.count..])
  {
    var ps := AllHeaders(data);
    if IsHeaderAt(data, 0) && |ps| >= 2 {
      RescansAtSecondHeader(s, data);
    } else if !IsHeaderAt(data, 0) && ps != [] {
      RescansAtFirstHeader(s, data);
    } else if ScannedPart(s.offset, data).None? {
      RescansToEnd(s, data);
    } else {
      RescansToPart(s, data);
    }
  }

  lemma RescansAtSecondHeader(s: Segment, data: seq<byte>)
    requires Valid(s) && !s.arr.Null? && |data| == s.count
    requires IsHeaderAt(data, 0) && |AllHeaders(data)| >= 2
    ensures CutFirstBlock(ScanOf(s, data)).Success?
    ensures var (block, left) := CutFirstBlock(ScanOf(s, data)).value;
      block.count <= |data| && left == ScanOf(left.bytes, data[block.count..])
  {
    CutAtSecondHeader(s, data);
    RescansFrom(s, data, AllHeaders(data)[1],
      ScanOf(Segment(s.arr, s.offset + AllHeaders(data)[1], |data| - AllHeaders(data)[1]), data[AllHeaders(data)[1]..]));
  }

  lemma RescansAtFirstHeader(s: Segment, data: seq<byte>)
    requires Valid(s) && !s.arr.Null? && |data| == s.count
    requires !IsHeaderAt(data, 0) && AllHeaders(data) != []
    ensures CutFirstBlock(ScanOf(s, data)).Success?
    ensures var (block, left) := CutFirstBlock(ScanOf(s, data)).value;
      block.count <= |data| && left == ScanOf(left.bytes, data[block.count..])
  {
    CutAtFirstHeader(s, data);
    RescansFrom(s, data, AllHeaders(data)[0],
      ScanOf(Segment(s.arr, s.offset + AllHeaders(data)[0], |data| - AllHeaders(data)[0]), data[AllHeaders(data)[0]..]));
  }

  lemma RescansToEnd(s: Segment, data: seq<byte>)
    requires Valid(s) && !s.arr.Null? && |data| == s.count
    requires var ps := AllHeaders(data); ps == [] || (IsHeaderAt(data, 0) && |ps| == 1)
    requires ScannedPart(s.offset, data).None?
    ensures CutFirstBlock(ScanOf(s, data)).Success?
    ensures var (block, left) := CutFirstBlock(ScanOf(s, data)).value;
      block.count <= |data| && left == ScanOf(left.bytes, data[block.count..])
  {
    CutToEnd(s, data);
    ScanOfNothingLeft(data);
    RescansFrom(s, data, |data|, GzipBuffer(EmptySegment, Some([]), None));
  }

  lemma RescansToPart(s: Segment, data: seq<byte>)
    requires Valid(s) && !s.arr.Null? && |data| == s.count
    requires var ps := AllHeaders(data); ps == [] || (IsHeaderAt(data, 0) && |ps| == 1)
    requires ScannedPart(s.offset, data).Some?
    ensures CutFirstBlock(ScanOf(s, data)).Success?
    ensures var (block, left) := CutFirstBlock(ScanOf(s, data)).value;
      block.count <= |data| && left == ScanOf(left.bytes, data[block.count..])
  {
    CutToPart(s, data);
    RescansFrom(s, data, ScannedPart(s.offset, data).value - s.offset,
      ScanOf(Segment(s.arr, ScannedPart(s.offset, data).value, |data| - (ScannedPart(s.offset, data).value - s.offset)),
             data[ScannedPart(s.offset, data).value - s.offset..]));
  }

  /** One case of `CutFirstBlockRescans`: a cut of `k` bytes whose remainder is the scan of the bytes after them. */
  lemma RescansFrom(s: Segment, data: seq<byte>, k: int, left: GzipBuffer)
    requires Valid(s) && 0 <= k <= |data|
    requires CutFirstBlock(ScanOf(s, data)) == Success((Segment(s.arr, s.offset, k), left))
    requires left == ScanOf(left.bytes, data[k..])
    ensures CutFirstBlock(ScanOf(s, data)).Success?
    ensures var (block, left') := CutFirstBlock(ScanOf(s, data)).value;
      block.count <= |data| && left' == ScanOf(left'.bytes, data[block.count..])
  {
  }

  /** Nothing left after the whole buffer: the empty buffer is the scan of no bytes. */
  lemma ScanOfNothingLeft(data: seq<byte>)
    ensures GzipBuffer(EmptySegment, Some([]), None) == ScanOf(EmptySegment, data[|data|..])
  {
    assert data[|data|..] == [];
    assert AllHeaders([]) == [];
  }

  /** What `CutFirstBlock` returns once the static cut is known to give `n` bytes and `leftHeaders`. */
  lemma CutFirstBlockIs(b: GzipBuffer, leftHeaders: seq<GzipHeader>, n: int)
    requires Valid(b.bytes) && !b.bytes.arr.Null? && 0 <= n <= b.bytes.count
    requires CutFirst(b.bytes.offset, b.bytes.offset + b.bytes.count - 1, b.headers, b.part) == Success((leftHeaders, b.bytes.offset, n))
    ensures CutFirstBlock(b) == Success((Segment(b.bytes.arr, b.bytes.offset, n),
      GzipBuffer(if n == b.bytes.count then EmptySegment else Segment(b.bytes.arr, b.bytes.offset + n, b.bytes.count - n),
                 Some(leftHeaders), b.part)))
  {
    assert NewSegment(b.bytes.arr, b.bytes.offset, n) == Success(Segment(b.bytes.arr, b.bytes.offset, n));
    assert BytesAfterBlock(b.bytes, n).Success?;
  }

  /** The buffer the constructor builds over the bytes from the scan's `j`-th header on keeps the rest of the scan. */
  lemma ScanFromHeader(s: Segment, data: seq<byte>, j: nat)
    requires j < |AllHeaders(data)|
    ensures var k := AllHeaders(data)[j];
      k + HeaderLength <= |data|
      && ScanOf(Segment(s.arr, s.offset + k, |data| - k), data[k..])
         == GzipBuffer(Segment(s.arr, s.offset + k, |data| - k), Some(HeadersAt(s, AllHeaders(data))[j..]), ScannedPart(s.offset, data))
  {
    HeadersFromHeader(s, data, j);
    PartFromHeader(s.offset, data, j);
    ScanOfIs(Segment(s.arr, s.offset + AllHeaders(data)[j], |data| - AllHeaders(data)[j]), data[AllHeaders(data)[j]..],
      HeadersAt(s, AllHeaders(data))[j..], ScannedPart(s.offset, data));
  }

  /** `ScanOf` from its two parts. */
  lemma ScanOfIs(t: Segment, d: seq<byte>, hs: seq<GzipHeader>, part: Option<int>)
    requires HeadersAt(t, AllHeaders(d)) == hs && ScannedPart(t.offset, d) == part
    ensures ScanOf(t, d) == GzipBuffer(t, Some(hs), part)
  {
  }

  /** The headers at the positions from the `j`-th on are the headers from the `j`-th on. */
  lemma HeadersAtDrop(s: Segment, ps: seq<nat>, j: nat)
    requires j <= |ps|
    ensures HeadersAt(s, ps[j..]) == HeadersAt(s, ps)[j..]
  {
    assert forall i :: 0 <= i < |ps| - j ==> HeadersAt(s, ps[j..])[i] == HeadersAt(s, ps)[j + i];
  }

  /** The scan of the bytes from the scan's `j`-th header on finds the rest of the scan's headers. */
  lemma HeadersFromHeader(s: Segment, data: seq<byte>, j: nat)
    requires j < |AllHeaders(data)|
    ensures var k := AllHeaders(data)[j];
      k + HeaderLength <= |data|
      && HeadersAt(Segment(s.arr, s.offset + k, |data| - k), AllHeaders(data[k..])) == HeadersAt(s, AllHeaders(data))[j..]
  {
    var ps := AllHeaders(data);
    var k := ps[j];
    assert IsHeaderAt(data, k) by {
      AllHeadersAreHeaders(data, 0);
    }
    var t := Segment(s.arr, s.offset + k, |data| - k);
    var a := AllHeaders(data[k..]);
    assert Shifted(a, ps[j..], k) by {
      ScanOfDrop(data, k, 0);
      ScanFromMember(data, 0, j);
    }
    HeadersAtShifted(s, t, a, ps[j..], k);
    HeadersAtDrop(s, ps, j);
    assert HeadersAt(t, a) == HeadersAt(s, ps)[j..];
    assert t == Segment(s.arr, s.offset + AllHeaders(data)[j], |data| - AllHeaders(data)[j]);
  }

  /** The bytes from the scan's `j`-th header on record the same partial offset. */
  lemma PartFromHeader(offset: int, data: seq<byte>, j: nat)
    requires j < |AllHeaders(data)|
    ensures var k := AllHeaders(data)[j];
      k + HeaderLength <= |data| && ScannedPart(offset + k, data[k..]) == ScannedPart(offset, data)
  {
    var ps := AllHeaders(data);
    var k := ps[j];
    assert IsHeaderAt(data, k) by {
      AllHeadersAreHeaders(data, 0);
    }
    var a := AllHeaders(data[k..]);
    assert Shifted(a, ps[j..], k) by {
      ScanOfDrop(data, k, 0);
      ScanFromMember(data, 0, j);
    }
    assert a != [] && a[|a| - 1] + k == ps[|ps| - 1] by {
      assert ps[j..][|ps[j..]| - 1] == ps[|ps| - 1];
    }
    PartialOfDrop(data, k, HeaderLength - 1);
  }

  /** The static cut of a scan whose `j`-th header ends the first block. */
  lemma CutFirstAtHeader(s: Segment, ps: seq<nat>, j: nat, last: int, part: Option<int>)
    requires j < |ps| && ((j == 0 && ps[0] != 0) || (j == 1 && ps[0] == 0))
    ensures CutFirst(s.offset, last, Some(HeadersAt(s, ps)), part) == Success((HeadersAt(s, ps)[j..], s.offset, ps[j]))
  {
    var hs := HeadersAt(s, ps);
    var r := CutFirst(s.offset, last, Some(hs), part);
    if j == 0 {
      assert hs[0].bytes.offset == s.offset + ps[0] != s.offset;
      assert hs[0..] == hs;
      assert r == Success((hs, s.offset, ps[0]));
    } else {
      assert hs[0].bytes.offset == s.offset && hs[1].bytes.offset == s.offset + ps[1];
      assert r == Success((hs[1..], s.offset, ps[1]));
    }
  }

  /** The static cut of a scan with no header after the start: one block up to the part or the end. */
  lemma CutFirstWhole(s: Segment, ps: seq<nat>, last: int, part: Option<int>)
    requires ps == [] || (|ps| == 1 && ps[0] == 0)
    ensures CutFirst(s.offset, last, Some(HeadersAt(s, ps)), part)
      == Success(([], s.offset, (if part.Some? then part.value else last + 1) - s.offset))
  {
    var hs := HeadersAt(s, ps);
    assert hs != [] ==> hs[0].bytes.offset == s.offset + ps[0];
  }

  /** The first two cases: the block ends at the `j`-th header, where the remainder starts. */
  lemma CutAtHeaderBlock(s: Segment, ps: seq<nat>, j: nat, part: Option<int>)
    requires Valid(s) && !s.arr.Null?
    requires j < |ps| && ((j == 0 && ps[0] != 0) || (j == 1 && ps[0] == 0)) && ps[j] < s.count
    ensures CutFirstBlock(GzipBuffer(s, Some(HeadersAt(s, ps)), part))
      == Success((Segment(s.arr, s.offset, ps[j]),
                  GzipBuffer(Segment(s.arr, s.offset + ps[j], s.count - ps[j]), Some(HeadersAt(s, ps)[j..]), part)))
  {
    CutFirstAtHeader(s, ps, j, s.offset + s.count - 1, part);
    CutFirstBlockIs(GzipBuffer(s, Some(HeadersAt(s, ps)), part), HeadersAt(s, ps)[j..], ps[j]);
  }

  /** The first two cases, whole: the remainder is the scan of the bytes from the `j`-th header on. */
  lemma CutAtHeader(s: Segment, data: seq<byte>, j: nat)
    requires Valid(s) && !s.arr.Null? && |data| == s.count
    requires var ps := AllHeaders(data);
      j < |ps| && ((j == 0 && ps[0] != 0) || (j == 1 && ps[0] == 0))
    ensures var k := AllHeaders(data)[j];
      k + HeaderLength <= |data|
      && CutFirstBlock(ScanOf(s, data))
         == Success((Segment(s.arr, s.offset, k), ScanOf(Segment(s.arr, s.offset + k, |data| - k), data[k..])))
  {
    ScanFromHeader(s, data, j);
    CutAtHeaderBlock(s, AllHeaders(data), j, ScannedPart(s.offset, data));
  }

  /** The last case without a part: the block is every byte. */
  lemma CutWholeToEnd(s: Segment, data: seq<byte>)
    requires Valid(s) && !s.arr.Null? && |data| == s.count
    requires var ps := AllHeaders(data); ps == [] || (|ps| == 1 && ps[0] == 0)
    requires ScannedPart(s.offset, data).None?
    ensures CutFirstBlock(ScanOf(s, data)) == Success((s, GzipBuffer(EmptySegment, Some([]), None)))
  {
    CutFirstWhole(s, AllHeaders(data), s.offset + s.count - 1, None);
    CutFirstBlockIs(ScanOf(s, data), [], s.count);
  }

  /** The last case with a part: the block ends where the partial header starts. */
  lemma CutWholeToPart(s: Segment, data: seq<byte>)
    requires Valid(s) && !s.arr.Null? && |data| == s.count
    requires var ps := AllHeaders(data); ps == [] || (|ps| == 1 && ps[0] == 0)
    requires ScannedPart(s.offset, data).Some?
    ensures var c := ScannedPart(s.offset, data).value - s.offset;
      0 <= c < |data|
      && CutFirstBlock(ScanOf(s, data))
         == Success((Segment(s.arr, s.offset, c), ScanOf(Segment(s.arr, s.offset + c, |data| - c), data[c..])))
  {
    var part := ScannedPart(s.offset, data);
    var c := part.value - s.offset;
    CutFirstWhole(s, AllHeaders(data), s.offset + s.count - 1, part);
    ScanOfPart(s, data);
    CutFirstBlockIs(ScanOf(s, data), [], c);
  }

  /** The shared empty segment scans to no headers and no part. */
  lemma ScanOfEmpty()
    ensures Scan(EmptySegment) == GzipBuffer(EmptySegment, Some([]), None)
  {
    assert Bytes(EmptySegment) == [];
    assert AllHeaders([]) == [];
  }

  /** The bytes from the partial offset on are a proper header prefix, so they scan to that part alone. */
  lemma ScanOfPart(s: Segment, data: seq<byte>)
    requires ScannedPart(s.offset, data).Some?
    ensures var c := ScannedPart(s.offset, data).value - s.offset;
      0 <= c < |data|
      && ScanOf(Segment(s.arr, s.offset + c, |data| - c), data[c..])
         == GzipBuffer(Segment(s.arr, s.offset + c, |data| - c), Some([]), ScannedPart(s.offset, data))
  {
    PartOfScan(s.offset, data);
    var q := PartialHeaderLength(data);
    var c := |data| - q;
    var t := Segment(s.arr, s.offset + c, q);
    var d := data[c..];
    ScanAtEnd(d, 0);
    assert d[|d| - q..] == d;
    assert EndsWithHeaderPart(d, q);
    assert PartialHeaderLength(d) == PartialHeaderFrom(d, q) == q;
    assert HeadersAt(t, AllHeaders(d)) == [];
  }
  /** A header moved to `copy`: same size, at its position relative to `srcOffset`. */
  predicate RebasedHeader(h: GzipHeader, copy: ByteArray, srcOffset: int, h': GzipHeader) {
    h' == GzipHeader(Segment(copy, h.bytes.offset - srcOffset, h.bytes.count))
  }

  /** A header fits, once moved, in an array of `size` bytes. */
  predicate FitsRebased(h: GzipHeader, srcOffset: int, size: int) {
    0 <= h.bytes.offset - srcOffset && 0 <= h.bytes.count && h.bytes.offset - srcOffset + h.bytes.count <= size
  }

  /**
   * The header list of `ToOwnedBuffer`: each header becomes `copy.Segment(Position -
   * srcOffset, Count)`, in order; the first header that does not fit makes the segment
   * constructor throw.
   */
  function RebaseHeaders(hs: seq<GzipHeader>, copy: ByteArray, srcOffset: int): (r: Result<seq<GzipHeader>, Exception>)
    requires !copy.Null?
    ensures r.Success? <==> forall k :: 0 <= k < |hs| ==> FitsRebased(hs[k], srcOffset, Length(copy))
    ensures r.Success? ==> |r.value| == |hs| && forall k :: 0 <= k < |hs| ==> RebasedHeader(hs[k], copy, srcOffset, r.value[k])
  {
    if hs == [] then Success([])
    else
      var h := NewSegment(copy, hs[0].bytes.offset - srcOffset, hs[0].bytes.count);
      if h.Failure? then Failure(h.error)
      else
        var rest := RebaseHeaders(hs[1..], copy, srcOffset);
        if rest.Failure? then Failure(rest.error)
        else Success([GzipHeader(h.value)] + rest.value)
  }

  /** `possiblePartOfHeaderAtTheEnd - srcOffset` on a nullable: null stays null. */
  function ShiftPart(part: Option<int>, srcOffset: int): (r: Option<int>)
    ensures r.None? <==> part.None?
    ensures r.Some? ==> r.value + srcOffset == part.value
  {
    if part.Some? then Some(part.value - srcOffset) else None
  }

  /**
   * `ToOwnedBuffer`: a buffer over a null array gives the default buffer; otherwise the
   * bytes are copied into a fresh array, the headers are moved to it (a null header list
   * makes `Select` throw) and the partial offset is shifted by the segment's offset.
   */
  method ToOwnedBuffer(b: GzipBuffer) returns (r: Result<GzipBuffer, Exception>)
    requires Valid(b.bytes)
    ensures b.bytes.arr.Null? ==> r == Success(DefaultBuffer)
    ensures !b.bytes.arr.Null? && b.headers.None? ==> r == Failure(ArgumentNullException)
    ensures !b.bytes.arr.Null? && b.headers.Some? ==>
      (r.Success? <==> forall k :: 0 <= k < |b.headers.value| ==> FitsRebased(b.headers.value[k], b.bytes.offset, b.bytes.count))
    ensures r.Success? && !b.bytes.arr.Null? ==>
      var o := r.value;
      o.bytes.arr.Allocated? && fresh(o.bytes.arr.a) && o.bytes.offset == 0 && o.bytes.count == b.bytes.count
      && Length(o.bytes.arr) == b.bytes.count
      && Valid(o.bytes) && Bytes(o.bytes) == Bytes(b.bytes)
      && o.headers == Some(RebaseHeaders(b.headers.value, o.bytes.arr, b.bytes.offset).value)
      && o.part == ShiftPart(b.part, b.bytes.offset)
  {
    if b.bytes.arr.Null? {
      return Success(DefaultBuffer);
    }
    var srcOffset := b.bytes.offset;
    var src := Elements(b.bytes.arr);
    var count := b.bytes.count;
    // `new byte[Bytes.Count]` and `Buffer.BlockCopy`
    var copy := new byte[count](i requires 0 <= i < count => src[srcOffset + i]);
    var arraySegment := Segment(Allocated(copy), 0, copy.Length);
    assert Bytes(arraySegment) == Bytes(b.bytes);
    if b.headers.None? {
      return Failure(ArgumentNullException);
    }
    var newHeaders := RebaseHeaders(b.headers.value, Allocated(copy), srcOffset);
    if newHeaders.Failure? {
      return Failure(newHeaders.error);
    }
    return Success(GzipBuffer(arraySegment, Some(newHeaders.value), ShiftPart(b.part, srcOffset)));
  }

  /** Headers of `s` moved to a copy of its bytes are the headers at the same relative positions of the copy. */
  lemma RebaseHeadersAt(s: Segment, ps: seq<nat>, copy: ByteArray, n: int)
    requires !copy.Null? && Length(copy) == n
    requires forall k :: 0 <= k < |ps| ==> ps[k] + HeaderLength <= n
    ensures RebaseHeaders(HeadersAt(s, ps), copy, s.offset) == Success(HeadersAt(Segment(copy, 0, n), ps))
  {
    RebaseHeadersFit(s, ps, copy, n);
    RebasedHeadersAre(HeadersAt(s, ps), s, ps, copy, RebaseHeaders(HeadersAt(s, ps), copy, s.offset).value);
  }

  /** Every header of the scan fits in the copy. */
  lemma RebaseHeadersFit(s: Segment, ps: seq<nat>, copy: ByteArray, n: int)
    requires !copy.Null? && Length(copy) == n
    requires forall k :: 0 <= k < |ps| ==> ps[k] + HeaderLength <= n
    ensures RebaseHeaders(HeadersAt(s, ps), copy, s.offset).Success?
  {
    var hs := HeadersAt(s, ps);
    forall k | 0 <= k < |hs| ensures FitsRebased(hs[k], s.offset, Length(copy)) {
      assert hs[k] == HeaderAt(s, ps[k]);
    }
  }

  /** Moved headers, element by element, are the copy's headers at the same positions. */
  lemma RebasedHeadersAre(hs: seq<GzipHeader>, s: Segment, ps: seq<nat>, copy: ByteArray, moved: seq<GzipHeader>)
    requires hs == HeadersAt(s, ps) && |moved| == |hs|
    requires forall k :: 0 <= k < |hs| ==> RebasedHeader(hs[k], copy, s.offset, moved[k])
    ensures moved == HeadersAt(Segment(copy, 0, Length(copy)), ps)
  {
    var o := Segment(copy, 0, Length(copy));
    forall k | 0 <= k < |ps| ensures moved[k] == HeadersAt(o, ps)[k] {
      assert RebasedHeader(hs[k], copy, s.offset, moved[k]) && hs[k] == HeaderAt(s, ps[k]);
    }
  }

  /**
   * Owning a scanned buffer gives the buffer the constructor builds over the copy: the
   * moved headers are the copy's headers and the shifted part is the copy's part.
   */
  lemma OwnedScanIsScan(s: Segment, data: seq<byte>, copy: ByteArray)
    requires !copy.Null? && Length(copy) == |data|
    ensures RebaseHeaders(HeadersAt(s, AllHeaders(data)), copy, s.offset).Success?
    ensures GzipBuffer(Segment(copy, 0, |data|), Some(RebaseHeaders(HeadersAt(s, AllHeaders(data)), copy, s.offset).value),
                       ShiftPart(ScannedPart(s.offset, data), s.offset))
            == ScanOf(Segment(copy, 0, |data|), data)
  {
    AllHeadersAreHeaders(data, 0);
    RebaseHeadersAt(s, AllHeaders(data), copy, |data|);
    ShiftScannedPart(s.offset, data);
    ScanOfIs(Segment(copy, 0, |data|), data, RebaseHeaders(HeadersAt(s, AllHeaders(data)), copy, s.offset).value,
      ShiftPart(ScannedPart(s.offset, data), s.offset));
  }

  /** The partial offset shifted by the segment's offset is the one recorded for the same bytes at offset 0. */
  lemma ShiftScannedPart(offset: int, data: seq<byte>)
    ensures ShiftPart(ScannedPart(offset, data), offset) == ScannedPart(0, data)
  {
  }

  /**
   * `GetPossiblePart`: no partial offset or a null array gives the default segment;
   * otherwise the segment from the partial offset to the end of the ARRAY.
   */
  function GetPossiblePart(b: GzipBuffer): (r: Result<Segment, Exception>)
    requires Valid(b.bytes)
    ensures b.part.None? || b.bytes.arr.Null? ==> r == Success(Default)
    ensures b.part.Some? && !b.bytes.arr.Null? ==> (r.Success? <==> 0 <= b.part.value <= Length(b.bytes.arr))
    ensures b.part.Some? && !b.bytes.arr.Null? && r.Success? ==>
      Valid(r.value) && r.value.arr == b.bytes.arr && r.value.offset == b.part.value
      && r.value.offset + r.value.count == Length(b.bytes.arr)
  {
    if b.part.None? then Success(Default)
    else
      var bytesArray := b.bytes.arr;
      if bytesArray.Null? then Success(Default)
      else NewSegment(bytesArray, b.part.value, Length(bytesArray) - b.part.value)
  }

  /**
   * For a scanned buffer whose segment runs to the end of its array (as an owned buffer
   * does), the possible part is exactly the header prefix the bytes end with.
   */
  lemma PossiblePartOfScan(s: Segment, data: seq<byte>)
    requires Valid(s) && !s.arr.Null? && |data| == s.count && s.offset + s.count == Length(s.arr)
    requires ScannedPart(s.offset, data).Some?
    ensures var q := PartialHeaderLength(data);
      0 < q < HeaderLength && EndsWithHeaderPart(data, q)
      && GetPossiblePart(ScanOf(s, data)) == Success(Segment(s.arr, s.offset + |data| - q, q))
  {
    PartOfScan(s.offset, data);
  }

  /**
   * `ReturnToStart` as the source writes it: two null arrays give the default buffer, a
   * null block gives the buffer back, a block over another array or not ending right
   * before the buffer throws; otherwise the joined segment with the same partial offset,
   * but with a null header list (the headers it gathers are not passed on).
   */
  function ReturnToStartAsWritten(b: GzipBuffer, returnBlock: Segment): (r: Result<GzipBuffer, Exception>)
    requires Valid(b.bytes) && Valid(returnBlock)
    ensures b.bytes.arr.Null? && returnBlock.arr.Null? ==> r == Success(DefaultBuffer)
    ensures !b.bytes.arr.Null? && returnBlock.arr.Null? ==> r == Success(b)
    ensures !returnBlock.arr.Null? ==>
      (r.Failure? <==> returnBlock.arr != b.bytes.arr || returnBlock.offset + returnBlock.count != b.bytes.offset)
    ensures !returnBlock.arr.Null? && r.Failure? ==> r.error == InvalidOperationException
    ensures !returnBlock.arr.Null? && r.Success? ==>
      r.value == GzipBuffer(Segment(b.bytes.arr, returnBlock.offset, returnBlock.count + b.bytes.count), None, b.part)
  {
    JoinToStart(b, returnBlock, None)
  }

  /**
   * `ReturnToStart` as evidently intended: the joined buffer lists the headers found in
   * the returned block followed by the buffer's own headers.
   */
  function ReturnToStart(b: GzipBuffer, returnBlock: Segment): (r: Result<GzipBuffer, Exception>)
    requires Valid(b.bytes) && Valid(returnBlock)
    reads ObjectsOf(returnBlock.arr)
    ensures !returnBlock.arr.Null? && r.Success? ==>
      r.value.headers == Some(HeadersAt(returnBlock, AllHeaders(Bytes(returnBlock))) + Headers(b))
    ensures r.Success? <==> ReturnToStartAsWritten(b, returnBlock).Success?
    ensures r.Success? ==> r.value.bytes == ReturnToStartAsWritten(b, returnBlock).value.bytes
    ensures r.Success? ==> r.value.part == ReturnToStartAsWritten(b, returnBlock).value.part
  {
    var returnHeaders := if returnBlock.arr.Null? then [] else HeadersAt(returnBlock, AllHeaders(Bytes(returnBlock)));
    JoinToStart(b, returnBlock, Some(returnHeaders + Headers(b)))
  }

  /** The checks and the join shared by both versions of `ReturnToStart`; `headers` is what the result lists. */
  function JoinToStart(b: GzipBuffer, returnBlock: Segment, headers: Option<seq<GzipHeader>>): (r: Result<GzipBuffer, Exception>)
    requires Valid(b.bytes) && Valid(returnBlock)
    ensures b.bytes.arr.Null? && returnBlock.arr.Null? ==> r == Success(DefaultBuffer)
    ensures !b.bytes.arr.Null? && returnBlock.arr.Null? ==> r == Success(b)
    ensures !returnBlock.arr.Null? ==>
      (r.Failure? <==> returnBlock.arr != b.bytes.arr || returnBlock.offset + returnBlock.count != b.bytes.offset)
    ensures !returnBlock.arr.Null? && r.Failure? ==> r.error == InvalidOperationException
    ensures !returnBlock.arr.Null? && r.Success? ==>
      r.value == GzipBuffer(Segment(b.bytes.arr, returnBlock.offset, returnBlock.count + b.bytes.count), headers, b.part)
  {
    var returnBlockArray := returnBlock.arr;
    if b.bytes.arr.Null? && returnBlockArray.Null? then Success(DefaultBuffer)
    else if returnBlockArray.Null? then Success(b)
    else if returnBlockArray != b.bytes.arr then Failure(InvalidOperationException)
    // `returnBlock.LastOffset() != Bytes.Offset - 1`
    else if returnBlock.offset + returnBlock.count - 1 != b.bytes.offset - 1 then Failure(InvalidOperationException)
    else
      var joinedSegment := NewSegment(returnBlockArray, returnBlock.offset, returnBlock.count + b.bytes.count);
      if joinedSegment.Failure? then Failure(joinedSegment.error)
      else Success(GzipBuffer(joinedSegment.value, headers, b.part))
  }

  /**
   * Cutting what the source's `ReturnToStart` returns always throws: its header list is
   * null, and the static cut reads its `Count`.
   */
  lemma ReturnToStartLosesHeaders(b: GzipBuffer, returnBlock: Segment)
    requires Valid(b.bytes) && Valid(returnBlock) && !returnBlock.arr.Null?
    requires ReturnToStartAsWritten(b, returnBlock).Success?
    ensures Valid(ReturnToStartAsWritten(b, returnBlock).value.bytes)
    ensures CutFirstBlock(ReturnToStartAsWritten(b, returnBlock).value) == Failure(NullReferenceException)
  {
  }

  /** Cutting the buffer the intended `ReturnToStart` returns does not hit a null header list. */
  lemma ReturnToStartCanBeCut(b: GzipBuffer, returnBlock: Segment)
    requires Valid(b.bytes) && Valid(returnBlock) && !returnBlock.arr.Null?
    requires ReturnToStart(b, returnBlock).Success?
    ensures Valid(ReturnToStart(b, returnBlock).value.bytes)
    ensures CutFirstBlock(ReturnToStart(b, returnBlock).value) != Failure(NullReferenceException)
  {
  }

  /**
   * Returning the first block of a cut to the start of the remainder gives back the
   * bytes and the partial offset the buffer had, when the cut left bytes over.
   */
  lemma ReturnToStartUndoesCut(b: GzipBuffer)
    requires Valid(b.bytes) && !b.bytes.arr.Null? && CutFirstBlock(b).Success?
    requires 0 < CutFirstBlock(b).value.0.count < b.bytes.count
    ensures var (block, left) := CutFirstBlock(b).value;
      ReturnToStart(left, block).Success?
      && ReturnToStart(left, block).value.bytes == b.bytes
      && ReturnToStart(left, block).value.part == b.part
  {
  }
}
