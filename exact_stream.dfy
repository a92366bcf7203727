/**
 * Decompression/Streams/ExactlyPositionedAccoringToGzipBlockBoundsStream.cs: the
 * read-only stream the decompressor reads the streaming block through. Each read hands
 * out at most one gzip member: the bytes of the wrapped stream up to the next member
 * start, keeping an owned copy of what follows for the next reads.
 */
module ExactStreams {
  import opened Binary
  import opened Wrappers
  import opened Segments
  import opened GzipHeaders
  import opened GzipBuffers
  import opened Streams

  /**
   * Where `CutFirstBlock` ends the first block of the buffer the constructor builds over
   * `data`: at the second header when a header starts the bytes, at the first header when
   * one starts later, otherwise where a trailing header prefix starts, or at the end.
   */
  function FirstBlockLength(data: seq<byte>): (k: nat)
    ensures k <= |data|
  {
    ScanHeads(data);
    var ps := AllHeaders(data);
    if IsHeaderAt(data, 0) && |ps| >= 2 then ps[1]
    else if !IsHeaderAt(data, 0) && ps != [] then ps[0]
    else if ScannedPart(0, data).Some? then |data| - PartialHeaderLength(data)
    else |data|
  }

  /** The first two headers the scan reports start headers, the second past the first's ten bytes. */
  lemma ScanHeads(data: seq<byte>)
    ensures var ps := AllHeaders(data);
      (ps != [] ==> IsHeaderAt(data, ps[0]))
      && (|ps| >= 2 ==> ps[0] + HeaderLength <= ps[1] && IsHeaderAt(data, ps[1]))
  {
    AllHeadersAreHeaders(data, 0);
  }

  /**
   * How many of the bytes `data` one read of `count` bytes hands out: a lone header
   * prefix whole, otherwise the first block, cut to `count` bytes when it is longer.
   */
  function PieceLength(data: seq<byte>, count: int): int {
    var k := FirstBlockLength(data);
    if k == 0 then |data| else if k > count then count else k
  }

  /** A header at `j` of a prefix of the data is a header at `j` of the data, inside the prefix. */
  lemma HeaderInPrefix(data: seq<byte>, n: int, j: int)
    requires 0 <= n <= |data|
    ensures IsHeaderAt(data[..n], j) ==> j + HeaderLength <= n && IsHeaderAt(data, j)
  {
    if IsHeaderAt(data[..n], j) {
      HeaderAtWindow(data[..n], j);
      HeaderAtWindow(data, j);
      assert data[..n][j..j + HeaderLength] == data[j..j + HeaderLength];
    }
  }

  /** A block of no bytes is cut only from a lone header prefix, shorter than a header. */
  lemma {:induction false} EmptyBlockIsPart(data: seq<byte>)
    requires FirstBlockLength(data) == 0
    ensures |data| < HeaderLength && (data != [] ==> IsHeaderPrefix(data))
  {
    ScanHeads(data);
    if ScannedPart(0, data).Some? {
      PartOfScan(0, data);
      assert data[|data| - |data|..] == data;
    }
  }

  /**
   * A read of at least a header's length out of bytes that are there hands out at least
   * one byte and never more than asked for or held.
   */
  lemma PieceBounds(data: seq<byte>, count: int)
    requires data != [] && HeaderLength <= count
    ensures 0 < PieceLength(data, count) <= |data| && PieceLength(data, count) <= count
  {
    if FirstBlockLength(data) == 0 {
      EmptyBlockIsPart(data);
    }
  }

  /**
   * A read holds at most one member: no header starts in what it hands out past the first
   * ten bytes, and none at all unless a header starts it.
   */
  lemma {:induction false} PieceHoldsOneMember(data: seq<byte>, count: int)
    requires HeaderLength <= count
    ensures var n := PieceLength(data, count);
      0 <= n <= |data|
      && (forall j :: HeaderLength <= j ==> !IsHeaderAt(data[..n], j))
      && (!IsHeaderAt(data, 0) ==> forall j :: !IsHeaderAt(data[..n], j))
  {
    var n := PieceLength(data, count);
    var k := FirstBlockLength(data);
    var ps := AllHeaders(data);
    if data != [] {
      PieceBounds(data, count);
    }
    AllHeadersAreHeaders(data, 0);
    AllHeadersSkipNothing(data, 0);
    if k == 0 {
      EmptyBlockIsPart(data);
    }
    forall j | HeaderLength <= j || !IsHeaderAt(data, 0)
      ensures !IsHeaderAt(data[..n], j)
    {
      HeaderInPrefix(data, n, j);
      if j + HeaderLength <= n {
        if IsHeaderAt(data, 0) && |ps| >= 2 {
          assert ps[0] == 0 by { assert IsHeaderAt(data, ps[0]); }
          assert ps[0] + HeaderLength <= j < ps[1];
        } else if !IsHeaderAt(data, 0) && ps != [] {
          assert j < ps[0];
        } else if ps != [] {
          assert ps[0] == 0 && ps[|ps| - 1] + HeaderLength <= j;
        }
      }
    }
  }

  /**
   * A read stops early only at a member boundary: short of what it holds and of `count`,
   * the bytes left start a header or are a header prefix the data ends with.
   */
  lemma PieceEndsAtBoundary(data: seq<byte>, count: int)
    requires HeaderLength <= count
    ensures var n := PieceLength(data, count);
      0 <= n <= |data|
      && (n < |data| && n < count ==>
            IsHeaderAt(data, n) || (0 < |data| - n < HeaderLength && IsHeaderPrefix(data[n..])))
  {
    var n := PieceLength(data, count);
    var k := FirstBlockLength(data);
    if data != [] {
      PieceBounds(data, count);
    }
    AllHeadersAreHeaders(data, 0);
    var ps := AllHeaders(data);
    if n < |data| && n < count {
      assert n == k && k > 0;
      if IsHeaderAt(data, 0) && |ps| >= 2 {
        assert IsHeaderAt(data, ps[1]);
      } else if !IsHeaderAt(data, 0) && ps != [] {
        assert IsHeaderAt(data, ps[0]);
      } else {
        assert ScannedPart(0, data).Some?;
        PartOfScan(0, data);
        assert data[n..] == data[|data| - PartialHeaderLength(data)..];
      }
    }
  }

  /**
   * Lines 91-99 of `ReadFirstBockFromBuffer`, for a cut whose block is empty: the possible
   * partial header of the buffer when the remainder holds only that, and nothing is kept.
   */
  function PartOrNothing(b: GzipBuffer, block: Segment, left: GzipBuffer): (r: Result<(Segment, GzipBuffer), Exception>)
    requires Valid(b.bytes)
    ensures r.Success? ==> r.value.1 == DefaultBuffer
    ensures !ContainsOnlyPart(left) ==> r == Success((block, DefaultBuffer))
    ensures ContainsOnlyPart(left) ==> (r.Success? <==> GetPossiblePart(b).Success?)
  {
    if ContainsOnlyPart(left) then
      var part := GetPossiblePart(b);
      if part.Failure? then Failure(part.error) else Success((part.value, DefaultBuffer))
    else Success((block, DefaultBuffer))
  }

  /**
   * `ReadFirstBockFromBuffer(gzipBuffer, requestedCount)` as the source writes it. A block
   * longer than `requestedCount` is sliced with its own array offset taken as relative to
   * the block, twice, and the bytes past the slice are returned to the remainder by
   * `ReturnToStart`.
   */
  function FirstBlockAsWritten(b: GzipBuffer, requestedCount: int): (r: Result<(Segment, GzipBuffer), Exception>)
    requires Valid(b.bytes)
    reads ObjectsOf(b.bytes.arr)
    ensures CutFirstBlock(b).Failure? ==> r.Failure?
    ensures CutFirstBlock(b).Success? && 0 < CutFirstBlock(b).value.0.count <= requestedCount ==>
      r == CutFirstBlock(b)
    ensures CutFirstBlock(b).Success? && CutFirstBlock(b).value.0.count > requestedCount >= 0 && r.Success? ==>
      r.value.0 == Segment(b.bytes.arr, 2 * b.bytes.offset, requestedCount) && r.value.1.headers.None?
  {
    var cut := CutFirstBlock(b);
    if cut.Failure? then Failure(cut.error)
    else
      var (block, left) := cut.value;
      if block.arr.Null? || block.count == 0 then PartOrNothing(b, block, left)
      else if block.count > requestedCount then
        var sliced := Slice(block, block.offset, requestedCount);
        if sliced.Failure? then Failure(sliced.error)
        else
          var returnBlock := Slice(sliced.value, sliced.value.offset + requestedCount, sliced.value.count - requestedCount);
          if returnBlock.Failure? then Failure(returnBlock.error)
          else
            var joined := ReturnToStartAsWritten(left, returnBlock.value);
            if joined.Failure? then Failure(joined.error) else Success((sliced.value, joined.value))
      else Success((block, left))
  }

  /**
   * `ReadFirstBockFromBuffer` as evidently intended: a block longer than `requestedCount`
   * gives its first `requestedCount` bytes, and the buffer over every byte after them is
   * kept for the next reads.
   */
  function FirstBlock(b: GzipBuffer, requestedCount: int): (r: Result<(Segment, GzipBuffer), Exception>)
    requires Valid(b.bytes) && 0 <= requestedCount
    reads ObjectsOf(b.bytes.arr)
    ensures CutFirstBlock(b).Failure? ==> r.Failure?
    ensures CutFirstBlock(b).Success? && CutFirstBlock(b).value.0.count > 0 ==>
      var n := Min(CutFirstBlock(b).value.0.count, requestedCount);
      r.Success? && r.value.0 == Segment(b.bytes.arr, b.bytes.offset, n)
      && r.value.1.bytes.count == b.bytes.count - n
      && (r.value.1.bytes.count > 0 ==> r.value.1.bytes == Segment(b.bytes.arr, b.bytes.offset + n, b.bytes.count - n))
  {
    var cut := CutFirstBlock(b);
    if cut.Failure? then Failure(cut.error)
    else
      var (block, left) := cut.value;
      if block.arr.Null? || block.count == 0 then PartOrNothing(b, block, left)
      else if block.count > requestedCount then
        Success((Segment(block.arr, block.offset, requestedCount),
                 Scan(Segment(b.bytes.arr, b.bytes.offset + requestedCount, b.bytes.count - requestedCount))))
      else Success((block, left))
  }

  /**
   * What a retained buffer is, for the bytes `data` it covers: nothing, or the buffer the
   * constructor builds over those bytes when they run to the end of an array of the heap.
   */
  predicate Holds(b: GzipBuffer, data: seq<byte>) {
    Valid(b.bytes) && |data| == b.bytes.count
    && (!IsEmpty(b) ==>
          b.bytes.arr.Allocated? && b.bytes.offset + b.bytes.count == Length(b.bytes.arr) && b == ScanOf(b.bytes, data))
  }

  /**
   * A piece handed out of the bytes of `s` and what is kept: the first `n` bytes, on the
   * same array, and a retained buffer over the bytes after them.
   */
  predicate HandsOut(s: Segment, n: int, r: (Segment, GzipBuffer))
    reads ObjectsOf(s.arr), ObjectsOf(r.1.bytes.arr)
  {
    Valid(s) && 0 <= n <= s.count && r.0 == Segment(s.arr, s.offset, n)
    && Holds(r.1, Bytes(s)[n..]) && Bytes(r.1.bytes) == Bytes(s)[n..]
    && (r.1.bytes.arr.Allocated? ==> r.1.bytes.arr == s.arr)
  }

  /**
   * The value a read of `n` bytes out of the bytes of `s` gives: the first `n` bytes as a
   * segment of the same array, and the buffer the constructor builds over the bytes after
   * them, or an empty buffer when none are left.
   */
  predicate Shaped(s: Segment, n: int, r: (Segment, GzipBuffer))
    requires Valid(s)
    reads ObjectsOf(s.arr)
  {
    0 <= n <= s.count && r.0 == Segment(s.arr, s.offset, n)
    && (n < s.count ==> r.1 == Scan(Segment(s.arr, s.offset + n, s.count - n)))
    && (n == s.count ==> r.1 == DefaultBuffer || r.1 == GzipBuffer(EmptySegment, Some([]), None))
  }

  /** A value of that shape hands out the first `n` bytes and keeps a retained buffer over the rest. */
  lemma ShapedHandsOut(s: Segment, n: int, r: (Segment, GzipBuffer))
    requires Valid(s) && s.arr.Allocated? && s.offset + s.count == Length(s.arr) && Shaped(s, n, r)
    ensures HandsOut(s, n, r)
  {
    if n < s.count {
      RescanHolds(s, n);
    }
  }

  /**
   * Reading out of a retained buffer: the piece handed out is the first `PieceLength`
   * bytes, and what is kept is a retained buffer over the bytes after them, on the same
   * array.
   */
  lemma FirstBlockOfScan(s: Segment, count: int)
    requires Valid(s) && s.arr.Allocated? && 0 < s.count && s.offset + s.count == Length(s.arr) && HeaderLength <= count
    ensures var n := PieceLength(Bytes(s), count);
      FirstBlock(Scan(s), count).Success? && HandsOut(s, n, FirstBlock(Scan(s), count).value)
  {
    var n := ScanPieceLength(s, count);
    ShapedHandsOut(s, n, FirstBlock(Scan(s), count).value);
  }

  /**
   * `FirstBlockOfScan` for a retained buffer: its first block is the first
   * `PieceLength` bytes, on its own array, and the rest is retained over the bytes after them.
   */
  lemma KeptPiece(b: GzipBuffer, data: seq<byte>, count: int)
    requires Holds(b, data) && Bytes(b.bytes) == data && !IsEmpty(b) && HeaderLength <= count
    ensures FirstBlock(b, count).Success?
    ensures var n := PieceLength(data, count);
      0 < n <= |data| && n <= count
      && FirstBlock(b, count).value.0 == Segment(b.bytes.arr, b.bytes.offset, n)
      && Valid(FirstBlock(b, count).value.0) && !b.bytes.arr.Null?
      && Bytes(FirstBlock(b, count).value.0) == data[..n]
      && Holds(FirstBlock(b, count).value.1, data[n..]) && Bytes(FirstBlock(b, count).value.1.bytes) == data[n..]
      && (FirstBlock(b, count).value.1.bytes.arr.Allocated? ==> FirstBlock(b, count).value.1.bytes.arr == b.bytes.arr)
  {
    assert b == Scan(b.bytes);
    FirstBlockOfScan(b.bytes, count);
    PieceBounds(data, count);
    BytesOfSubSegment(b.bytes, 0, PieceLength(data, count));
  }

  /** The first block of a retained buffer, computed, with what `KeptPiece` says of it. */
  method TakePiece(b: GzipBuffer, ghost data: seq<byte>, count: int) returns (piece: (Segment, GzipBuffer))
    requires Holds(b, data) && Bytes(b.bytes) == data && !IsEmpty(b) && HeaderLength <= count
    ensures var n := PieceLength(data, count);
      0 < n <= |data| && n <= count
      && piece.0 == Segment(b.bytes.arr, b.bytes.offset, n) && Valid(piece.0) && !b.bytes.arr.Null?
      && Bytes(piece.0) == data[..n]
      && Holds(piece.1, data[n..]) && Bytes(piece.1.bytes) == data[n..]
      && (piece.1.bytes.arr.Allocated? ==> piece.1.bytes.arr == b.bytes.arr)
  {
    KeptPiece(b, data, count);
    piece := FirstBlock(b, count).value;
  }

  /** `FirstBlockOfScan` up to the bytes: the value has the shape of a read of `PieceLength` bytes. */
  lemma ScanPieceLength(s: Segment, count: int) returns (n: int)
    requires Valid(s) && s.arr.Allocated? && 0 < s.count && s.offset + s.count == Length(s.arr) && HeaderLength <= count
    ensures n == PieceLength(Bytes(s), count)
    ensures FirstBlock(Scan(s), count).Success? && Shaped(s, n, FirstBlock(Scan(s), count).value)
  {
    var data := Bytes(s);
    var ps := AllHeaders(data);
    ScanHeads(data);
    if IsHeaderAt(data, 0) && |ps| >= 2 {
      n := PieceAtSecond(s, count);
    } else if !IsHeaderAt(data, 0) && ps != [] {
      n := PieceAtFirst(s, count);
    } else if ScannedPart(s.offset, data).None? {
      n := PieceToEnd(s, count);
    } else {
      n := PieceToPart(s, count);
    }
  }

  /** When a header starts the bytes and a second follows, the piece ends at the second. */
  lemma PieceAtSecond(s: Segment, count: int) returns (n: int)
    requires Valid(s) && s.arr.Allocated? && 0 < s.count && s.offset + s.count == Length(s.arr) && HeaderLength <= count
    requires IsHeaderAt(Bytes(s), 0) && |AllHeaders(Bytes(s))| >= 2
    ensures n == PieceLength(Bytes(s), count)
    ensures FirstBlock(Scan(s), count).Success? && Shaped(s, n, FirstBlock(Scan(s), count).value)
  {
    var data := Bytes(s);
    var k := AllHeaders(data)[1];
    CutAtSecondHeader(s, data);
    ScanHeads(data);
    n := CutAtPiece(s, count, k);
  }

  /** When the first header starts later, the piece ends at it. */
  lemma PieceAtFirst(s: Segment, count: int) returns (n: int)
    requires Valid(s) && s.arr.Allocated? && 0 < s.count && s.offset + s.count == Length(s.arr) && HeaderLength <= count
    requires !IsHeaderAt(Bytes(s), 0) && AllHeaders(Bytes(s)) != []
    ensures n == PieceLength(Bytes(s), count)
    ensures FirstBlock(Scan(s), count).Success? && Shaped(s, n, FirstBlock(Scan(s), count).value)
  {
    var data := Bytes(s);
    var k := AllHeaders(data)[0];
    CutAtFirstHeader(s, data);
    ScanHeads(data);
    n := CutAtPiece(s, count, k);
  }

  /** When no header ends the block and no header prefix ends the bytes, the block runs to the end. */
  lemma PieceToEnd(s: Segment, count: int) returns (n: int)
    requires Valid(s) && s.arr.Allocated? && 0 < s.count && s.offset + s.count == Length(s.arr) && HeaderLength <= count
    requires var ps := AllHeaders(Bytes(s)); ps == [] || (IsHeaderAt(Bytes(s), 0) && |ps| == 1)
    requires ScannedPart(s.offset, Bytes(s)).None?
    ensures n == PieceLength(Bytes(s), count)
    ensures FirstBlock(Scan(s), count).Success? && Shaped(s, n, FirstBlock(Scan(s), count).value)
  {
    var data := Bytes(s);
    CutToEnd(s, data);
    ScanHeads(data);
    assert ScannedPart(0, data).None?;
    n := if s.count > count then count else s.count;
    assert Segment(s.arr, s.offset, s.count) == s;
    CutPiece(Scan(s), count, s.count, GzipBuffer(EmptySegment, Some([]), None));
  }

  /** When the bytes end with a header prefix past the only header, the block runs up to the prefix. */
  lemma PieceToPart(s: Segment, count: int) returns (n: int)
    requires Valid(s) && s.arr.Allocated? && 0 < s.count && s.offset + s.count == Length(s.arr) && HeaderLength <= count
    requires var ps := AllHeaders(Bytes(s)); ps == [] || (IsHeaderAt(Bytes(s), 0) && |ps| == 1)
    requires ScannedPart(s.offset, Bytes(s)).Some?
    ensures n == PieceLength(Bytes(s), count)
    ensures FirstBlock(Scan(s), count).Success? && Shaped(s, n, FirstBlock(Scan(s), count).value)
  {
    var data := Bytes(s);
    var c := PartStart(s);
    if c == 0 {
      n := s.count;
      CutPartPiece(s, count);
    } else {
      n := PieceBeforePart(s, count, c);
    }
  }

  /** Where the trailing header prefix starts, counted from the start of the bytes, is where the first block ends. */
  lemma PartStart(s: Segment) returns (c: int)
    requires Valid(s) && 0 < s.count
    requires var ps := AllHeaders(Bytes(s)); ps == [] || (IsHeaderAt(Bytes(s), 0) && |ps| == 1)
    requires ScannedPart(s.offset, Bytes(s)).Some?
    ensures c == ScannedPart(s.offset, Bytes(s)).value - s.offset && c == FirstBlockLength(Bytes(s))
  {
    ScanHeads(Bytes(s));
    c := ScannedPart(s.offset, Bytes(s)).value - s.offset;
  }

  /** `PieceToPart` when bytes come before the trailing header prefix. */
  lemma PieceBeforePart(s: Segment, count: int, c: int) returns (n: int)
    requires Valid(s) && s.arr.Allocated? && 0 < s.count && s.offset + s.count == Length(s.arr) && HeaderLength <= count
    requires var ps := AllHeaders(Bytes(s)); ps == [] || (IsHeaderAt(Bytes(s), 0) && |ps| == 1)
    requires ScannedPart(s.offset, Bytes(s)).Some? && c == ScannedPart(s.offset, Bytes(s)).value - s.offset && 0 < c
    ensures n == if c > count then count else c
    ensures FirstBlock(Scan(s), count).Success? && Shaped(s, n, FirstBlock(Scan(s), count).value)
  {
    var data := Bytes(s);
    CutToPart(s, data);
    assert c < s.count && CutFirstBlock(ScanOf(s, data))
      == Success((Segment(s.arr, s.offset, c), ScanOf(Segment(s.arr, s.offset + c, |data| - c), data[c..])));
    n := CutAtPiece(s, count, c);
  }

  /** A cut of a block of `k` bytes, short of the end, over the bytes of `s`. */
  lemma CutAtPiece(s: Segment, count: int, k: int) returns (n: int)
    requires Valid(s) && s.arr.Allocated? && 0 < s.count && s.offset + s.count == Length(s.arr) && HeaderLength <= count
    requires 0 < k < s.count
    requires CutFirstBlock(ScanOf(s, Bytes(s)))
      == Success((Segment(s.arr, s.offset, k), ScanOf(Segment(s.arr, s.offset + k, |Bytes(s)| - k), Bytes(s)[k..])))
    ensures n == if k > count then count else k
    ensures FirstBlock(Scan(s), count).Success? && Shaped(s, n, FirstBlock(Scan(s), count).value)
  {
    n := if k > count then count else k;
    var t := Segment(s.arr, s.offset + k, s.count - k);
    BytesOfSuffix(s, t, k);
    assert Scan(s).bytes == s;
    assert ScanOf(t, Bytes(s)[k..]) == Scan(t);
    CutPiece(Scan(s), count, k, Scan(t));
  }

  /** The buffer the constructor builds over the bytes of `s` from `k` on is a retained buffer over those bytes. */
  lemma RescanHolds(s: Segment, k: int)
    requires Valid(s) && s.arr.Allocated? && s.offset + s.count == Length(s.arr) && 0 <= k < s.count
    ensures var t := Segment(s.arr, s.offset + k, s.count - k);
      Valid(t) && Bytes(t) == Bytes(s)[k..] && Scan(t) == ScanOf(t, Bytes(s)[k..]) && Holds(ScanOf(t, Bytes(s)[k..]), Bytes(s)[k..])
  {
    BytesOfSubSegment(s, k, s.count - k);
  }

  /** A cut of a block of `k > 0` bytes whose remainder has the shape of a read of `k` bytes. */
  lemma CutPiece(b: GzipBuffer, count: int, k: int, left: GzipBuffer)
    requires Valid(b.bytes) && b.bytes.arr.Allocated? && HeaderLength <= count && 0 < k <= b.bytes.count
    requires CutFirstBlock(b) == Success((Segment(b.bytes.arr, b.bytes.offset, k), left))
    requires Shaped(b.bytes, k, (Segment(b.bytes.arr, b.bytes.offset, k), left))
    ensures FirstBlock(b, count).Success? && Shaped(b.bytes, if k > count then count else k, FirstBlock(b, count).value)
  {
    if k > count {
      CutPieceOver(b, count, k, left);
    } else {
      CutPieceWithin(b, count, k, left);
    }
  }

  /** A block longer than asked for: its first `count` bytes, and the buffer over the bytes after them. */
  lemma CutPieceOver(b: GzipBuffer, count: int, k: int, left: GzipBuffer)
    requires Valid(b.bytes) && b.bytes.arr.Allocated? && 0 <= count < k <= b.bytes.count
    requires CutFirstBlock(b) == Success((Segment(b.bytes.arr, b.bytes.offset, k), left))
    ensures FirstBlock(b, count).Success? && Shaped(b.bytes, count, FirstBlock(b, count).value)
  {
    var r := (Segment(b.bytes.arr, b.bytes.offset, count), Scan(Segment(b.bytes.arr, b.bytes.offset + count, b.bytes.count - count)));
    assert FirstBlock(b, count) == Success(r);
    assert Shaped(b.bytes, count, r);
  }

  /** A block no longer than asked for: the block, and what the cut leaves. */
  lemma CutPieceWithin(b: GzipBuffer, count: int, k: int, left: GzipBuffer)
    requires Valid(b.bytes) && b.bytes.arr.Allocated? && 0 < k <= count && k <= b.bytes.count
    requires CutFirstBlock(b) == Success((Segment(b.bytes.arr, b.bytes.offset, k), left))
    ensures FirstBlock(b, count) == Success((Segment(b.bytes.arr, b.bytes.offset, k), left))
  {
  }

  /** `FirstBlockOfScan` when the bytes are a lone header prefix: the whole buffer is handed out. */
  lemma CutPartPiece(s: Segment, count: int)
    requires Valid(s) && s.arr.Allocated? && 0 < s.count && s.offset + s.count == Length(s.arr) && HeaderLength <= count
    requires var ps := AllHeaders(Bytes(s)); ps == [] || (IsHeaderAt(Bytes(s), 0) && |ps| == 1)
    requires ScannedPart(s.offset, Bytes(s)) == Some(s.offset)
    ensures FirstBlock(Scan(s), count).Success? && Shaped(s, s.count, FirstBlock(Scan(s), count).value)
  {
    var data := Bytes(s);
    CutToPart(s, data);
    assert data[0..] == data;
    assert Segment(s.arr, s.offset, s.count) == s;
    assert GetPossiblePart(Scan(s)) == Success(s);
    assert FirstBlock(Scan(s), count) == Success((s, DefaultBuffer));
  }

  /** The intended oversize branch hands out a piece that starts where the buffer does. */
  lemma OversizeInPlace(b: GzipBuffer, count: int)
    requires Valid(b.bytes) && b.bytes.arr.Allocated? && 0 <= count
    requires CutFirstBlock(b).Success? && CutFirstBlock(b).value.0.count > count
    ensures FirstBlock(b, count).Success? && FirstBlock(b, count).value.0.offset == b.bytes.offset
  {
  }

  /** The source's oversize branch slices at twice the buffer's offset and keeps a buffer without headers. */
  lemma OversizeAsWritten(b: GzipBuffer, count: int)
    requires Valid(b.bytes) && b.bytes.arr.Allocated? && 0 <= count && 0 < b.bytes.offset
    requires CutFirstBlock(b).Success? && CutFirstBlock(b).value.0.count > count
    ensures FirstBlockAsWritten(b, count).Success? ==>
      FirstBlockAsWritten(b, count).value.0.offset == 2 * b.bytes.offset
      && Valid(FirstBlockAsWritten(b, count).value.1.bytes)
      && CutFirstBlock(FirstBlockAsWritten(b, count).value.1) == Failure(NullReferenceException)
  {
    var (block, left) := CutFirstBlock(b).value;
    var sliced := Slice(block, block.offset, count);
    if sliced.Success? {
      var returnBlock := Slice(sliced.value, sliced.value.offset + count, sliced.value.count - count);
      if returnBlock.Success? && ReturnToStartAsWritten(left, returnBlock.value).Success? {
        ReturnToStartLosesHeaders(left, returnBlock.value);
      }
    }
  }

  /**
   * A retained buffer of 40 bytes at index 60 of a 100-byte array, holding one member and
   * no trailing header prefix: a read of 30 bytes throws `ArgumentException` as written
   * (the slice would start at index 120), where the intended read hands out its first 30
   * bytes.
   */
  lemma OversizeReadThrows(a: array<byte>)
    requires a.Length == 100
    requires var data := Bytes(Segment(Allocated(a), 60, 40));
      IsHeaderAt(data, 0) && |AllHeaders(data)| == 1 && ScannedPart(60, data).None?
    ensures FirstBlockAsWritten(Scan(Segment(Allocated(a), 60, 40)), 30) == Failure(ArgumentException)
    ensures FirstBlock(Scan(Segment(Allocated(a), 60, 40)), 30).Success?
    ensures HandsOut(Segment(Allocated(a), 60, 40), 30, FirstBlock(Scan(Segment(Allocated(a), 60, 40)), 30).value)
  {
    var s := Segment(Allocated(a), 60, 40);
    CutToEnd(s, Bytes(s));
    var n := PieceToEnd(s, 30);
    ShapedHandsOut(s, n, FirstBlock(Scan(s), 30).value);
  }

  /** A chunk the first read takes whole has one block at most: its piece is all of it. */
  lemma WholeChunk(s: Segment, count: int)
    requires Valid(s) && !s.arr.Null? && 0 < s.count <= count
    requires NoHeadersOrParts(Scan(s)) || ContainsOnlyOneCompressedBlockFromStart(Scan(s))
    ensures PieceLength(Bytes(s), count) == s.count
  {
    var data := Bytes(s);
    var ps := AllHeaders(data);
    ScanHeads(data);
    assert |HeadersAt(s, ps)| == |ps|;
    if ps != [] {
      assert HeadersAt(s, ps)[0] == HeaderAt(s, ps[0]);
    }
    assert ScannedPart(0, data).None?;
  }

  /** Every header of the scan lies within the scanned bytes, so owning a scan never fails. */
  lemma ScanFitsOwned(s: Segment)
    requires Valid(s)
    ensures Scan(s).headers.Some?
    ensures forall k :: 0 <= k < |Scan(s).headers.value| ==> FitsRebased(Scan(s).headers.value[k], s.offset, s.count)
  {
    var ps := AllHeaders(Bytes(s));
    AllHeadersAreHeaders(Bytes(s), 0);
    var hs := HeadersAt(s, ps);
    forall k | 0 <= k < |hs| ensures FitsRebased(hs[k], s.offset, s.count) {
      assert hs[k] == HeaderAt(s, ps[k]) && IsHeaderAt(Bytes(s), ps[k]);
    }
  }

  /** Writing again a prefix of what was just written at the same place changes nothing. */
  lemma WroteAgain(a: seq<byte>, b: seq<byte>, c: seq<byte>, offset: int, x: seq<byte>, n: int)
    requires 0 <= n <= |x| && Wrote(a, b, offset, x) && Wrote(b, c, offset, x[..n])
    ensures Wrote(a, c, offset, x)
  {
  }

  /**
   * `ReadFirstBockFromBuffer` and the copy after it: the piece of a retained buffer goes to
   * `buffer[offset..]`, and the buffer over the bytes after it is what is kept next.
   */
  method HandOut(b: GzipBuffer, ghost data: seq<byte>, count: int, buffer: array<byte>, offset: int) returns (n: int, left: GzipBuffer)
    requires Holds(b, data) && Bytes(b.bytes) == data && !IsEmpty(b) && HeaderLength <= count
    requires 0 <= offset && offset + count <= buffer.Length && buffer !in ObjectsOf(b.bytes.arr)
    modifies buffer
    ensures 0 < n <= |data| && n <= count && n == PieceLength(data, count)
    ensures Bytes(b.bytes) == data
    ensures Wrote(old(buffer[..]), buffer[..], offset, data[..n])
    ensures Holds(left, data[n..]) && Bytes(left.bytes) == data[n..]
    ensures left.bytes.arr.Allocated? ==> left.bytes.arr == b.bytes.arr
  {
    var piece := TakePiece(b, data, count);
    n := piece.0.count;
    assert Bytes(piece.0)[..n] == data[..n];
    assert buffer !in ObjectsOf(piece.0.arr) + ObjectsOf(piece.1.bytes.arr);
    ghost var kept := Bytes(piece.1.bytes);
    CopyInto(piece.0, n, Allocated(buffer), offset);
    assert Bytes(piece.1.bytes) == kept && Bytes(b.bytes) == data;
    left := piece.1;
  }

  /**
   * The piece a read hands out of the bytes `chunk` it has just read into
   * `buffer[offset..]`: all of them when they are one whole piece and no buffer is kept,
   * otherwise the first block of the buffer kept over them.
   */
  method PieceOfChunk(b: GzipBuffer, ghost chunk: seq<byte>, read: int, count: int, buffer: array<byte>, offset: int, ghost before: seq<byte>)
    returns (n: int, left: GzipBuffer, ghost rest: seq<byte>)
    requires Wrote(before, buffer[..], offset, chunk) && read == |chunk| && HeaderLength <= count && offset + count <= buffer.Length
    requires IsEmpty(b) ==> b == DefaultBuffer && PieceLength(chunk, count) == |chunk|
    requires !IsEmpty(b) ==> Holds(b, chunk) && Bytes(b.bytes) == chunk && buffer !in ObjectsOf(b.bytes.arr)
    modifies buffer
    ensures 0 <= n <= |chunk| && n == PieceLength(chunk, count) && rest == chunk[n..]
    ensures Wrote(before, buffer[..], offset, chunk)
    ensures Holds(left, rest) && Bytes(left.bytes) == rest
    ensures n == 0 ==> IsEmpty(left)
    ensures left.bytes.arr.Allocated? ==> left.bytes.arr == b.bytes.arr
  {
    n, left, rest := read, b, [];
    if !IsEmpty(b) {
      ghost var written := buffer[..];
      n, left := HandOut(b, chunk, count, buffer, offset);
      WroteAgain(before, written, buffer[..], offset, chunk, n);
      rest := chunk[n..];
    }
  }

  /**
   * The buffer `ReadGzipBufferFromStream` keeps over the bytes of `s`: none when they hold
   * no header and no header prefix, or exactly one header at their start (they are then one
   * whole piece), otherwise the scan of them on a copy.
   */
  method Retain(s: Segment, ghost data: seq<byte>, count: int) returns (b: GzipBuffer)
    requires Valid(s) && s.arr.Allocated? && Bytes(s) == data && s.count <= count && HeaderLength <= count
    ensures IsEmpty(b) ==> b == DefaultBuffer && PieceLength(data, count) == |data|
    ensures !IsEmpty(b) ==> Holds(b, data) && Bytes(b.bytes) == data && b.bytes.arr.Allocated? && fresh(b.bytes.arr.a)
  {
    b := DefaultBuffer;
    if s.count == 0 {
      return;
    }
    var scanned := NewGzipBuffer(s);
    var g := scanned.value;
    if NoHeadersOrParts(g) || ContainsOnlyOneCompressedBlockFromStart(g) {
      WholeChunk(s, count);
    } else {
      ScanFitsOwned(s);
      var owned := ToOwnedBuffer(g);
      b := owned.value;
      OwnedScanIsScan(s, data, b.bytes.arr);
    }
  }

  /** Bytes followed by others are their first `n`, then the rest of them, then the others. */
  lemma SplitAt(data: seq<byte>, n: int, rest: seq<byte>)
    requires 0 <= n <= |data|
    ensures data + rest == data[..n] + (data[n..] + rest)
  {
    assert data == data[..n] + data[n..];
  }

  /** The bytes of `rem` are the first `n` of its first `c`, the rest of those, and the bytes after them. */
  lemma Rejoin(rem: seq<byte>, c: int, n: int)
    requires 0 <= n <= c <= |rem|
    ensures [] + rem == rem[..c][..n] + (rem[..c][n..] + rem[c..])
  {
    assert rem[..c] == rem[..c][..n] + rem[..c][n..];
    assert rem == rem[..c] + rem[c..];
  }

  /** The argument checks of `Read`, in order, and what each throws. */
  function Refusal(buffer: ByteArray, offset: int, count: int): (r: Option<Exception>)
    ensures r.None? <==> !buffer.Null? && 0 <= offset && HeaderLength <= count && offset + count <= Length(buffer)
    ensures buffer.Null? ==> r == Some(ArgumentNullException)
    ensures !buffer.Null? && (offset < 0 || count < 0) ==> r == Some(ArgumentOutOfRangeException)
    ensures !buffer.Null? && 0 <= offset && 0 <= count && (Length(buffer) - offset < count || count < HeaderLength) ==>
      r == Some(ArgumentException)
  {
    if buffer.Null? then Some(ArgumentNullException)
    else if offset < 0 then Some(ArgumentOutOfRangeException)
    else if count < 0 then Some(ArgumentOutOfRangeException)
    else if Length(buffer) - offset < count then Some(ArgumentException)
    else if count == 0 then Some(ArgumentException)
    else if count < HeaderLength then Some(ArgumentException)
    else None
  }

  /**
   * `ExactlyPositionedAccoringToGzipBlockBoundsStream`. `leftBuffer` is what a read kept
   * of the bytes it took from the wrapped stream; `streamEnded` says a read of the wrapped
   * stream came back short.
   */
  class ExactStream {
    const stream: RewindableStream
    var position: int
    var streamEnded: bool
    var isFirstTimeRead: bool
    var leftBuffer: GzipBuffer
    /** The bytes `leftBuffer` covers. */
    ghost var kept: seq<byte>

    /** The wrapped stream is consistent and what is kept is a retained buffer over `kept`. */
    ghost predicate Valid()
      reads this, stream, stream.stream, ObjectsOf(leftBuffer.bytes.arr)
    {
      stream.Valid() && Holds(leftBuffer, kept) && Bytes(leftBuffer.bytes) == kept
    }

    constructor (stream: RewindableStream)
      requires stream.Valid()
      ensures Valid() && this.stream == stream && position == stream.position
      ensures isFirstTimeRead && !streamEnded && leftBuffer == DefaultBuffer && kept == []
      ensures !IsEndOfStream()
    {
      this.stream := stream;
      position := stream.position;
      streamEnded := false;
      isFirstTimeRead := true;
      leftBuffer := DefaultBuffer;
      kept := [];
    }

    /** `IsEndOfStream`: the wrapped stream has ended and nothing is kept. */
    predicate IsEndOfStream()
      reads this, stream, stream.stream, ObjectsOf(leftBuffer.bytes.arr)
      ensures IsEndOfStream() ==> streamEnded
      ensures Valid() ==> (IsEndOfStream() <==> streamEnded && kept == [])
    {
      streamEnded && IsEmpty(leftBuffer)
    }

    /** The bytes not yet handed out: the kept ones, then those the wrapped stream still has. */
    ghost function Unread(): (r: seq<byte>)
      requires Valid()
      reads this, stream, stream.stream, ObjectsOf(leftBuffer.bytes.arr), ObjectsOf(stream.returnedBuffer.arr)
    {
      kept + stream.Remaining()
    }

    /**
     * The bytes a read of `count` works on: the kept ones when there are any, none once the
     * wrapped stream has ended, otherwise what one read-until-full of `count` bytes takes
     * from the wrapped stream.
     */
    ghost function Upcoming(count: int): (r: seq<byte>)
      requires Valid() && 0 <= count
      reads this, stream, stream.stream, ObjectsOf(leftBuffer.bytes.arr), ObjectsOf(stream.returnedBuffer.arr)
    {
      if !IsEmpty(leftBuffer) then kept
      else if streamEnded then []
      else if stream.HoldsEmptyReturn() then []
      else stream.Remaining()[..Min(count, |stream.Remaining()|)]
    }

    /** The wrapped stream was read by someone else before the first read. */
    predicate Moved()
      reads this, stream
    {
      isFirstTimeRead && position != stream.position
    }

    /** `buffer` is neither the array of the kept bytes nor one the wrapped stream reads returned bytes from. */
    predicate Separate(buffer: ByteArray)
      reads this, stream
    {
      !buffer.Allocated? || (stream.Disjoint(buffer) && buffer.a !in ObjectsOf(leftBuffer.bytes.arr))
    }

    /** `CheckStreamPosition`: only the first read checks, and it throws when the wrapped stream moved. */
    method CheckStreamPosition() returns (r: Result<(), Exception>)
      requires Valid()
      modifies this
      ensures Valid() && Unread() == old(Unread())
      ensures old(Moved()) ==> r == Failure(InvalidOperationException) && unchanged(this)
      ensures !old(Moved()) ==> r == Success(()) && !isFirstTimeRead
      ensures position == old(position) && streamEnded == old(streamEnded) && leftBuffer == old(leftBuffer) && kept == old(kept)
    {
      if isFirstTimeRead {
        if position != stream.position {
          return Failure(InvalidOperationException);
        }
        isFirstTimeRead := false;
      }
      return Success(());
    }

    /**
     * `Read(buffer, offset, count)`: after the checks, reads the wrapped stream when
     * nothing is kept and it has not ended, and hands out the first block of what it holds,
     * at most `count` bytes, keeping the rest.
     */
    method Read(buffer: ByteArray, offset: int, count: int) returns (r: Result<int, Exception>)
      requires Valid() && Separate(buffer)
      modifies this, stream, stream.stream, ObjectsOf(buffer)
      ensures Valid()
      ensures r.Success? <==> !old(Moved()) && Refusal(buffer, offset, count).None?
      ensures old(Moved()) ==> r == Failure(InvalidOperationException)
      ensures !old(Moved()) ==> !isFirstTimeRead
      ensures !old(Moved()) && Refusal(buffer, offset, count).Some? ==> r == Failure(Refusal(buffer, offset, count).value)
      ensures r.Failure? ==>
        position == old(position) && streamEnded == old(streamEnded) && leftBuffer == old(leftBuffer)
        && unchanged(stream, stream.stream) && unchanged(ObjectsOf(buffer))
      ensures r.Success? ==> var data, n := old(Upcoming(count)), r.value;
        0 < count && 0 <= n <= |data| && n == PieceLength(data, count)
        && Wrote(old(Elements(buffer)), Elements(buffer), offset, if old(IsEmpty(leftBuffer)) then data else data[..n])
        && kept == data[n..] && old(Unread()) == data[..n] + Unread()
        && position == old(position) + n
        && streamEnded == (old(streamEnded) || (old(IsEmpty(leftBuffer))
             && (old(stream.HoldsEmptyReturn()) || |old(stream.Remaining())| < count)))
        && (n == 0 ==> IsEndOfStream())
      ensures r.Success? && old(!IsEmpty(leftBuffer) || streamEnded) ==> unchanged(stream, stream.stream)
      ensures old(position + |kept| == stream.position) ==> position + |kept| == stream.position
      ensures leftBuffer.bytes.arr.Allocated? ==> leftBuffer.bytes.arr == old(leftBuffer.bytes.arr) || fresh(leftBuffer.bytes.arr.a)
    {
      var checked := CheckStreamPosition();
      if checked.Failure? {
        return Failure(checked.error);
      }
      var refusal := Refusal(buffer, offset, count);
      if refusal.Some? {
        return Failure(refusal.value);
      }
      assert Upcoming(count) == old(Upcoming(count));
      var read := Deliver(buffer.a, offset, count);
      return Success(read);
    }

    /** `Read` once the checks pass: from what is kept, from the wrapped stream, or nothing once it has ended. */
    method Deliver(buffer: array<byte>, offset: int, count: int) returns (n: int)
      requires Valid() && Separate(Allocated(buffer))
      requires 0 <= offset && HeaderLength <= count && offset + count <= buffer.Length
      modifies this, stream, stream.stream, buffer
      ensures Valid() && isFirstTimeRead == old(isFirstTimeRead)
      ensures var data := old(Upcoming(count));
        0 <= n <= |data| && n == PieceLength(data, count)
        && Wrote(old(buffer[..]), buffer[..], offset, if old(IsEmpty(leftBuffer)) then data else data[..n])
        && kept == data[n..] && old(Unread()) == data[..n] + Unread()
        && position == old(position) + n
        && streamEnded == (old(streamEnded) || (old(IsEmpty(leftBuffer))
             && (old(stream.HoldsEmptyReturn()) || |old(stream.Remaining())| < count)))
        && (n == 0 ==> IsEndOfStream())
      ensures old(!IsEmpty(leftBuffer) || streamEnded) ==> unchanged(stream, stream.stream)
      ensures old(position + |kept| == stream.position) ==> position + |kept| == stream.position
      ensures leftBuffer.bytes.arr.Allocated? ==> leftBuffer.bytes.arr == old(leftBuffer.bytes.arr) || fresh(leftBuffer.bytes.arr.a)
    {
      n := 0;
      if !IsEmpty(leftBuffer) {
        n := ReadKept(buffer, offset, count);
      } else if !streamEnded {
        ghost var rem, empty := stream.Remaining(), stream.HoldsEmptyReturn();
        n := ReadFresh(buffer, offset, count, rem, empty, if empty then 0 else Min(count, |rem|));
      }
    }

    /** `Read` when bytes are kept: the wrapped stream is not touched. */
    method ReadKept(buffer: array<byte>, offset: int, count: int) returns (n: int)
      requires Valid() && !IsEmpty(leftBuffer) && buffer !in ObjectsOf(leftBuffer.bytes.arr) && stream.Disjoint(Allocated(buffer))
      requires 0 <= offset && HeaderLength <= count && offset + count <= buffer.Length
      modifies this, buffer
      ensures Valid()
      ensures var data := old(kept);
        0 < n <= |data| && n == PieceLength(data, count)
        && Wrote(old(buffer[..]), buffer[..], offset, data[..n]) && kept == data[n..]
      ensures position == old(position) + n && streamEnded == old(streamEnded) && isFirstTimeRead == old(isFirstTimeRead)
      ensures stream.Remaining() == old(stream.Remaining()) && old(Unread()) == old(kept)[..n] + Unread()
      ensures leftBuffer.bytes.arr.Allocated? ==> leftBuffer.bytes.arr == old(leftBuffer.bytes.arr)
    {
      ghost var data, rem := kept, stream.Remaining();
      var current;
      n, current := HandOut(leftBuffer, kept, count, buffer, offset);
      Keep(current, kept[n..], n, streamEnded);
      assert stream.Remaining() == rem;
      SplitAt(data, n, rem);
    }

    /**
     * `Read` when nothing is kept and the wrapped stream has not ended: one read of it, then
     * the first block. `rem` and `empty` are what the wrapped stream holds, and `c` how many
     * bytes the read takes.
     */
    method ReadFresh(buffer: array<byte>, offset: int, count: int, ghost rem: seq<byte>, ghost empty: bool, ghost c: int)
      returns (n: int)
      requires Valid() && IsEmpty(leftBuffer) && !streamEnded && stream.Disjoint(Allocated(buffer))
      requires 0 <= offset && HeaderLength <= count && offset + count <= buffer.Length
      requires rem == stream.Remaining() && empty == stream.HoldsEmptyReturn() && c == if empty then 0 else Min(count, |rem|)
      modifies this, stream, stream.stream, buffer
      ensures Valid() && stream.Disjoint(Allocated(buffer))
      ensures 0 <= n <= c <= |rem| && n == PieceLength(rem[..c], count)
      ensures Wrote(old(buffer[..]), buffer[..], offset, rem[..c])
      ensures kept == rem[..c][n..] && stream.Remaining() == rem[c..] && stream.position == old(stream.position) + c
      ensures old(Unread()) == rem[..c][..n] + Unread()
      ensures streamEnded == (empty || |rem| < count)
      ensures position == old(position) + n && isFirstTimeRead == old(isFirstTimeRead)
      ensures n == 0 ==> IsEndOfStream()
      ensures leftBuffer.bytes.arr.Allocated? ==> fresh(leftBuffer.bytes.arr.a)
    {
      ghost var b0 := buffer[..];
      var isEnd, current;
      n, isEnd, current := ReadChunk(buffer, offset, count, rem, empty, c);
      assert position == old(position) && isFirstTimeRead == old(isFirstTimeRead);
      ghost var left;
      n, current, left := PieceOfChunk(current, rem[..c], n, count, buffer, offset, b0);
      assert stream.Remaining() == rem[c..];
      Keep(current, left, n, isEnd);
      assert Unread() == rem[..c][n..] + rem[c..];
      Rejoin(rem, c, n);
    }

    /** The fields a read sets once the piece is handed out. */
    method Keep(current: GzipBuffer, ghost left: seq<byte>, n: int, isEnd: bool)
      requires stream.Valid() && Holds(current, left) && Bytes(current.bytes) == left
      modifies this
      ensures Valid() && leftBuffer == current && kept == left && position == old(position) + n && streamEnded == isEnd
      ensures isFirstTimeRead == old(isFirstTimeRead)
      ensures stream.Remaining() == old(stream.Remaining()) && Unread() == left + stream.Remaining()
    {
      leftBuffer := current;
      kept := left;
      position := position + n;
      streamEnded := isEnd;
    }

    /**
     * `ReadGzipBufferFromStream`: one read-until-full of `count` bytes into
     * `buffer[offset..]`, then `Retain` of the bytes read.
     */
    method ReadChunk(buffer: array<byte>, offset: int, count: int, ghost rem: seq<byte>, ghost empty: bool, ghost c: int)
      returns (read: int, isEnd: bool, b: GzipBuffer)
      requires stream.Valid() && stream.Disjoint(Allocated(buffer))
      requires 0 <= offset && HeaderLength <= count && offset + count <= buffer.Length
      requires rem == stream.Remaining() && empty == stream.HoldsEmptyReturn() && c == if empty then 0 else Min(count, |rem|)
      modifies stream, stream.stream, buffer
      ensures stream.Valid() && stream.Disjoint(Allocated(buffer))
      ensures read == c && c <= |rem| && isEnd == (empty || |rem| < count)
      ensures Wrote(old(buffer[..]), buffer[..], offset, rem[..c])
      ensures stream.Remaining() == rem[c..] && stream.position == old(stream.position) + c
      ensures IsEmpty(b) ==> b == DefaultBuffer && PieceLength(rem[..c], count) == c
      ensures !IsEmpty(b) ==> Holds(b, rem[..c]) && Bytes(b.bytes) == rem[..c] && b.bytes.arr.Allocated? && fresh(b.bytes.arr.a)
    {
      var res := ReadExactBufferAt(stream, buffer, offset, count);
      var (segment, end) := res.value;
      WroteSlices(old(buffer[..]), buffer[..], offset, rem[..c]);
      assert Bytes(segment) == rem[..c];
      b := Retain(segment, rem[..c], count);
      return segment.count, end, b;
    }

    /** `Seek`: not supported, and nothing changes. */
    method Seek(offset: int) returns (r: Result<int, Exception>)
      ensures r == Failure(NotSupportedException)
    {
      return Failure(NotSupportedException);
    }

    /** `SetLength`: not supported, and nothing changes. */
    method SetLength(value: int) returns (r: Result<(), Exception>)
      ensures r == Failure(NotSupportedException)
    {
      return Failure(NotSupportedException);
    }

    /** `Write`: not supported, and nothing changes. */
    method Write(buffer: ByteArray, offset: int, count: int) returns (r: Result<(), Exception>)
      ensures r == Failure(NotSupportedException)
    {
      return Failure(NotSupportedException);
    }

    /** The `Position` setter: not supported, and nothing changes. */
    method SetPosition(value: int) returns (r: Result<(), Exception>)
      ensures r == Failure(NotSupportedException)
    {
      return Failure(NotSupportedException);
    }

    /** `Length`: the wrapped stream's. */
    function Length(): (r: int)
      reads stream, stream.stream
      ensures r == |stream.stream.data|
    {
      stream.Length()
    }
  }
}
