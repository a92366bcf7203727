/**
 * IO/OutputFile.cs, and the `ReadExactFullBuffer(buffer)` helper of Helpers/StreamHelpers.cs
 * that it uses on its file stream.
 *
 * While compression runs, the output file holds the compressed bytes followed by a trailer:
 * the ASCII bytes of a label, then the offset of the input reached so far as a little-endian
 * 64-bit integer. `Append` puts new bytes where the old trailer was and writes a new
 * trailer after them, `GetLastOffset` reads the offset back so that an interrupted run can
 * resume, and `Commit` cuts the trailer off.
 */
module OutputFiles {
  import opened Binary
  import opened Wrappers
  import opened Segments
  import opened Text
  import opened Errors
  import opened ByteArrays
  import opened BytesCompare

  /** `OffsetReadingErrors`. */
  datatype OffsetReadingError = FileTooShort | NotFoundOffsetSection | FileReducedWhileReadingOffsetSection

  const LongBytesLength: int := 8

  /** `ToErrorCode`: a missing or unreadable trailer is a wrong format, a file that shrank while it was read is reported as such. */
  function ToErrorCode(value: OffsetReadingError): (r: ErrorCode)
    ensures r == OutputFileUnexpectedlyReduced <==> value == FileReducedWhileReadingOffsetSection
    ensures r == OutputFileHaveWrongFormatOrAlreadyCommitted <==> value != FileReducedWhileReadingOffsetSection
  {
    match value
    case NotFoundOffsetSection => OutputFileHaveWrongFormatOrAlreadyCommitted
    case FileTooShort => OutputFileHaveWrongFormatOrAlreadyCommitted
    case FileReducedWhileReadingOffsetSection => OutputFileUnexpectedlyReduced
  }

  /** The bytes a `Write` of `x` at position `p` leaves: `x` replaces what was there, and the file grows when `x` runs past its end. */
  function Overwrite(d: seq<byte>, p: int, x: seq<byte>): (r: seq<byte>)
    requires 0 <= p <= |d|
    ensures |r| == if p + |x| < |d| then |d| else p + |x|
    ensures r[..p] == d[..p] && r[p..p + |x|] == x
    ensures p + |x| < |d| ==> r[p + |x|..] == d[p + |x|..]
  {
    d[..p] + x + (if p + |x| < |d| then d[p + |x|..] else [])
  }

  /** Two writes in a row are one write of both. */
  lemma OverwriteTwice(d: seq<byte>, p: int, x: seq<byte>, y: seq<byte>)
    requires 0 <= p <= |d|
    ensures p + |x| <= |Overwrite(d, p, x)|
    ensures Overwrite(Overwrite(d, p, x), p + |x|, y) == Overwrite(d, p, x + y)
  {
    var e := Overwrite(d, p, x);
    var f := Overwrite(e, p + |x|, y);
    var g := Overwrite(d, p, x + y);
    assert |f| == |g|;
    forall i | 0 <= i < |f|
      ensures f[i] == g[i]
    {
      if i < p {
        assert f[i] == f[..p + |x|][i] == e[..p + |x|][i] == e[..p][i];
        assert g[i] == g[..p][i];
      } else if i < p + |x| {
        assert f[i] == f[..p + |x|][i] == e[..p + |x|][i] == e[p..p + |x|][i - p];
        assert g[i] == g[p..p + |x| + |y|][i - p];
      } else if i < p + |x| + |y| {
        assert f[i] == f[p + |x|..p + |x| + |y|][i - p - |x|];
        assert g[i] == g[p..p + |x| + |y|][i - p];
      } else {
        assert f[i] == f[p + |x| + |y|..][i - p - |x| - |y|] == e[p + |x| + |y|..][i - p - |x| - |y|];
        assert g[i] == g[p + |x| + |y|..][i - p - |x| - |y|];
      }
    }
  }

  /** A block and a trailer written at `p` that together reach the end replace everything after `p`. */
  lemma BlockAndTrailer(d: seq<byte>, p: int, b: seq<byte>, t: seq<byte>)
    requires 0 <= p <= |d| <= p + |b| + |t|
    ensures p + |b| <= |Overwrite(d, p, b)|
    ensures Overwrite(Overwrite(d, p, b), p + |b|, t) == d[..p] + b + t
  {
    OverwriteTwice(d, p, b, t);
  }

  /** The trailer `Append` writes: the label's bytes, then the offset's eight bytes. */
  function Trailer(labelBytes: seq<byte>, offset: int): (r: seq<byte>)
    requires IsInt64(offset)
    ensures |r| == |labelBytes| + LongBytesLength && r[..|labelBytes|] == labelBytes
    ensures r[|labelBytes|..] == Int64Bytes(offset)
  {
    labelBytes + Int64Bytes(offset)
  }

  /** What reading the trailer at the end of `content` finds: too few bytes, a label that is not `labelBytes`, or the offset. */
  function TrailerOffset(content: seq<byte>, labelBytes: seq<byte>): (r: Result<int, OffsetReadingError>)
    ensures r.Success? ==> IsInt64(r.value)
    ensures r == Failure(FileTooShort) <==> |content| < |labelBytes| + LongBytesLength
    ensures r != Failure(FileReducedWhileReadingOffsetSection)
  {
    var t := |labelBytes| + LongBytesLength;
    if |content| < t then Failure(FileTooShort)
    else if content[|content| - t..][..|labelBytes|] != labelBytes then Failure(NotFoundOffsetSection)
    else Success(ToInt64(content[|content| - t..][|labelBytes|..]))
  }

  /** The bytes before the trailer. */
  function Payload(content: seq<byte>, labelBytes: seq<byte>): seq<byte>
    requires |labelBytes| + LongBytesLength <= |content|
  {
    content[..|content| - (|labelBytes| + LongBytesLength)]
  }

  /** The bytes a successful `Append` leaves: the old payload (none in an empty file), the new bytes, a new trailer. */
  function Appended(content: seq<byte>, labelBytes: seq<byte>, bytes: seq<byte>, offset: int): seq<byte>
    requires IsInt64(offset)
    requires content == [] || TrailerOffset(content, labelBytes).Success?
  {
    (if content == [] then [] else Payload(content, labelBytes)) + bytes + Trailer(labelBytes, offset)
  }

  /** After an append the trailer holds the offset appended, and the payload has grown by exactly the bytes appended. */
  lemma AppendedReadsBack(content: seq<byte>, labelBytes: seq<byte>, bytes: seq<byte>, offset: int)
    requires IsInt64(offset)
    requires content == [] || TrailerOffset(content, labelBytes).Success?
    ensures Appended(content, labelBytes, bytes, offset) != []
    ensures TrailerOffset(Appended(content, labelBytes, bytes, offset), labelBytes) == Success(offset)
    ensures Payload(Appended(content, labelBytes, bytes, offset), labelBytes)
      == (if content == [] then [] else Payload(content, labelBytes)) + bytes
  {
    var p := (if content == [] then [] else Payload(content, labelBytes)) + bytes;
    var a := Appended(content, labelBytes, bytes, offset);
    var t := |labelBytes| + LongBytesLength;
    assert a == p + Trailer(labelBytes, offset);
    assert a[|a| - t..] == Trailer(labelBytes, offset);
    assert a[..|a| - t] == p;
    Int64RoundTrip(offset);
  }

  /** Writing at the start of an empty file, or where the trailer starts, leaves what `Appended` describes. */
  lemma AppendedAt(d: seq<byte>, labelBytes: seq<byte>, bytes: seq<byte>, offset: int)
    requires IsInt64(offset)
    requires d == [] || TrailerOffset(d, labelBytes).Success?
    ensures var p := if d == [] then 0 else |d| - (|labelBytes| + LongBytesLength);
      0 <= p <= |d| && Appended(d, labelBytes, bytes, offset) == d[..p] + bytes + Trailer(labelBytes, offset)
  {
  }

  /** The bytes of appends in turn: each item is the bytes appended and the offset written after them. */
  function Concat(items: seq<(seq<byte>, int)>): seq<byte> {
    if items == [] then [] else items[0].0 + Concat(items[1..])
  }

  predicate AllInt64(items: seq<(seq<byte>, int)>) {
    forall i :: 0 <= i < |items| ==> IsInt64(items[i].1)
  }

  /** The file after `Append` succeeded for each item in turn. */
  function AppendAll(content: seq<byte>, labelBytes: seq<byte>, items: seq<(seq<byte>, int)>): seq<byte>
    requires AllInt64(items)
    requires content == [] || TrailerOffset(content, labelBytes).Success?
    decreases |items|
  {
    if items == [] then content
    else
      AppendedReadsBack(content, labelBytes, items[0].0, items[0].1);
      AppendAll(Appended(content, labelBytes, items[0].0, items[0].1), labelBytes, items[1..])
  }

  /**
   * After a series of appends the trailer holds the last offset, and what lies before it
   * is what the file held before them followed by every appended block, in order; so
   * `Commit` leaves exactly that.
   */
  lemma {:induction false} AppendAllPayload(content: seq<byte>, labelBytes: seq<byte>, items: seq<(seq<byte>, int)>)
    requires AllInt64(items) && items != []
    requires content == [] || TrailerOffset(content, labelBytes).Success?
    ensures TrailerOffset(AppendAll(content, labelBytes, items), labelBytes) == Success(items[|items| - 1].1)
    ensures Payload(AppendAll(content, labelBytes, items), labelBytes)
      == (if content == [] then [] else Payload(content, labelBytes)) + Concat(items)
    decreases |items|
  {
    var c0 := if content == [] then [] else Payload(content, labelBytes);
    var c1 := Appended(content, labelBytes, items[0].0, items[0].1);
    AppendedReadsBack(content, labelBytes, items[0].0, items[0].1);
    var rest := items[1..];
    AllInt64Tail(items);
    assert AppendAll(content, labelBytes, items) == AppendAll(c1, labelBytes, rest);
    assert Concat(items) == items[0].0 + Concat(rest);
    if rest == [] {
      assert AppendAll(c1, labelBytes, rest) == c1;
    } else {
      AppendAllPayload(c1, labelBytes, rest);
      assert rest[|rest| - 1] == items[|items| - 1];
      Associate(c0, items[0].0, Concat(rest));
    }
  }

  lemma AllInt64Tail(items: seq<(seq<byte>, int)>)
    requires AllInt64(items) && items != []
    ensures AllInt64(items[1..])
  {
    forall i | 0 <= i < |items| - 1
      ensures IsInt64(items[1..][i].1)
    {
      assert items[1..][i] == items[i + 1];
    }
  }

  lemma Associate(a: seq<byte>, b: seq<byte>, c: seq<byte>)
    ensures a + b + c == a + (b + c)
  {
  }

  /** Appends from an empty file, then `Commit`: the file is the appended blocks, one after another. */
  lemma AppendsThenCommit(labelBytes: seq<byte>, items: seq<(seq<byte>, int)>)
    requires AllInt64(items) && items != []
    ensures TrailerOffset(AppendAll([], labelBytes, items), labelBytes).Success?
    ensures Payload(AppendAll([], labelBytes, items), labelBytes) == Concat(items)
  {
    AppendAllPayload([], labelBytes, items);
  }

  /** The output stream, a file stream: its bytes, its position, the most bytes one `Read` hands out, and what it can do. */
  class FileStream {
    var data: seq<byte>
    var position: int
    const chunk: int
    const canRead: bool
    const canWrite: bool
    const canSeek: bool

    predicate Valid()
      reads this
    {
      0 <= position <= |data| && 1 <= chunk
    }

    /** The bytes after the position. */
    function Rest(): (r: seq<byte>)
      requires Valid()
      reads this
      ensures |r| == |data| - position
    {
      data[position..]
    }

    constructor (data: seq<byte>, chunk: int, canRead: bool, canWrite: bool, canSeek: bool)
      requires 1 <= chunk
      ensures Valid() && this.data == data && position == 0 && this.chunk == chunk
      ensures this.canRead == canRead && this.canWrite == canWrite && this.canSeek == canSeek
    {
      this.data := data;
      position := 0;
      this.chunk := chunk;
      this.canRead := canRead;
      this.canWrite := canWrite;
      this.canSeek := canSeek;
    }

    /** `Seek(-k, SeekOrigin.End)`. */
    method SeekFromEnd(k: int)
      requires Valid() && 0 <= k <= |data|
      modifies this
      ensures Valid() && data == old(data) && position == |data| - k
    {
      position := |data| - k;
    }

    /** `Read`: the next bytes, at most `count` and at most one chunk; 0 only when nothing was asked for or nothing is left. */
    method Read(buffer: array<byte>, offset: int, count: int) returns (n: int)
      requires Valid() && 0 <= offset && 0 <= count && offset + count <= buffer.Length
      modifies this, buffer
      ensures Valid() && data == old(data) && 0 <= n <= count && n <= |old(Rest())|
      ensures count > 0 && old(Rest()) != [] ==> n > 0
      ensures position == old(position) + n && Rest() == old(Rest())[n..]
      ensures buffer[..offset] == old(buffer[..offset]) && buffer[offset..offset + n] == old(Rest())[..n]
      ensures buffer[offset + n..] == old(buffer[offset + n..])
    {
      n := count;
      if chunk < n {
        n := chunk;
      }
      if |data| - position < n {
        n := |data| - position;
      }
      forall i | 0 <= i < n {
        buffer[offset + i] := data[position + i];
      }
      position := position + n;
    }

    /** `Write`: the bytes replace those at the position, and the stream grows when they run past its end. */
    method Write(x: seq<byte>)
      requires Valid()
      modifies this
      ensures Valid() && data == Overwrite(old(data), old(position), x) && position == old(position) + |x|
    {
      data := Overwrite(data, position, x);
      position := position + |x|;
    }

    /** `SetLength` to a length no greater than the current one: the bytes after it are gone, and the position stays inside. */
    method SetLength(n: int)
      requires Valid() && 0 <= n <= |data|
      modifies this
      ensures Valid() && data == old(data)[..n] && position == Min(old(position), n)
    {
      data := data[..n];
      if n < position {
        position := n;
      }
    }
  }

  /**
   * `ReadExactFullBuffer(buffer)`: reads until the buffer is full; a read of 0 bytes first
   * is the error "End of stream". It fails exactly when the stream ends before the buffer
   * is full, and in either case the buffer starts with the bytes it read.
   */
  method ReadExactFullBuffer(stream: FileStream, buffer: array<byte>) returns (r: Result<(), string>)
    requires stream.Valid()
    modifies stream, buffer
    ensures stream.Valid() && stream.data == old(stream.data)
    ensures r.Success? <==> buffer.Length <= |old(stream.Rest())|
    ensures r.Failure? ==> r.error == "End of stream"
    ensures var k := Min(buffer.Length, |old(stream.Rest())|);
      buffer[..k] == old(stream.Rest())[..k] && stream.Rest() == old(stream.Rest())[k..]
  {
    ghost var r0 := stream.Rest();
    var offset := 0;
    var count := buffer.Length;
    while offset < count
      invariant stream.Valid() && stream.data == old(stream.data)
      invariant 0 <= offset <= count && offset <= |r0|
      invariant buffer[..offset] == r0[..offset] && stream.Rest() == r0[offset..]
      decreases count - offset
    {
      ghost var b := buffer[..];
      var read := stream.Read(buffer, offset, count - offset);
      if read == 0 {
        return Failure("End of stream");
      }
      assert buffer[..offset] == b[..offset];
      assert buffer[..offset + read] == buffer[..offset] + buffer[offset..offset + read];
      assert r0[..offset + read] == r0[..offset] + r0[offset..][..read];
      offset := offset + read;
    }
    return Success(());
  }

  /** The resumable output file: its stream, the label's bytes, the trailer's length and a buffer to read the trailer into. */
  class OutputFile {
    const outputStream: FileStream
    const offsetLabel: array<byte>
    const offsetSectionLength: int
    const offsetSectionBuffer: array<byte>

    predicate Valid()
      reads this, outputStream
    {
      outputStream.Valid()
      && offsetSectionLength == offsetLabel.Length + LongBytesLength
      && offsetSectionBuffer.Length == offsetSectionLength
      && offsetLabel != offsetSectionBuffer
    }

    /** The bytes of the label. */
    function Label(): seq<byte>
      reads this, offsetLabel
    {
      offsetLabel[..]
    }

    /** The bytes of the file. */
    function Content(): seq<byte>
      reads this, outputStream
    {
      outputStream.data
    }

    /** The constructor, once its checks have passed: the label's ASCII bytes and a trailer-sized buffer. */
    constructor (outputStream: FileStream, offsetLabel: string)
      requires outputStream.Valid()
      ensures Valid() && this.outputStream == outputStream && Label() == AsciiBytes(offsetLabel)
      ensures offsetSectionLength == |offsetLabel| + LongBytesLength
      ensures fresh(this.offsetLabel) && fresh(offsetSectionBuffer)
    {
      this.outputStream := outputStream;
      var labelBytes := AsciiBytes(offsetLabel);
      this.offsetLabel := new byte[|labelBytes|](i requires 0 <= i < |labelBytes| => labelBytes[i]);
      offsetSectionLength := |offsetLabel| + LongBytesLength;
      offsetSectionBuffer := new byte[|offsetLabel| + LongBytesLength];
    }

    /**
     * `new OutputFile(outputStream, offsetLabel)`: a null or blank label, a null stream, and
     * a stream that cannot be written, read or sought are refused, in that order.
     */
    static method Open(outputStream: FileStream?, offsetLabel: Option<string>) returns (r: Result<OutputFile, Exception>)
      requires outputStream != null ==> outputStream.Valid()
      ensures IsNullOrWhiteSpace(offsetLabel) ==> r == Failure(ArgumentException)
      ensures !IsNullOrWhiteSpace(offsetLabel) && outputStream == null ==> r == Failure(ArgumentNullException)
      ensures !IsNullOrWhiteSpace(offsetLabel) && outputStream != null ==>
        (r.Success? <==> outputStream.canWrite && outputStream.canRead && outputStream.canSeek)
      ensures r.Failure? ==> r.error == ArgumentException || r.error == ArgumentNullException
      ensures r.Success? ==> r.value.Valid() && r.value.outputStream == outputStream
      ensures r.Success? ==> r.value.Label() == AsciiBytes(offsetLabel.value) && fresh(r.value.offsetSectionBuffer)
    {
      if IsNullOrWhiteSpace(offsetLabel) {
        return Failure(ArgumentException);
      }
      if outputStream == null {
        return Failure(ArgumentNullException);
      }
      if !outputStream.canWrite || !outputStream.canRead || !outputStream.canSeek {
        return Failure(ArgumentException);
      }
      var file := new OutputFile(outputStream, offsetLabel.value);
      return Success(file);
    }

    /** `ReadOffsetFromTheOfTheStream`: reads the trailer at the end of the file; the file's bytes do not change. */
    method ReadOffsetFromTheEndOfTheStream() returns (r: Result<int, OffsetReadingError>)
      requires Valid()
      modifies outputStream, offsetSectionBuffer
      ensures Valid() && Content() == old(Content())
      ensures r == TrailerOffset(Content(), Label())
    {
      if |outputStream.data| < offsetSectionLength {
        return Failure(FileTooShort);
      }
      ghost var trailer := outputStream.data[|outputStream.data| - offsetSectionLength..];
      outputStream.SeekFromEnd(offsetSectionLength);
      var result := ReadExactFullBuffer(outputStream, offsetSectionBuffer);
      // Nothing else writes the file, so the bytes just measured are all there to read.
      assert result.Success?;
      assert offsetSectionBuffer[..] == trailer;
      var labelPart := ByteArrays.Slice(Allocated(offsetSectionBuffer), offsetLabel.Length);
      var same := UnsafeEqualsSegmentArray(labelPart.value, Allocated(offsetLabel));
      if !same.value {
        return Failure(NotFoundOffsetSection);
      }
      var valueBytes := ByteArrays.SliceFromTheEnd(Allocated(offsetSectionBuffer), LongBytesLength);
      assert Segments.Bytes(valueBytes.value) == trailer[offsetLabel.Length..];
      return Success(ToInt64(Segments.Bytes(valueBytes.value)));
    }

    /** `OverwritePreviousOffset`: reads the old trailer and reports why it is not there. */
    method OverwritePreviousOffset() returns (r: Option<ErrorCode>)
      requires Valid()
      modifies outputStream, offsetSectionBuffer
      ensures Valid() && Content() == old(Content())
      ensures r.None? <==> TrailerOffset(Content(), Label()).Success?
      ensures r.Some? ==> r.value == OutputFileHaveWrongFormatOrAlreadyCommitted
    {
      var read := ReadOffsetFromTheEndOfTheStream();
      if read.Failure? {
        return Some(ToErrorCode(read.error));
      }
      return None;
    }

    /** `WriteBlock`: the segment's bytes at the position, if there are any. */
    method WriteBlock(bytes: Segment)
      requires Valid() && Segments.Valid(bytes)
      modifies outputStream
      ensures Valid() && outputStream.position == old(outputStream.position) + bytes.count
      ensures Content() == Overwrite(old(Content()), old(outputStream.position), Segments.Bytes(bytes))
    {
      if bytes.count > 0 {
        outputStream.Write(Segments.Bytes(bytes));
      } else {
        assert Overwrite(Content(), outputStream.position, []) == Content();
      }
    }

    /** `WriteOffsetSection`: the label, then the offset's bytes, at the position. */
    method WriteOffsetSection(offset: int)
      requires Valid() && IsInt64(offset)
      modifies outputStream
      ensures Valid() && outputStream.position == old(outputStream.position) + offsetSectionLength
      ensures Content() == Overwrite(old(Content()), old(outputStream.position), Trailer(Label(), offset))
    {
      outputStream.Write(offsetLabel[..]);
      outputStream.Write(Int64Bytes(offset));
      OverwriteTwice(old(Content()), old(outputStream.position), offsetLabel[..], Int64Bytes(offset));
    }

    /** `WriteBlock` and then `WriteOffsetSection`, from a position where they reach the end: they replace everything after it. */
    method WriteBlockAndOffsetSection(bytes: Segment, offset: int)
      requires Valid() && Segments.Valid(bytes) && IsInt64(offset)
      requires |outputStream.data| <= outputStream.position + offsetSectionLength
      modifies outputStream
      ensures Valid()
      ensures Content() == old(Content())[..old(outputStream.position)] + Segments.Bytes(bytes) + Trailer(Label(), offset)
    {
      ghost var d := Content();
      ghost var p := outputStream.position;
      WriteBlock(bytes);
      WriteOffsetSection(offset);
      BlockAndTrailer(d, p, Segments.Bytes(bytes), Trailer(Label(), offset));
    }

    /**
     * `Append(bytes, offset)`: a negative offset throws; a file that is not empty and has no
     * trailer is reported as a wrong format and left alone; otherwise the bytes take the old
     * trailer's place and a trailer with the new offset follows them.
     */
    method Append(bytes: Segment, offset: int) returns (r: Result<Option<ErrorCode>, Exception>)
      requires Valid() && Segments.Valid(bytes) && IsInt64(offset)
      requires offsetSectionBuffer !in ObjectsOf(bytes.arr)
      modifies outputStream, offsetSectionBuffer
      ensures Valid()
      ensures r.Failure? <==> offset < 0
      ensures r.Failure? ==> r.error == ArgumentException
      ensures r == Success(None) <==> 0 <= offset && (old(Content()) == [] || TrailerOffset(old(Content()), Label()).Success?)
      ensures r.Success? && r.value.Some? ==> r.value.value == OutputFileHaveWrongFormatOrAlreadyCommitted
      ensures r == Success(None) ==> Content() == Appended(old(Content()), Label(), Segments.Bytes(bytes), offset)
      ensures r != Success(None) ==> Content() == old(Content())
    {
      if offset < 0 {
        return Failure(ArgumentException);
      }
      if |outputStream.data| > 0 {
        var offsetOverwritingError := OverwritePreviousOffset();
        if offsetOverwritingError.Some? {
          return Success(offsetOverwritingError);
        }
        outputStream.SeekFromEnd(offsetSectionLength);
      }
      ghost var d := Content();
      WriteBlockAndOffsetSection(bytes, offset);
      AppendedAt(d, Label(), Segments.Bytes(bytes), offset);
      return Success(None);
    }

    /** `GetLastOffset`: the offset in the trailer; 0 for an empty file; a wrong format otherwise. */
    method GetLastOffset() returns (r: Result<int, ErrorCode>)
      requires Valid()
      modifies outputStream, offsetSectionBuffer
      ensures Valid() && Content() == old(Content())
      ensures TrailerOffset(Content(), Label()).Success? ==> r == Success(TrailerOffset(Content(), Label()).value)
      ensures Content() == [] ==> r == Success(0)
      ensures r.Failure? <==> Content() != [] && TrailerOffset(Content(), Label()).Failure?
      ensures r.Failure? ==> r.error == OutputFileHaveWrongFormatOrAlreadyCommitted
    {
      var read := ReadOffsetFromTheEndOfTheStream();
      if read.Failure? {
        if |outputStream.data| == 0 {
          return Success(0);
        }
        return Failure(ToErrorCode(read.error));
      }
      return Success(read.value);
    }

    /** `Commit`: a file without a trailer is a wrong format and left alone; otherwise the trailer is cut off. */
    method Commit() returns (r: Option<ErrorCode>)
      requires Valid()
      modifies outputStream, offsetSectionBuffer
      ensures Valid()
      ensures r.None? <==> TrailerOffset(old(Content()), Label()).Success?
      ensures r.None? ==> Content() == Payload(old(Content()), Label())
      ensures r.Some? ==> r.value == OutputFileHaveWrongFormatOrAlreadyCommitted && Content() == old(Content())
    {
      if |outputStream.data| < offsetSectionLength {
        return Some(OutputFileHaveWrongFormatOrAlreadyCommitted);
      }
      var read := ReadOffsetFromTheEndOfTheStream();
      if read.Failure? {
        return Some(ToErrorCode(read.error));
      }
      outputStream.SetLength(|outputStream.data| - offsetSectionLength);
      return None;
    }
  }
}
