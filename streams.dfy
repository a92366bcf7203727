/**
 * Decompression/Streams/RewindableReadonlyStream.cs and Helpers/StreamHelpers.cs.
 *
 * `ByteSource` stands for the .NET stream being wrapped (a file or memory stream): its
 * bytes, a read position and the most bytes one `Read` hands out, so that a read may
 * return fewer bytes than asked for, as `Stream.Read` allows. `RewindableStream` is the
 * read-only stream that lets a reader push the tail of what it read back in front of
 * the remaining bytes. The read-until-full helpers work on it, the stream every caller in the
 * decompression path hands them; the one the output file uses on its file stream is
 * modelled with that stream.
 */
module Streams {
  import opened Binary
  import opened Wrappers
  import opened Segments

  /** `after` is `before` with `x` written at `offset` and nothing else changed. */
  predicate Wrote(before: seq<byte>, after: seq<byte>, offset: int, x: seq<byte>) {
    0 <= offset && offset + |x| <= |before| && |after| == |before|
    && forall i :: 0 <= i < |after| ==> after[i] == if offset <= i < offset + |x| then x[i - offset] else before[i]
  }

  /** A write, told by slices: the bytes before and after the window are kept, the window holds `x`. */
  lemma WroteSlices(before: seq<byte>, after: seq<byte>, offset: int, x: seq<byte>)
    requires Wrote(before, after, offset, x)
    ensures after[..offset] == before[..offset]
    ensures after[offset..offset + |x|] == x
    ensures after[offset + |x|..] == before[offset + |x|..]
  {
  }

  /** Two writes at adjacent places are one write of both. */
  lemma WroteTwice(a: seq<byte>, b: seq<byte>, c: seq<byte>, offset: int, x: seq<byte>, y: seq<byte>)
    requires Wrote(a, b, offset, x) && Wrote(b, c, offset + |x|, y)
    ensures Wrote(a, c, offset, x + y)
  {
  }

  /** A write of the next `k` bytes of `r0` after a write of its first `n` is a write of its first `n + k`. */
  lemma WroteStep(b0: seq<byte>, b: seq<byte>, c: seq<byte>, offset: int, r0: seq<byte>, n: int, k: int, rem: seq<byte>)
    requires 0 <= n && 0 <= k && n + k <= |r0| && rem == r0[n..]
    requires Wrote(b0, b, offset, r0[..n]) && Wrote(b, c, offset + n, rem[..k])
    ensures Wrote(b0, c, offset, r0[..n + k])
  {
    ReadMore(r0, n, k);
    WroteTwice(b0, b, c, offset, r0[..n], r0[n..n + k]);
  }

  /** Reading `n` more of the bytes `r0` after the first `k`: the first `k + n` have been read. */
  lemma ReadMore(r0: seq<byte>, k: int, n: int)
    requires 0 <= k && 0 <= n && k + n <= |r0|
    ensures r0[k..][..n] == r0[k..k + n]
    ensures r0[..k] + r0[k..k + n] == r0[..k + n]
    ensures r0[k..][n..] == r0[k + n..]
  {
    assert r0[..k + n] == r0[..k] + r0[k..k + n];
  }

  /** Slicing a concatenation within its first part. */
  lemma SlicesOfConcat(a: seq<byte>, b: seq<byte>, n: int)
    requires 0 <= n <= |a|
    ensures (a + b)[..n] == a[..n] && (a + b)[n..] == a[n..] + b
  {
  }

  /** The wrapped stream: its bytes, its position and the largest chunk one `Read` returns. */
  class ByteSource {
    const data: seq<byte>
    var position: int
    const chunk: int

    predicate Valid()
      reads this
    {
      0 <= position <= |data| && 1 <= chunk
    }

    /** The bytes a reader has still to get. */
    function Rest(): (r: seq<byte>)
      requires Valid()
      reads this
      ensures |r| == |data| - position
    {
      data[position..]
    }

    constructor (data: seq<byte>, position: int, chunk: int)
      requires 0 <= position <= |data| && 1 <= chunk
      ensures Valid() && this.data == data && this.position == position && this.chunk == chunk
    {
      this.data := data;
      this.position := position;
      this.chunk := chunk;
    }

    /**
     * `Stream.Read` on arguments its caller has checked: copies the next bytes to
     * `buffer[offset..]` and returns how many; 0 only when nothing was asked for or the
     * stream is at its end, and otherwise at most `count`.
     */
    method Read(buffer: array<byte>, offset: int, count: int) returns (n: int)
      requires Valid() && 0 <= offset && 0 <= count && offset + count <= buffer.Length
      modifies this, buffer
      ensures Valid() && 0 <= n <= count && n <= |old(Rest())|
      ensures count > 0 && old(Rest()) != [] ==> n > 0
      ensures position == old(position) + n && Rest() == old(Rest())[n..]
      ensures Wrote(old(buffer[..]), buffer[..], offset, old(Rest())[..n])
    {
      n := count;
      if chunk < n {
        n := chunk;
      }
      if |data| - position < n {
        n := |data| - position;
      }
      ghost var rest := Rest();
      forall i | 0 <= i < n {
        buffer[offset + i] := data[position + i];
      }
      position := position + n;
    }
  }

  /** The stream a splitter reads: the wrapped stream, preceded by the bytes readers have returned. */
  class RewindableStream {
    const stream: ByteSource
    /** `returnedBuffer`: the returned bytes not yet read again; the default segment when there are none. */
    var returnedBuffer: Segment
    var position: int
    /** Whether the last read left returned bytes unread. */
    var someBufferLeft: bool

    /** The position counts the wrapped stream's bytes read, less those returned and not yet read again. */
    predicate Valid()
      reads this, stream
    {
      stream.Valid() && Segments.Valid(returnedBuffer) && 0 <= position
      && position + returnedBuffer.count == stream.position
      && (someBufferLeft ==> returnedBuffer.count > 0)
    }

    /** The bytes the next reads deliver: the returned ones, then the wrapped stream's. */
    ghost function Remaining(): (r: seq<byte>)
      requires Valid()
      reads this, stream, ObjectsOf(returnedBuffer.arr)
    {
      Bytes(returnedBuffer) + stream.Rest()
    }

    /** A segment with an array but no bytes was returned: the next read returns 0 whatever follows. */
    predicate HoldsEmptyReturn()
      reads this
    {
      !returnedBuffer.arr.Null? && returnedBuffer.count == 0
    }

    /** `buffer` is not the array that holds returned bytes still to be read. */
    predicate Disjoint(buffer: ByteArray)
      reads this
    {
      !buffer.Allocated? || buffer.a !in ObjectsOf(returnedBuffer.arr)
    }

    constructor (stream: ByteSource)
      requires stream.Valid()
      ensures Valid() && this.stream == stream && position == stream.position
      ensures returnedBuffer == Default && !someBufferLeft
    {
      this.stream := stream;
      position := stream.position;
      returnedBuffer := Default;
      someBufferLeft := false;
    }

    function Length(): (r: int)
      reads stream
    {
      |stream.data|
    }

    /** `IsReadToTheEnd`: the position, which counts returned bytes as unread, is the wrapped stream's length. */
    predicate IsReadToTheEnd()
      reads this, stream
      ensures Valid() && IsReadToTheEnd() ==> returnedBuffer.count == 0 && stream.position == |stream.data|
    {
      position == |stream.data|
    }

    /** At the end exactly when no byte remains. */
    lemma ReadToTheEndIffNothingRemains()
      requires Valid()
      ensures IsReadToTheEnd() <==> Remaining() == []
    {
    }

    /**
     * `Read`: the argument checks of `Stream.Read`; then, while returned bytes are held,
     * as many of them as asked for and fit and no byte of the wrapped stream; otherwise a
     * read of the wrapped stream.
     */
    method Read(buffer: ByteArray, offset: int, count: int) returns (r: Result<int, Exception>)
      requires Valid() && Disjoint(buffer)
      modifies this, stream, ObjectsOf(buffer)
      ensures Valid()
      ensures buffer.Null? ==> r == Failure(ArgumentNullException)
      ensures !buffer.Null? && (offset < 0 || count < 0) ==> r == Failure(ArgumentOutOfRangeException)
      ensures !buffer.Null? && 0 <= offset && 0 <= count && Segments.Length(buffer) - offset < count ==> r == Failure(ArgumentException)
      ensures r.Success? <==> !buffer.Null? && 0 <= offset && 0 <= count && offset + count <= Segments.Length(buffer)
      ensures r.Failure? ==> unchanged(this, stream) && unchanged(ObjectsOf(buffer))
      ensures r.Success? ==> 0 <= r.value <= count && r.value <= |old(Remaining())|
      ensures r.Success? ==> Wrote(old(Elements(buffer)), Elements(buffer), offset, old(Remaining())[..r.value])
      ensures r.Success? ==> Remaining() == old(Remaining())[r.value..] && position == old(position) + r.value
      ensures r.Success? && count > 0 && old(Remaining()) != [] && !old(HoldsEmptyReturn()) ==> r.value > 0
      ensures r.Success? && old(HoldsEmptyReturn()) ==> r.value == 0
      ensures r.Success? ==> !HoldsEmptyReturn() && (someBufferLeft <==> returnedBuffer.count > 0)
      ensures returnedBuffer.arr == old(returnedBuffer.arr) || returnedBuffer == Default
      ensures Disjoint(buffer)
    {
      if buffer.Null? {
        return Failure(ArgumentNullException);
      }
      if offset < 0 || count < 0 {
        return Failure(ArgumentOutOfRangeException);
      }
      if Segments.Length(buffer) - offset < count {
        return Failure(ArgumentException);
      }
      var n := ReadChecked(buffer, offset, count);
      return Success(n);
    }

    /** `Read` once its arguments have passed the checks. */
    method ReadChecked(buffer: ByteArray, offset: int, count: int) returns (n: int)
      requires Valid() && Disjoint(buffer)
      requires !buffer.Null? && 0 <= offset && 0 <= count && offset + count <= Segments.Length(buffer)
      modifies this, stream, ObjectsOf(buffer)
      ensures Valid() && 0 <= n <= count && n <= |old(Remaining())|
      ensures Wrote(old(Elements(buffer)), Elements(buffer), offset, old(Remaining())[..n])
      ensures Remaining() == old(Remaining())[n..] && position == old(position) + n
      ensures count > 0 && old(Remaining()) != [] && !old(HoldsEmptyReturn()) ==> n > 0
      ensures old(HoldsEmptyReturn()) ==> n == 0
      ensures !HoldsEmptyReturn() && (someBufferLeft <==> returnedBuffer.count > 0)
      ensures returnedBuffer.count == Unread(old(returnedBuffer.count), n)
      ensures returnedBuffer.arr == old(returnedBuffer.arr) || returnedBuffer == Default
      ensures Disjoint(buffer)
    {
      if !returnedBuffer.arr.Null? {
        n := ReadReturned(buffer, offset, count);
      } else {
        n := ReadWrapped(buffer, offset, count);
      }
    }

    /** The branch of `Read` that reads the wrapped stream, when no returned bytes are held. */
    method ReadWrapped(buffer: ByteArray, offset: int, count: int) returns (n: int)
      requires Valid() && returnedBuffer.arr.Null?
      requires !buffer.Null? && 0 <= offset && 0 <= count && offset + count <= Segments.Length(buffer)
      modifies this, stream, ObjectsOf(buffer)
      ensures Valid() && 0 <= n <= count && n <= |old(Remaining())|
      ensures Wrote(old(Elements(buffer)), Elements(buffer), offset, old(Remaining())[..n])
      ensures Remaining() == old(Remaining())[n..] && position == old(position) + n
      ensures count > 0 && old(Remaining()) != [] ==> n > 0
      ensures returnedBuffer == old(returnedBuffer) && someBufferLeft == old(someBufferLeft)
    {
      if buffer.SharedEmpty? {
        assert Wrote(Elements(buffer), Elements(buffer), offset, Remaining()[..0]);
        return 0;
      }
      n := stream.Read(buffer.a, offset, count);
      position := position + n;
    }

    /** The branch of `Read` that serves returned bytes. */
    method ReadReturned(buffer: ByteArray, offset: int, count: int) returns (n: int)
      requires Valid() && Disjoint(buffer) && !returnedBuffer.arr.Null?
      requires !buffer.Null? && 0 <= offset && 0 <= count && offset + count <= Segments.Length(buffer)
      modifies this, ObjectsOf(buffer)
      ensures Valid() && 0 <= n <= count && n <= |old(Remaining())|
      ensures n == if old(returnedBuffer.count) < count then old(returnedBuffer.count) else count
      ensures Wrote(old(Elements(buffer)), Elements(buffer), offset, old(Remaining())[..n])
      ensures Remaining() == old(Remaining())[n..] && position == old(position) + n
      ensures !HoldsEmptyReturn() && (someBufferLeft <==> returnedBuffer.count > 0)
      ensures returnedBuffer.arr == old(returnedBuffer.arr) || returnedBuffer == Default
      ensures Disjoint(buffer)
    {
      n := if returnedBuffer.count < count then returnedBuffer.count else count;
      ghost var rem := Remaining();
      SlicesOfConcat(Bytes(returnedBuffer), stream.Rest(), n);
      CopyInto(returnedBuffer, n, buffer, offset);
      assert Remaining() == rem;
      Consume(n);
    }

    /** The position passes the first `n` returned bytes; the default segment replaces a window with nothing left. */
    method Consume(n: int)
      requires Valid() && !returnedBuffer.arr.Null? && 0 <= n <= returnedBuffer.count
      modifies this
      ensures Valid() && Remaining() == old(Remaining())[n..] && position == old(position) + n
      ensures !HoldsEmptyReturn() && (someBufferLeft <==> returnedBuffer.count > 0)
      ensures returnedBuffer.arr == old(returnedBuffer.arr) || returnedBuffer == Default
    {
      var current := returnedBuffer;
      SlicesOfConcat(Bytes(current), stream.Rest(), n);
      var left := current.count - n;
      if left > 0 {
        returnedBuffer := Segment(current.arr, current.offset + n, left);
        BytesOfSuffix(current, returnedBuffer, n);
      } else {
        returnedBuffer := Default;
      }
      someBufferLeft := returnedBuffer.count > 0;
      position := position + n;
    }

    /**
     * `ReturnTailOfReadedBytes`: refused while the last read left returned bytes unread, and
     * when the position would go below 0; otherwise the position moves back by the bytes'
     * count and they are queued AFTER any bytes returned before and not read since.
     */
    method ReturnTailOfReadedBytes(bytes: Segment) returns (r: Result<(), Exception>)
      requires Valid() && Segments.Valid(bytes)
      modifies this
      ensures Valid()
      ensures old(someBufferLeft) ==> r == Failure(InvalidOperationException)
      ensures !old(someBufferLeft) && old(position) < bytes.count ==> r == Failure(ArgumentException)
      ensures r.Success? <==> !old(someBufferLeft) && bytes.count <= old(position)
      ensures r.Failure? ==> unchanged(this)
      ensures r.Success? ==> position == old(position) - bytes.count && !someBufferLeft
      ensures r.Success? ==> Remaining() == old(Bytes(returnedBuffer)) + old(Bytes(bytes)) + old(stream.Rest())
      ensures r.Success? ==> (HoldsEmptyReturn() <==> bytes.count == 0 && (old(returnedBuffer.arr.Null?) || old(HoldsEmptyReturn())))
      ensures r.Success? && !old(HoldsEmptyReturn()) ==>
        returnedBuffer.count == 0 || returnedBuffer == old(returnedBuffer) || (returnedBuffer.arr.Allocated? && fresh(returnedBuffer.arr.a))
    {
      if someBufferLeft {
        return Failure(InvalidOperationException);
      }
      var newPosition := position - bytes.count;
      if newPosition < 0 {
        return Failure(ArgumentException);
      }
      var joined := Requeued(returnedBuffer, bytes);
      position := newPosition;
      returnedBuffer := joined;
      return Success(());
    }
  }

  /**
   * The returned bytes after `bytes` are returned: a copy of `bytes` when none were held,
   * otherwise `AppendSegment` of the held ones and `bytes`, in that order.
   */
  method Requeued(held: Segment, bytes: Segment) returns (r: Segment)
    requires Valid(held) && Valid(bytes)
    ensures Valid(r) && r.count == held.count + bytes.count
    ensures Bytes(r) == Bytes(held) + Bytes(bytes)
    ensures !r.arr.Null? && r.count == 0 <==> bytes.count == 0 && (held.arr.Null? || held.count == 0)
    ensures !(!held.arr.Null? && held.count == 0) ==> r.count == 0 || r == held || (r.arr.Allocated? && fresh(r.arr.a))
  {
    if held.arr.Null? {
      r := Copy(bytes);
    } else {
      r := AppendSegment(held, bytes);
    }
  }

  /** How many of `pending` returned bytes are still held after a read of `n` bytes. */
  function Unread(pending: int, n: int): (r: int)
    ensures r >= 0
  {
    if n <= pending then pending - n else 0
  }

  /** `Buffer.BlockCopy` of the first `n` bytes of `src` to `buffer[offset..]`, another array than the source's. */
  method CopyInto(src: Segment, n: int, buffer: ByteArray, offset: int)
    requires Valid(src) && 0 <= n <= src.count
    requires !buffer.Null? && 0 <= offset && offset + n <= Length(buffer)
    requires n > 0 ==> buffer.Allocated? && buffer.a !in ObjectsOf(src.arr)
    modifies ObjectsOf(buffer)
    ensures Bytes(src) == old(Bytes(src))
    ensures Wrote(old(Elements(buffer)), Elements(buffer), offset, Bytes(src)[..n])
  {
    if n > 0 {
      var source := src.arr.a;
      var target := buffer.a;
      ghost var copied := source[src.offset..src.offset + n];
      assert Bytes(src)[..n] == copied;
      forall i | 0 <= i < n {
        target[offset + i] := source[src.offset + i];
      }
      assert target[offset..offset + n] == copied;
    }
  }

  /**
   * `ReadExactBuffer(buffer)`: reads until the buffer is full or a read returns 0. The
   * result covers the bytes read, from the buffer's start; the flag says a read
   * returned 0, which happens only at the end of the bytes, or at once when the stream
   * held an empty returned segment.
   */
  method ReadExactBuffer(stream: RewindableStream, buffer: array<byte>) returns (segment: Segment, streamIsEnd: bool)
    requires stream.Valid() && stream.Disjoint(Allocated(buffer))
    modifies stream, stream.stream, buffer
    ensures stream.Valid() && Valid(segment) && segment.arr == Allocated(buffer) && segment.offset == 0
    ensures segment.count <= |old(stream.Remaining())|
    ensures Bytes(segment) == old(stream.Remaining())[..segment.count]
    ensures stream.Remaining() == old(stream.Remaining())[segment.count..]
    ensures stream.position == old(stream.position) + segment.count
    ensures !streamIsEnd ==> segment.count == buffer.Length
    ensures streamIsEnd ==> segment.count < buffer.Length
    ensures old(stream.HoldsEmptyReturn()) && buffer.Length > 0 ==> segment.count == 0 && streamIsEnd
    ensures !old(stream.HoldsEmptyReturn()) ==> segment.count == Min(buffer.Length, |old(stream.Remaining())|)
    ensures !old(stream.HoldsEmptyReturn()) ==> (streamIsEnd <==> |old(stream.Remaining())| < buffer.Length)
    ensures buffer.Length > 0 ==> !stream.HoldsEmptyReturn() && (stream.someBufferLeft <==> stream.returnedBuffer.count > 0)
    ensures stream.returnedBuffer.count == Unread(old(stream.returnedBuffer.count), segment.count)
    ensures stream.returnedBuffer.arr == old(stream.returnedBuffer.arr) || stream.returnedBuffer == Default
    ensures stream.Disjoint(Allocated(buffer))
  {
    var n, end := ReadExactInto(stream, buffer, 0, buffer.Length);
    return Segment(Allocated(buffer), 0, n), end;
  }

  /**
   * The loop `ReadExactBuffer(buffer, offset, count)` and `ReadExactBuffer(buffer)` share:
   * fills `buffer[offset..offset + count]` from the stream until it is full or a read
   * returns 0, and says how many bytes it read.
   */
  method ReadExactInto(stream: RewindableStream, buffer: array<byte>, offset: int, count: int) returns (n: int, streamIsEnd: bool)
    requires stream.Valid() && stream.Disjoint(Allocated(buffer))
    requires 0 <= offset && 0 <= count && offset + count <= buffer.Length
    modifies stream, stream.stream, buffer
    ensures stream.Valid() && 0 <= n <= count && n <= |old(stream.Remaining())|
    ensures Wrote(old(buffer[..]), buffer[..], offset, old(stream.Remaining())[..n])
    ensures stream.Remaining() == old(stream.Remaining())[n..]
    ensures stream.position == old(stream.position) + n
    ensures !streamIsEnd ==> n == count
    ensures streamIsEnd ==> n < count
    ensures old(stream.HoldsEmptyReturn()) && count > 0 ==> n == 0 && streamIsEnd
    ensures !old(stream.HoldsEmptyReturn()) ==> n == Min(count, |old(stream.Remaining())|)
    ensures !old(stream.HoldsEmptyReturn()) ==> (streamIsEnd <==> |old(stream.Remaining())| < count)
    ensures count > 0 ==> !stream.HoldsEmptyReturn() && (stream.someBufferLeft <==> stream.returnedBuffer.count > 0)
    ensures stream.returnedBuffer.count == Unread(old(stream.returnedBuffer.count), n)
    ensures stream.returnedBuffer.arr == old(stream.returnedBuffer.arr) || stream.returnedBuffer == Default
    ensures stream.Disjoint(Allocated(buffer))
  {
    ghost var r0 := stream.Remaining();
    ghost var b0 := buffer[..];
    ghost var arr0 := stream.returnedBuffer.arr;
    ghost var stale := stream.HoldsEmptyReturn();
    streamIsEnd := false;
    n := 0;
    assert Wrote(b0, buffer[..], offset, r0[..0]);
    while n < count
      invariant stream.Valid() && stream.Disjoint(Allocated(buffer))
      invariant 0 <= n <= count && n <= |r0|
      invariant Wrote(b0, buffer[..], offset, r0[..n]) && stream.Remaining() == r0[n..]
      invariant stream.position == old(stream.position) + n
      invariant stream.HoldsEmptyReturn() <==> stale
      invariant stale ==> n == 0
      invariant n > 0 ==> !stream.HoldsEmptyReturn() && (stream.someBufferLeft <==> stream.returnedBuffer.count > 0)
      invariant stream.returnedBuffer.count == Unread(old(stream.returnedBuffer.count), n)
      invariant stream.returnedBuffer.arr == arr0 || stream.returnedBuffer == Default
      decreases count - n
    {
      var next := ReadNext(stream, buffer, offset, count, n, b0, r0);
      if next == n {
        streamIsEnd := true;
        return;
      }
      n := next;
    }
  }

  /** One turn of the read-until-full loop: the next read goes right after the `n` bytes already read; `next` counts them all. */
  method ReadNext(stream: RewindableStream, buffer: array<byte>, offset: int, count: int, n: int, ghost b0: seq<byte>, ghost r0: seq<byte>)
    returns (next: int)
    requires stream.Valid() && stream.Disjoint(Allocated(buffer))
    requires 0 <= offset && 0 <= n < count && offset + count <= buffer.Length && n <= |r0|
    requires Wrote(b0, buffer[..], offset, r0[..n]) && stream.Remaining() == r0[n..]
    modifies stream, stream.stream, buffer
    ensures stream.Valid() && stream.Disjoint(Allocated(buffer))
    ensures n <= next <= count && next <= |r0|
    ensures Wrote(b0, buffer[..], offset, r0[..next]) && stream.Remaining() == r0[next..]
    ensures stream.position == old(stream.position) + (next - n)
    ensures next == n ==> r0[n..] == [] || old(stream.HoldsEmptyReturn())
    ensures old(stream.HoldsEmptyReturn()) ==> next == n
    ensures !stream.HoldsEmptyReturn() && (stream.someBufferLeft <==> stream.returnedBuffer.count > 0)
    ensures stream.returnedBuffer.count == Unread(old(stream.returnedBuffer.count), next - n)
    ensures stream.returnedBuffer.arr == old(stream.returnedBuffer.arr) || stream.returnedBuffer == Default
  {
    ghost var b := Elements(Allocated(buffer));
    ghost var rem := stream.Remaining();
    var read := stream.ReadChecked(Allocated(buffer), offset + n, count - n);
    ghost var c := Elements(Allocated(buffer));
    WroteStep(b0, b, c, offset, r0, n, read, rem);
    ReadMore(r0, n, read);
    next := n + read;
  }

  /** `ReadExactFullBuffer(bufferSize)`: `ReadExactBuffer` into a fresh buffer of that size; a negative size throws. */
  method ReadExactFullBufferOfSize(stream: RewindableStream, bufferSize: int) returns (r: Result<(Segment, bool), Exception>)
    requires stream.Valid()
    modifies stream, stream.stream
    ensures stream.Valid()
    ensures r.Failure? <==> bufferSize < 0
    ensures r.Failure? ==> r.error == OverflowException && unchanged(stream, stream.stream)
    ensures r.Success? ==> var (segment, end) := r.value;
      Valid(segment) && segment.arr.Allocated? && fresh(segment.arr.a) && segment.offset == 0
      && segment.arr.a.Length == bufferSize && segment.count <= |old(stream.Remaining())|
      && Bytes(segment) == old(stream.Remaining())[..segment.count]
      && stream.Remaining() == old(stream.Remaining())[segment.count..]
      && stream.position == old(stream.position) + segment.count
      && (!end <==> segment.count == bufferSize)
      && (old(stream.HoldsEmptyReturn()) && bufferSize > 0 ==> segment.count == 0 && end)
      && (!old(stream.HoldsEmptyReturn()) ==> segment.count == Min(bufferSize, |old(stream.Remaining())|))
      && (!old(stream.HoldsEmptyReturn()) ==> (end <==> |old(stream.Remaining())| < bufferSize))
      && (bufferSize > 0 ==> !stream.HoldsEmptyReturn() && (stream.someBufferLeft <==> stream.returnedBuffer.count > 0))
      && stream.returnedBuffer.count == Unread(old(stream.returnedBuffer.count), segment.count)
      && (stream.returnedBuffer.arr == old(stream.returnedBuffer.arr) || stream.returnedBuffer == Default)
  {
    if bufferSize < 0 {
      return Failure(OverflowException);
    }
    var buffer := new byte[bufferSize];
    var segment, end := ReadExactBuffer(stream, buffer);
    return Success((segment, end));
  }

  /**
   * `ReadExactBuffer(buffer, offset, count)`: the same loop on `buffer[offset..offset + count]`;
   * the result covers the bytes read from `offset`. Arguments `Read` refuses throw at the
   * first read; with nothing to read, the segment constructor checks the offset.
   */
  method ReadExactBufferAt(stream: RewindableStream, buffer: array<byte>, offset: int, count: int)
    returns (r: Result<(Segment, bool), Exception>)
    requires stream.Valid() && stream.Disjoint(Allocated(buffer))
    modifies stream, stream.stream, buffer
    ensures stream.Valid()
    ensures r.Success? <==> 0 <= offset && ((count <= 0 && offset <= buffer.Length) || (count > 0 && offset + count <= buffer.Length))
    ensures r.Failure? ==> unchanged(stream, stream.stream, buffer)
    ensures count > 0 && offset < 0 ==> r == Failure(ArgumentOutOfRangeException)
    ensures count > 0 && 0 <= offset && buffer.Length - offset < count ==> r == Failure(ArgumentException)
    ensures r.Success? ==> var (segment, end) := r.value;
      Valid(segment) && segment.arr == Allocated(buffer) && segment.offset == offset
      && segment.count <= |old(stream.Remaining())|
      && Wrote(old(buffer[..]), buffer[..], offset, old(stream.Remaining())[..segment.count])
      && stream.Remaining() == old(stream.Remaining())[segment.count..]
      && stream.position == old(stream.position) + segment.count
      && (!end ==> segment.count == if count > 0 then count else 0)
      && (end ==> segment.count < count)
      && (old(stream.HoldsEmptyReturn()) && count > 0 ==> segment.count == 0 && end)
      && (!old(stream.HoldsEmptyReturn()) && count > 0 ==> segment.count == Min(count, |old(stream.Remaining())|))
      && (!old(stream.HoldsEmptyReturn()) && count > 0 ==> (end <==> |old(stream.Remaining())| < count))
      && (count > 0 ==> !stream.HoldsEmptyReturn() && (stream.someBufferLeft <==> stream.returnedBuffer.count > 0))
      && (stream.returnedBuffer.arr == old(stream.returnedBuffer.arr) || stream.returnedBuffer == Default)
      && stream.Disjoint(Allocated(buffer))
  {
    if count <= 0 {
      var segment := NewSegment(Allocated(buffer), offset, 0);
      if segment.Failure? {
        return Failure(segment.error);
      }
      assert Wrote(buffer[..], buffer[..], offset, old(stream.Remaining())[..0]);
      return Success((segment.value, false));
    }
    if offset < 0 {
      return Failure(ArgumentOutOfRangeException);
    }
    if buffer.Length - offset < count {
      return Failure(ArgumentException);
    }
    var n, end := ReadExactInto(stream, buffer, offset, count);
    return Success((Segment(Allocated(buffer), offset, n), end));
  }

  /**
   * `ReadExactFullBuffer(buffer, offset, count)`: here `count` is the index to fill up
   * to, not a number of bytes. Reads `buffer[offset..count]` until it is full or a read
   * returns 0, and returns the index reached and whether it falls short of `count`.
   */
  method ReadExactFullBufferAt(stream: RewindableStream, buffer: array<byte>, offset: int, count: int)
    returns (r: Result<(int, bool), Exception>)
    requires stream.Valid() && stream.Disjoint(Allocated(buffer))
    modifies stream, stream.stream, buffer
    ensures stream.Valid()
    ensures r.Success? <==> offset >= count || (0 <= offset && count <= buffer.Length)
    ensures r.Failure? ==> unchanged(stream, stream.stream, buffer)
    ensures offset < count && offset < 0 ==> r == Failure(ArgumentOutOfRangeException)
    ensures r.Success? && offset >= count ==> r.value == (offset, false) && unchanged(stream, stream.stream, buffer)
    ensures r.Success? && offset < count ==> var (reached, short) := r.value;
      offset <= reached <= count && reached - offset <= |old(stream.Remaining())|
      && Wrote(old(buffer[..]), buffer[..], offset, old(stream.Remaining())[..reached - offset])
      && stream.Remaining() == old(stream.Remaining())[reached - offset..]
      && (short <==> reached < count)
      && (old(stream.HoldsEmptyReturn()) ==> reached == offset && short)
      && (!old(stream.HoldsEmptyReturn()) ==> reached - offset == Min(count - offset, |old(stream.Remaining())|))
  {
    if offset >= count {
      return Success((offset, false));
    }
    if offset < 0 {
      return Failure(ArgumentOutOfRangeException);
    }
    if buffer.Length - offset < count - offset {
      return Failure(ArgumentException);
    }
    var n, end := ReadExactInto(stream, buffer, offset, count - offset);
    return Success((offset + n, offset + n < count));
  }
}
