/**
 * IO/InputFileHelpers.cs, `ReadBlocks`, over the input file of IO/InputFile.cs.
 *
 * The input file is its bytes, a position that a seek may put past the end, the most bytes
 * one read hands out, and the failures the file system may report: one for a seek, and one
 * for the read with a given index (the file counts its reads). `ReadBlocks` seeks to the
 * offset where an earlier run stopped, then reads blocks of at most `bufferSize` bytes,
 * each tagged with the offset reached after it, until a read returns nothing; that last
 * block is empty. An error is yielded as the last item. The enumeration is run to its end
 * and returned as the sequence of items, together with the exception that stopped it, if any.
 */
module InputFiles {
  import opened Binary
  import opened Wrappers
  import opened Segments
  import opened Errors
  import opened Blocks
  import ByteArrays

  /**
   * The stream an input file is built over: its bytes, the most bytes one read hands out,
   * the file system's failures, and whether it can seek and read.
   */
  datatype InputStream = InputStream(data: seq<byte>, chunk: int, seekFault: Option<ErrorCode>,
                                     readFault: Option<(nat, ErrorCode)>, canSeek: bool, canRead: bool)

  class InputFile {
    const data: seq<byte>
    var position: int
    const chunk: int
    const seekFault: Option<ErrorCode>
    const readFault: Option<(nat, ErrorCode)>
    var readCount: nat

    predicate Valid()
      reads this
    {
      0 <= position && 1 <= chunk
    }

    /** The bytes after the position; none once a seek went past the end. */
    function Rest(): (r: seq<byte>)
      requires Valid()
      reads this
      ensures position <= |data| ==> r == data[position..]
      ensures position > |data| ==> r == []
    {
      if position <= |data| then data[position..] else []
    }

    /** The failure of the read with index `k`, if the file system reports one. */
    function ReadFault(k: nat): Option<ErrorCode>
      reads this
    {
      if readFault.Some? && readFault.value.0 == k then Some(readFault.value.1) else None
    }

    constructor (data: seq<byte>, chunk: int, seekFault: Option<ErrorCode>, readFault: Option<(nat, ErrorCode)>)
      requires 1 <= chunk
      ensures Valid() && this.data == data && position == 0 && readCount == 0 && this.chunk == chunk
      ensures this.seekFault == seekFault && this.readFault == readFault
    {
      this.data := data;
      position := 0;
      this.chunk := chunk;
      this.seekFault := seekFault;
      this.readFault := readFault;
      readCount := 0;
    }

    /**
     * `new InputFile(stream)` with its argument checks: a null stream throws
     * `ArgumentNullException`, one that cannot seek or cannot read `ArgumentException`;
     * otherwise the file reads the stream's bytes from the start.
     */
    static method Open(stream: Option<InputStream>) returns (r: Result<InputFile, Exception>)
      requires stream.Some? ==> 1 <= stream.value.chunk
      ensures stream.None? ==> r == Failure(ArgumentNullException)
      ensures stream.Some? && !stream.value.canSeek ==> r == Failure(ArgumentException)
      ensures stream.Some? && stream.value.canSeek && !stream.value.canRead ==> r == Failure(ArgumentException)
      ensures r.Success? <==> stream.Some? && stream.value.canSeek && stream.value.canRead
      ensures r.Success? ==> r.value.Valid() && r.value.position == 0 && r.value.readCount == 0
      ensures r.Success? ==> r.value.data == stream.value.data && r.value.chunk == stream.value.chunk
      ensures r.Success? ==> r.value.seekFault == stream.value.seekFault && r.value.readFault == stream.value.readFault
    {
      if stream.None? {
        return Failure(ArgumentNullException);
      }
      var s := stream.value;
      if !s.canSeek || !s.canRead {
        return Failure(ArgumentException);
      }
      var file := new InputFile(s.data, s.chunk, s.seekFault, s.readFault);
      return Success(file);
    }

    /** `SeekTo(offset)`: moves to the offset, or reports the file system's failure and stays. */
    method SeekTo(offset: int) returns (r: Option<ErrorCode>)
      requires Valid() && 0 <= offset
      modifies this
      ensures Valid() && readCount == old(readCount)
      ensures r == seekFault
      ensures position == if seekFault.None? then offset else old(position)
    {
      if seekFault.Some? {
        return seekFault;
      }
      position := offset;
      return None;
    }

    /**
     * `ReadTo(buffer)`: an empty buffer throws; otherwise one read, which either reports the
     * file system's failure and moves nothing, or copies the next bytes to the buffer's start
     * (as many as fit, at most one chunk, and 0 only at the end of the file).
     */
    method ReadTo(buffer: array<byte>) returns (r: Result<Result<int, ErrorCode>, Exception>)
      requires Valid()
      modifies this, buffer
      ensures Valid()
      ensures buffer.Length == 0 <==> r.Failure?
      ensures r.Failure? ==> r.error == ArgumentException
      ensures r.Failure? ==> unchanged(this)
      ensures r.Success? ==> readCount == old(readCount) + 1
      ensures r.Success? && old(ReadFault(readCount)).Some? ==>
        r.value == Failure(old(ReadFault(readCount)).value) && position == old(position)
      ensures r.Success? && old(ReadFault(readCount)).None? ==>
        var n := Min(Min(buffer.Length, chunk), |old(Rest())|);
        r.value == Success(n) && buffer[..n] == old(Rest())[..n] && Rest() == old(Rest())[n..]
    {
      if buffer.Length == 0 {
        return Failure(ArgumentException);
      }
      var fault := ReadFault(readCount);
      readCount := readCount + 1;
      if fault.Some? {
        return Success(Failure(fault.value));
      }
      var n := Min(Min(buffer.Length, chunk), |Rest()|);
      forall i | 0 <= i < n {
        buffer[i] := data[position + i];
      }
      position := position + n;
      return Success(Success(n));
    }

    /** What the read loop yields from here on, with `last` the offset reached. */
    function LoopRun(bufferSize: int, last: int): Run
      requires Valid() && IsInt64(last)
      reads this
    {
      if bufferSize < 0 then Run([], Some(OverflowException))
      else if bufferSize == 0 then Run([], Some(ArgumentException))
      else ReadLoop(Rest(), last, bufferSize, chunk, readCount, readFault, true)
    }

    /** What `ReadBlocks(bufferSize, offset)` yields from this file as it is now. */
    function BlocksFrom(bufferSize: int, offset: int): (r: Run)
      requires Valid() && IsInt64(offset)
      reads this
    {
      if offset > 0 && seekFault.Some? then Run([Error(seekFault.value)], None)
      else if bufferSize < 0 then Run([], Some(OverflowException))
      else if bufferSize == 0 then Run([], Some(ArgumentException))
      else
        var p := if offset > 0 then offset else position;
        ReadLoop(if p <= |data| then data[p..] else [], offset, bufferSize, chunk, readCount, readFault, true)
    }
  }

  /** An item of the enumeration, as bytes: a block and the offset after it, or an error. */
  datatype Item = Read(bytes: seq<byte>, offset: int) | Error(code: ErrorCode)

  /** The items yielded, and the exception that ended the enumeration, if one did. */
  datatype Run = Run(items: seq<Item>, thrown: Option<Exception>)

  /** `done` yielded first, then the run `r`. */
  function Then(done: seq<Item>, r: Run): Run {
    Run(done + r.items, r.thrown)
  }

  /** `a += b` on a C# `long`, unchecked. */
  function AddLong(a: int, b: int): (r: int)
    ensures IsInt64(r)
    ensures IsInt64(a + b) ==> r == a + b
  {
    WrapInt64(a + b)
  }

  /** Whether the block constructor refuses the offset: the constructor as written refuses 0 too, the corrected one does not. */
  predicate Refused(offset: int, asWritten: bool) {
    if asWritten then offset <= 0 else offset < 0
  }

  /** `Refused` is what the two block constructors do. */
  lemma RefusedByConstructor(bytes: Segment, offset: int)
    requires Valid(bytes) && IsInt64(offset)
    ensures Refused(offset, true) <==> NewBlockAsWritten(bytes, offset).Failure?
    ensures Refused(offset, false) <==> NewBlock(bytes, offset).Failure?
  {
  }

  /**
   * The read loop from the `k`-th read of the file on, with `rest` the bytes still to read
   * and `last` the offset reached: a failing read yields its error and stops; otherwise the
   * bytes read form a block, and the loop goes on until a read returns nothing.
   */
  function ReadLoop(rest: seq<byte>, last: int, size: int, chunk: int, k: nat, readFault: Option<(nat, ErrorCode)>, asWritten: bool): Run
    requires 0 < size && 1 <= chunk && IsInt64(last)
    decreases |rest|
  {
    if readFault.Some? && readFault.value.0 == k then Run([Error(readFault.value.1)], None)
    else
      var n := Min(Min(size, chunk), |rest|);
      var o := AddLong(last, n);
      if Refused(o, asWritten) then Run([], Some(ArgumentException))
      else if n == 0 then Run([Read([], o)], None)
      else Then([Read(rest[..n], o)], ReadLoop(rest[n..], o, size, chunk, k + 1, readFault, asWritten))
  }

  /** One turn of the read loop, told by its cases. */
  lemma ReadLoopStep(rest: seq<byte>, last: int, size: int, chunk: int, k: nat, readFault: Option<(nat, ErrorCode)>, asWritten: bool)
    requires 0 < size && 1 <= chunk && IsInt64(last)
    ensures var r := ReadLoop(rest, last, size, chunk, k, readFault, asWritten);
      var n := Min(Min(size, chunk), |rest|);
      var o := AddLong(last, n);
      0 <= n <= |rest| && (n == 0 <==> rest == [])
      && (readFault.Some? && readFault.value.0 == k ==> r == Run([Error(readFault.value.1)], None))
      && (!(readFault.Some? && readFault.value.0 == k) ==>
        (Refused(o, asWritten) ==> r == Run([], Some(ArgumentException)))
        && (!Refused(o, asWritten) && n == 0 ==> r == Run([Read([], o)], None))
        && (!Refused(o, asWritten) && n != 0 ==>
          r.items == [Read(rest[..n], o)] + ReadLoop(rest[n..], o, size, chunk, k + 1, readFault, asWritten).items
          && r.thrown == ReadLoop(rest[n..], o, size, chunk, k + 1, readFault, asWritten).thrown))
  {
  }

  /** A run that starts with `x` is `x` yielded, then the rest of the run. */
  lemma ThenStep(done: seq<Item>, x: Item, r: Run, t: Run)
    requires r.items == [x] + t.items && r.thrown == t.thrown
    ensures Then(done, r) == Then(done + [x], t)
  {
    assert done + ([x] + t.items) == done + [x] + t.items;
  }

  /** The bytes of the blocks among `items`, in order. */
  function Joined(items: seq<Item>): seq<byte> {
    if items == [] then [] else (if items[0].Read? then items[0].bytes else []) + Joined(items[1..])
  }

  lemma JoinedPrefix(x: Item, s: seq<Item>, i: int)
    requires 0 <= i <= |s|
    ensures Joined(([x] + s)[..i + 1]) == (if x.Read? then x.bytes else []) + Joined(s[..i])
  {
    assert ([x] + s)[..i + 1] == [x] + s[..i];
    assert ([x] + s[..i])[1..] == s[..i];
  }

  /** A block of the next `n` bytes, then items that join to a prefix of what follows, join to a prefix of the whole. */
  lemma JoinedConsPrefix(rest: seq<byte>, n: int, o: int, t: seq<Item>)
    requires 0 <= n <= |rest| && Joined(t) <= rest[n..]
    ensures Joined([Read(rest[..n], o)] + t) <= rest
  {
    JoinedCons(Read(rest[..n], o), t);
    assert rest == rest[..n] + rest[n..];
  }

  /** The same, when the items join to all that follows. */
  lemma JoinedConsWhole(rest: seq<byte>, n: int, o: int, t: seq<Item>)
    requires 0 <= n <= |rest| && Joined(t) == rest[n..]
    ensures Joined([Read(rest[..n], o)] + t) == rest
  {
    JoinedCons(Read(rest[..n], o), t);
    assert rest == rest[..n] + rest[n..];
  }

  /** The last of `[x] + t` is the last of `t`. */
  lemma LastOfCons(x: Item, t: seq<Item>)
    requires t != []
    ensures ([x] + t)[|t|] == t[|t| - 1]
  {
  }

  /** `Joined` of an item followed by more. */
  lemma JoinedCons(x: Item, s: seq<Item>)
    ensures Joined([x] + s) == (if x.Read? then x.bytes else []) + Joined(s)
  {
    assert ([x] + s)[1..] == s;
  }

  /** The blocks hold the file's next bytes, in order. */
  lemma {:induction false} ReadLoopBytes(rest: seq<byte>, last: int, size: int, chunk: int, k: nat, readFault: Option<(nat, ErrorCode)>, asWritten: bool)
    requires 0 < size && 1 <= chunk && IsInt64(last)
    ensures Joined(ReadLoop(rest, last, size, chunk, k, readFault, asWritten).items) <= rest
    decreases |rest|
  {
    ReadLoopStep(rest, last, size, chunk, k, readFault, asWritten);
    var n := Min(Min(size, chunk), |rest|);
    var o := AddLong(last, n);
    var r := ReadLoop(rest, last, size, chunk, k, readFault, asWritten);
    if (readFault.Some? && readFault.value.0 == k) || Refused(o, asWritten) || n == 0 {
      assert Joined(r.items) == [];
    } else {
      var t := ReadLoop(rest[n..], o, size, chunk, k + 1, readFault, asWritten);
      ReadLoopBytes(rest[n..], o, size, chunk, k + 1, readFault, asWritten);
      JoinedConsPrefix(rest, n, o, t.items);
    }
  }

  /** A run that ends without an exception and with a block has yielded the whole file. */
  lemma {:induction false} ReadLoopWhole(rest: seq<byte>, last: int, size: int, chunk: int, k: nat, readFault: Option<(nat, ErrorCode)>, asWritten: bool)
    requires 0 < size && 1 <= chunk && IsInt64(last)
    ensures var r := ReadLoop(rest, last, size, chunk, k, readFault, asWritten);
      r.thrown.None? && r.items != [] && r.items[|r.items| - 1].Read? ==> Joined(r.items) == rest
    decreases |rest|
  {
    ReadLoopStep(rest, last, size, chunk, k, readFault, asWritten);
    var n := Min(Min(size, chunk), |rest|);
    var o := AddLong(last, n);
    var r := ReadLoop(rest, last, size, chunk, k, readFault, asWritten);
    if (readFault.Some? && readFault.value.0 == k) || Refused(o, asWritten) {
    } else if n == 0 {
      assert Joined(r.items) == [];
    } else if r.thrown.None? && r.items != [] && r.items[|r.items| - 1].Read? {
      var t := ReadLoop(rest[n..], o, size, chunk, k + 1, readFault, asWritten);
      if t.items != [] {
        LastOfCons(Read(rest[..n], o), t.items);
        ReadLoopWhole(rest[n..], o, size, chunk, k + 1, readFault, asWritten);
        JoinedConsWhole(rest, n, o, t.items);
      }
    }
  }

  /**
   * A run ends with an exception, which only the block constructor throws, or with an item:
   * an error, or an empty block.
   */
  lemma {:induction false} ReadLoopEnd(rest: seq<byte>, last: int, size: int, chunk: int, k: nat, readFault: Option<(nat, ErrorCode)>, asWritten: bool)
    requires 0 < size && 1 <= chunk && IsInt64(last)
    ensures var r := ReadLoop(rest, last, size, chunk, k, readFault, asWritten);
      (r.thrown.None? ==> r.items != [] && (r.items[|r.items| - 1].Read? ==> r.items[|r.items| - 1].bytes == []))
      && (r.thrown.Some? ==> r.thrown.value == ArgumentException)
    decreases |rest|
  {
    var r := ReadLoop(rest, last, size, chunk, k, readFault, asWritten);
    ReadLoopStep(rest, last, size, chunk, k, readFault, asWritten);
    var n := Min(Min(size, chunk), |rest|);
    var o := AddLong(last, n);
    if !((readFault.Some? && readFault.value.0 == k) || Refused(o, asWritten) || n == 0) {
      var t := ReadLoop(rest[n..], o, size, chunk, k + 1, readFault, asWritten);
      ReadLoopEnd(rest[n..], o, size, chunk, k + 1, readFault, asWritten);
      if r.thrown.None? {
        assert r.items[|r.items| - 1] == t.items[|t.items| - 1];
      }
    }
  }

  /** Every item but the last is a non-empty block no longer than the buffer: an error, or the empty block, ends the run. */
  lemma {:induction false} ReadLoopOrder(rest: seq<byte>, last: int, size: int, chunk: int, k: nat, readFault: Option<(nat, ErrorCode)>, asWritten: bool)
    requires 0 < size && 1 <= chunk && IsInt64(last)
    ensures var r := ReadLoop(rest, last, size, chunk, k, readFault, asWritten);
      (forall i :: 0 <= i < |r.items| - 1 ==> r.items[i].Read? && r.items[i].bytes != [])
      && (forall i :: 0 <= i < |r.items| && r.items[i].Read? ==> |r.items[i].bytes| <= size)
    decreases |rest|
  {
    var r := ReadLoop(rest, last, size, chunk, k, readFault, asWritten);
    ReadLoopStep(rest, last, size, chunk, k, readFault, asWritten);
    if !(readFault.Some? && readFault.value.0 == k) {
      var n := Min(Min(size, chunk), |rest|);
      var o := AddLong(last, n);
      if !Refused(o, asWritten) && n != 0 {
        var t := ReadLoop(rest[n..], o, size, chunk, k + 1, readFault, asWritten);
        ReadLoopOrder(rest[n..], o, size, chunk, k + 1, readFault, asWritten);
        assert r.items == [Read(rest[..n], o)] + t.items;
        forall i | 0 < i < |r.items|
          ensures r.items[i] == t.items[i - 1]
        {
        }
      }
    }
  }

  /** Each block's offset is the starting offset plus the bytes read up to and including it, while that stays inside the 64-bit range. */
  lemma {:induction false} ReadLoopOffsets(rest: seq<byte>, last: int, size: int, chunk: int, k: nat, readFault: Option<(nat, ErrorCode)>, asWritten: bool)
    requires 0 < size && 1 <= chunk && IsInt64(last) && IsInt64(last + |rest|)
    ensures var r := ReadLoop(rest, last, size, chunk, k, readFault, asWritten);
      forall i :: 0 <= i < |r.items| && r.items[i].Read? ==> r.items[i].offset == last + |Joined(r.items[..i + 1])|
    decreases |rest|
  {
    var r := ReadLoop(rest, last, size, chunk, k, readFault, asWritten);
    ReadLoopStep(rest, last, size, chunk, k, readFault, asWritten);
    if !(readFault.Some? && readFault.value.0 == k) {
      var n := Min(Min(size, chunk), |rest|);
      var o := AddLong(last, n);
      assert o == last + n;
      if Refused(o, asWritten) {
      } else if n == 0 {
        assert r.items[..1] == r.items;
        assert Joined(r.items) == [];
      } else {
        var t := ReadLoop(rest[n..], o, size, chunk, k + 1, readFault, asWritten);
        ReadLoopOffsets(rest[n..], o, size, chunk, k + 1, readFault, asWritten);
        var x := Read(rest[..n], o);
        assert r.items == [x] + t.items;
        forall i | 0 <= i < |r.items| && r.items[i].Read?
          ensures r.items[i].offset == last + |Joined(r.items[..i + 1])|
        {
          if i == 0 {
            JoinedPrefix(x, t.items, 0);
            assert t.items[..0] == [];
          } else {
            JoinedPrefix(x, t.items, i);
            assert r.items[i] == t.items[i - 1];
            assert t.items[..i - 1 + 1] == t.items[..i];
          }
        }
      }
    }
  }

  /** `ReadBlocks` from the start of an empty file: the constructor as written refuses the empty block at offset 0. */
  lemma EmptyFileFromStartThrows(size: int, chunk: int, k: nat)
    requires 0 < size && 1 <= chunk
    ensures ReadLoop([], 0, size, chunk, k, None, true) == Run([], Some(ArgumentException))
    ensures ReadLoop([], 0, size, chunk, k, None, false) == Run([Read([], 0)], None)
  {
    RefusedByConstructor(Default, 0);
  }

  /** The block models the item: same bytes and offset, or the same error. */
  predicate Matches(r: Result<Block, ErrorCode>, it: Item)
    reads if r.Success? && WellFormed(r.value) then ObjectsOf(BlockBytes(r.value).arr) else {}
  {
    match r
    case Failure(code) => it == Error(code)
    case Success(b) => WellFormed(b) && it.Read? && Segments.Bytes(BlockBytes(b)) == it.bytes && b.offset == it.offset
  }

  /** The arrays the blocks among `items` cover. */
  function ItemObjects(items: seq<Result<Block, ErrorCode>>): set<object> {
    set i, o | 0 <= i < |items| && items[i].Success? && WellFormed(items[i].value)
      && o in ObjectsOf(BlockBytes(items[i].value).arr) :: o
  }

  /** Each block or error models the corresponding item. */
  predicate AllMatch(items: seq<Result<Block, ErrorCode>>, expected: seq<Item>)
    reads ItemObjects(items)
  {
    |items| == |expected| && forall i :: 0 <= i < |items| ==> Matches(items[i], expected[i])
  }

  lemma AllMatchStep(items: seq<Result<Block, ErrorCode>>, expected: seq<Item>, r: Result<Block, ErrorCode>, it: Item)
    requires AllMatch(items, expected) && Matches(r, it)
    ensures AllMatch(items + [r], expected + [it])
  {
    forall i | 0 <= i < |items| + 1
      ensures Matches((items + [r])[i], (expected + [it])[i])
    {
      if i < |items| {
        assert (items + [r])[i] == items[i];
        assert (expected + [it])[i] == expected[i];
      }
    }
  }

  /**
   * One turn of the read loop: a fresh buffer (a negative size throws), one read (an empty
   * buffer throws), and then the error the read reports, or the block of the bytes read
   * with the offset reached, which the block constructor may refuse.
   */
  method ReadNextBlock(file: InputFile, bufferSize: int, lastReadOffset: int)
    returns (outcome: Result<Result<Block, ErrorCode>, Exception>, readBytesCount: int, newOffset: int)
    requires file.Valid() && IsInt64(lastReadOffset)
    modifies file
    ensures file.Valid() && IsInt64(newOffset) && 0 <= readBytesCount <= |old(file.Rest())|
    ensures file.Rest() == old(file.Rest())[readBytesCount..]
    ensures bufferSize < 0 ==> outcome == Failure(OverflowException)
    ensures bufferSize == 0 ==> outcome == Failure(ArgumentException)
    ensures 0 < bufferSize && old(file.ReadFault(file.readCount)).Some? ==>
      outcome == Success(Failure(old(file.ReadFault(file.readCount)).value)) && file.Rest() == old(file.Rest())
    ensures 0 < bufferSize && old(file.ReadFault(file.readCount)).None? ==>
      var n := Min(Min(bufferSize, file.chunk), |old(file.Rest())|);
      readBytesCount == n && newOffset == AddLong(lastReadOffset, n) && file.Rest() == old(file.Rest())[n..]
      && (Refused(newOffset, true) ==> outcome == Failure(ArgumentException))
      && (!Refused(newOffset, true) ==>
        outcome.Success? && outcome.value.Success? && Matches(outcome.value, Read(old(file.Rest())[..n], newOffset)))
    ensures 0 < bufferSize ==> file.readCount == old(file.readCount) + 1
  {
    readBytesCount, newOffset := 0, lastReadOffset;
    if bufferSize < 0 {
      return Failure(OverflowException), readBytesCount, newOffset;
    }
    var readBuffer := new byte[bufferSize];
    var read := file.ReadTo(readBuffer);
    if read.Failure? {
      return Failure(read.error), readBytesCount, newOffset;
    }
    if read.value.Failure? {
      return Success(Failure(read.value.error)), readBytesCount, newOffset;
    }
    readBytesCount := read.value.value;
    newOffset := AddLong(lastReadOffset, readBytesCount);
    var readBytes := ByteArrays.Slice(Allocated(readBuffer), readBytesCount).value;
    var block := NewBlockAsWritten(readBytes, newOffset);
    RefusedByConstructor(readBytes, newOffset);
    if block.Failure? {
      return Failure(block.error), readBytesCount, newOffset;
    }
    return Success(Success(block.value)), readBytesCount, newOffset;
  }

  /**
   * `ReadNextBlock`, told against `LoopRun`: the turn throws what the run throws at once,
   * or yields the run's first item and leaves the file where the rest of the run starts.
   */
  method ReadNextItem(file: InputFile, bufferSize: int, lastReadOffset: int)
    returns (outcome: Result<Result<Block, ErrorCode>, Exception>, more: bool, newOffset: int, ghost item: Item)
    requires file.Valid() && IsInt64(lastReadOffset)
    modifies file
    ensures file.Valid() && IsInt64(newOffset) && |file.Rest()| <= |old(file.Rest())|
    ensures outcome.Failure? ==> old(file.LoopRun(bufferSize, lastReadOffset)) == Run([], Some(outcome.error))
    ensures outcome.Success? ==> Matches(outcome.value, item)
    ensures outcome.Success? && !more ==> old(file.LoopRun(bufferSize, lastReadOffset)) == Run([item], None)
    ensures more ==>
      outcome.Success? &&
      old(file.LoopRun(bufferSize, lastReadOffset)).items == [item] + file.LoopRun(bufferSize, newOffset).items
      && old(file.LoopRun(bufferSize, lastReadOffset)).thrown == file.LoopRun(bufferSize, newOffset).thrown
      && |file.Rest()| < |old(file.Rest())|
  {
    ghost var rest := file.Rest();
    ghost var k := file.readCount;
    if 0 < bufferSize {
      ReadLoopStep(rest, lastReadOffset, bufferSize, file.chunk, k, file.readFault, true);
    }
    var readBytesCount;
    outcome, readBytesCount, newOffset := ReadNextBlock(file, bufferSize, lastReadOffset);
    more := outcome.Success? && outcome.value.Success? && readBytesCount > 0;
    item := if outcome.Success? && outcome.value.Failure? then Error(outcome.value.error) else Read(rest[..readBytesCount], newOffset);
    if outcome.Success? && outcome.value.Success? {
      if readBytesCount > 0 {
        assert file.Rest() == rest[readBytesCount..] && file.readCount == k + 1;
      } else {
        assert rest[..readBytesCount] == [];
      }
    }
  }

  /**
   * One turn of the read loop, told against the whole run `expected`: the yielded items so far
   * grow by the turn's item, and the loop goes on exactly when the run has more to say.
   */
  method ReadLoopTurn(file: InputFile, bufferSize: int, lastReadOffset: int, items: seq<Result<Block, ErrorCode>>,
                      ghost done: seq<Item>, ghost expected: Run)
    returns (items': seq<Result<Block, ErrorCode>>, ghost done': seq<Item>, more: bool, newOffset: int, thrown: Option<Exception>)
    requires file.Valid() && IsInt64(lastReadOffset) && AllMatch(items, done)
    requires expected == Then(done, file.LoopRun(bufferSize, lastReadOffset))
    modifies file
    ensures file.Valid() && IsInt64(newOffset) && AllMatch(items', done') && |file.Rest()| <= |old(file.Rest())|
    ensures more ==>
      thrown.None? && expected == Then(done', file.LoopRun(bufferSize, newOffset)) && |file.Rest()| < |old(file.Rest())|
    ensures !more ==> expected == Run(done', thrown)
  {
    ghost var r := file.LoopRun(bufferSize, lastReadOffset);
    var outcome, next;
    ghost var item;
    outcome, next, newOffset, item := ReadNextItem(file, bufferSize, lastReadOffset);
    if outcome.Failure? {
      assert done + [] == done;
      return items, done, false, newOffset, Some(outcome.error);
    }
    AllMatchStep(items, done, outcome.value, item);
    items', done', more, thrown := items + [outcome.value], done + [item], next, None;
    if next {
      ThenStep(done, item, r, file.LoopRun(bufferSize, newOffset));
    }
  }

  /** The do-while loop of `ReadBlocks`, from the offset reached: yields what `LoopRun` describes. */
  method ReadLoopFrom(file: InputFile, bufferSize: int, offset: int) returns (items: seq<Result<Block, ErrorCode>>, thrown: Option<Exception>)
    requires file.Valid() && IsInt64(offset)
    modifies file
    ensures file.Valid()
    ensures thrown == old(file.LoopRun(bufferSize, offset)).thrown
    ensures AllMatch(items, old(file.LoopRun(bufferSize, offset)).items)
  {
    ghost var expected := file.LoopRun(bufferSize, offset);
    var lastReadOffset := offset;
    items, thrown := [], None;
    ghost var done: seq<Item> := [];
    assert expected == Then(done, expected);
    var more := true;
    while more
      invariant file.Valid() && IsInt64(lastReadOffset) && AllMatch(items, done)
      invariant more ==> expected == Then(done, file.LoopRun(bufferSize, lastReadOffset))
      invariant !more ==> expected == Run(done, thrown)
      decreases |file.Rest()| + (if more then 1 else 0)
    {
      items, done, more, lastReadOffset, thrown := ReadLoopTurn(file, bufferSize, lastReadOffset, items, done, expected);
    }
  }

  /**
   * `ReadBlocks(file, bufferSize, offset)`: yields what `BlocksFrom` describes, each block over
   * its own freshly allocated buffer, and stops with the exception it describes.
   */
  method ReadBlocks(file: InputFile, bufferSize: int, offset: int) returns (items: seq<Result<Block, ErrorCode>>, thrown: Option<Exception>)
    requires file.Valid() && IsInt64(offset)
    modifies file
    ensures file.Valid()
    ensures thrown == old(file.BlocksFrom(bufferSize, offset)).thrown
    ensures AllMatch(items, old(file.BlocksFrom(bufferSize, offset)).items)
  {
    if offset > 0 {
      var offsetError := file.SeekTo(offset);
      if offsetError.Some? {
        assert AllMatch([Failure(offsetError.value)], [Error(offsetError.value)]);
        return [Failure(offsetError.value)], None;
      }
    }
    items, thrown := ReadLoopFrom(file, bufferSize, offset);
  }
}
