/**
 * Decompression/GzipSplitting/MimeTypeLengthGzipSplitter.cs: splits a stream of gzip
 * members whose MTIME fields carry the length of the member they start ("mimetype" in
 * the code). Each step reads a member and the next header, yields the member, and
 * pushes the header back so that the next step reads it again.
 *
 * `MimeSplit` is the reference definition: what the enumeration yields, from the bytes
 * the stream holds and how many of them were pushed back before. The method
 * `SplitToIndependentBlocks` runs the enumeration on a `RewindableStream` and is proved
 * to produce exactly that; the lemmas state what the definition promises.
 */
module MimeSplitting {
  import opened Binary
  import opened Wrappers
  import opened Segments
  import opened GzipHeaders
  import opened SplitResults
  import opened Streams

  /** The splitter: its block size limit (the log is not modelled). */
  datatype MimeTypeLengthGzipSplitter = MimeTypeLengthGzipSplitter(blockSizeLimit: int)

  /** The constructor: a limit below 1 throws. */
  function NewMimeTypeLengthGzipSplitter(blockSizeLimit: int): (r: Result<MimeTypeLengthGzipSplitter, Exception>)
    ensures r.Success? <==> blockSizeLimit >= 1
    ensures r.Failure? ==> r.error == ArgumentOutOfRangeException
    ensures r.Success? ==> r.value.blockSizeLimit == blockSizeLimit
  {
    if blockSizeLimit < 1 then Failure(ArgumentOutOfRangeException)
    else Success(MimeTypeLengthGzipSplitter(blockSizeLimit))
  }

  /**
   * `GetBlockLengthFromGzipHeader` on ten bytes: no header there is `WrongFormat`; a hint
   * of 0 or above the limit is `CantReadBlock`; otherwise the hint, which may be negative.
   */
  function HintOf(limit: int, h: seq<byte>): (r: Result<int, GzipSplittingStatus>)
    requires |h| == HeaderLength
    ensures r.Success? ==> IsHeaderAt(h, 0) && r.value == ToInt32(h[4..8]) && r.value != 0 && r.value <= limit
    ensures r.Failure? ==> (r.error == WrongFormat <==> !IsHeaderAt(h, 0))
    ensures r.Failure? && IsHeaderAt(h, 0) ==> r.error == CantReadBlock && (ToInt32(h[4..8]) == 0 || ToInt32(h[4..8]) > limit)
  {
    if !IsHeaderAt(h, 0) then Failure(WrongFormat)
    else
      var length := ToInt32(h[4..8]);
      if length == 0 || length > limit then Failure(CantReadBlock) else Success(length)
  }

  /** `blockLength + GzipHeader.Length` in unchecked 32-bit arithmetic is either that sum or negative. */
  lemma ReadSize(blockLength: int)
    requires IsInt32(blockLength)
    ensures var size := WrapInt32(blockLength + HeaderLength);
      size >= 0 ==> size == blockLength + HeaderLength
  {
    var x := blockLength + HeaderLength;
    if !IsInt32(x) {
      assert 0x8000_0000 <= x < TwoPow32;
      assert x % TwoPow32 == x;
    }
  }

  /**
   * The outcome of a stretch of `SplitToIndependentBlocks`: the enumeration stopped (a
   * status yielded last, or an exception); the stream ended after `emitted`, so that only
   * `StreamIsEnd` follows; or the loop goes on with `emitted` yielded, the next member
   * announced as `next` bytes long, and `left` held by the stream.
   */
  datatype Turn =
    | Stop(run: SplitRun)
    | Ended(emitted: seq<SplitResult>, left: seq<byte>)
    | Continue(emitted: seq<SplitResult>, next: int, left: seq<byte>)

  /**
   * Before the loop: `ReadCurrentGzipBlockLengthFromStream` and the push-back of the
   * header bytes, on a stream holding `rem` of which the first `pending` bytes were pushed
   * back (`stale`: an empty segment was pushed back).
   */
  function FirstOf(limit: int, pending: int, stale: bool, rem: seq<byte>): (t: Turn)
    requires 0 <= pending <= |rem|
    ensures t.Continue? ==> t.emitted == [] && t.left == rem && |rem| >= HeaderLength && IsInt32(t.next) && t.next != 0
  {
    if stale then
      // the first read returns 0: the stream looks ended
      Ended([], rem)
    else if pending > HeaderLength then
      // the header read leaves pushed-back bytes unread: pushing the header back throws
      Stop(SplitRun([], Some(InvalidOperationException), rem))
    else if |rem| < HeaderLength then Ended([], rem)
    else
      var hint := HintOf(limit, rem[..HeaderLength]);
      if hint.Success? then Continue([], hint.value, rem)
      else Stop(SplitRun([Terminal(hint.error)], None, rem))
  }

  /**
   * One turn of the loop, with the ten header bytes pushed back in front of `rem` (the
   * bytes the stream holds) announcing a member of `blockLength` bytes: it reads
   * `blockLength + GzipHeader.Length` bytes, that sum taken in unchecked 32-bit arithmetic.
   */
  function StepOf(limit: int, blockLength: int, rem: seq<byte>): (t: Turn)
    requires |rem| >= HeaderLength && IsInt32(blockLength) && blockLength != 0
    ensures t.Continue? ==> 0 < blockLength <= |rem| - HeaderLength && t.left == rem[blockLength..] && IsInt32(t.next) && t.next != 0
  {
    var size := WrapInt32(blockLength + HeaderLength);
    ReadSize(blockLength);
    if size < 0 then
      // `new byte[size]` throws
      Stop(SplitRun([], Some(OverflowException), rem))
    else if size == 0 then
      // nothing read and the stream not at its end
      Stop(SplitRun([Terminal(CantReadBlock)], None, rem))
    else if size < HeaderLength then
      // the read is full but shorter than a header: `SliceFromEnd` builds a segment at a negative offset
      Stop(SplitRun([], Some(ArgumentOutOfRangeException), rem))
    else if |rem| < size then
      // the stream ends inside the read: a last member exactly as long as announced, or a failure
      if |rem| == blockLength then Ended([WithBlock(IndependentGzipBlock(rem))], [])
      else Stop(SplitRun([Terminal(CantReadBlock)], None, rem))
    else AfterFullRead(limit, blockLength, rem)
  }

  /** The end of a turn whose read got the whole member and the next header. */
  function AfterFullRead(limit: int, blockLength: int, rem: seq<byte>): (t: Turn)
    requires 0 < blockLength && blockLength + HeaderLength <= |rem|
    ensures t.Continue? ==> t.left == rem[blockLength..] && IsInt32(t.next) && t.next != 0
  {
    var block := WithBlock(IndependentGzipBlock(rem[..blockLength]));
    var hint := HintOf(limit, rem[blockLength..blockLength + HeaderLength]);
    if hint.Success? then Continue([block], hint.value, rem[blockLength..])
    else if hint.error == WrongFormat then Stop(SplitRun([Terminal(CantReadBlock)], None, rem))
    else Stop(SplitRun([block, Terminal(hint.error)], None, rem[blockLength..]))
  }

  /** The loop of `SplitToIndependentBlocks` from a turn that starts on `rem` with `blockLength` announced. */
  function LoopFrom(limit: int, blockLength: int, rem: seq<byte>): (r: SplitRun)
    requires |rem| >= HeaderLength && IsInt32(blockLength) && blockLength != 0
    decreases |rem|
  {
    match StepOf(limit, blockLength, rem)
    case Stop(run) => run
    case Ended(emitted, left) => SplitRun(emitted + [Terminal(StreamIsEnd)], None, left)
    case Continue(emitted, next, left) => Prepend(emitted, LoopFrom(limit, next, left))
  }

  /**
   * What `SplitToIndependentBlocks` yields on a stream holding `rem`, of which the first
   * `pending` bytes were pushed back (`stale`: an empty segment was pushed back).
   */
  function MimeSplit(limit: int, pending: int, stale: bool, rem: seq<byte>): (r: SplitRun)
    requires 0 <= pending <= |rem|
  {
    match FirstOf(limit, pending, stale, rem)
    case Stop(run) => run
    case Ended(emitted, left) => SplitRun(emitted + [Terminal(StreamIsEnd)], None, left)
    case Continue(emitted, next, left) => Prepend(emitted, LoopFrom(limit, next, left))
  }

  /**
   * How many returned bytes the stream holds once a first stretch that stops or ends
   * without an exception is over: none after an empty returned segment, the bytes of a
   * stream too short for a header, or the ten header bytes pushed back (and, when the push
   * back throws, the bytes the header read left unread).
   */
  function FirstHeld(pending: int, stale: bool, rem: seq<byte>): int {
    if stale then 0
    else if pending > HeaderLength then pending - HeaderLength
    else if |rem| < HeaderLength then |rem|
    else HeaderLength
  }

  /**
   * The same after a turn of the loop that stops or ends: the ten header bytes, still held
   * or pushed back again; nothing after the last member; or the whole read pushed back, when
   * the read fell short of the announced member or found no header after it.
   */
  function StepHeld(limit: int, blockLength: int, rem: seq<byte>): int
    requires |rem| >= HeaderLength && IsInt32(blockLength) && blockLength != 0
  {
    var size := WrapInt32(blockLength + HeaderLength);
    ReadSize(blockLength);
    if size <= 0 then HeaderLength
    else if size < HeaderLength then HeaderLength - size
    else if |rem| < size then (if |rem| == blockLength then 0 else |rem|)
    else
      var hint := HintOf(limit, rem[blockLength..blockLength + HeaderLength]);
      if hint.Failure? && hint.error == WrongFormat then size else HeaderLength
  }

  /** The returned bytes the loop leaves held when it stops or ends. */
  function LoopHeld(limit: int, blockLength: int, rem: seq<byte>): int
    requires |rem| >= HeaderLength && IsInt32(blockLength) && blockLength != 0
    decreases |rem|
  {
    match StepOf(limit, blockLength, rem)
    case Continue(_, next, left) => LoopHeld(limit, next, left)
    case _ => StepHeld(limit, blockLength, rem)
  }

  /**
   * The returned bytes `SplitToIndependentBlocks` leaves held for the next splitter, on a
   * stream holding `rem` of which the first `pending` bytes were pushed back.
   */
  function MimeHeld(limit: int, pending: int, stale: bool, rem: seq<byte>): int
    requires 0 <= pending <= |rem|
  {
    match FirstOf(limit, pending, stale, rem)
    case Continue(_, next, left) => LoopHeld(limit, next, left)
    case _ => FirstHeld(pending, stale, rem)
  }

  lemma LoopHeldUnfolds(limit: int, blockLength: int, rem: seq<byte>)
    requires |rem| >= HeaderLength && IsInt32(blockLength) && blockLength != 0
    ensures var t := StepOf(limit, blockLength, rem);
      && (t.Continue? ==> LoopHeld(limit, blockLength, rem) == LoopHeld(limit, t.next, t.left))
      && (!t.Continue? ==> LoopHeld(limit, blockLength, rem) == StepHeld(limit, blockLength, rem))
  {
  }

  lemma MimeHeldUnfolds(limit: int, pending: int, stale: bool, rem: seq<byte>)
    requires 0 <= pending <= |rem|
    ensures var t := FirstOf(limit, pending, stale, rem);
      && (t.Continue? ==> MimeHeld(limit, pending, stale, rem) == LoopHeld(limit, t.next, t.left))
      && (!t.Continue? ==> MimeHeld(limit, pending, stale, rem) == FirstHeld(pending, stale, rem))
  {
  }

  /**
   * A loop that ends without an exception leaves no more bytes pushed back than the stream
   * then holds, and no more than the longest member the limit admits with its next header.
   */
  lemma {:induction false} LoopHeldBound(limit: int, blockLength: int, rem: seq<byte>)
    requires |rem| >= HeaderLength && IsInt32(blockLength) && blockLength != 0 && 1 <= limit && blockLength <= limit
    ensures var run := LoopFrom(limit, blockLength, rem);
      var held := LoopHeld(limit, blockLength, rem);
      run.thrown.None? ==> 0 <= held <= |run.left| && held <= limit + HeaderLength
    decreases |rem|
  {
    LoopUnfolds(limit, blockLength, rem);
    LoopHeldUnfolds(limit, blockLength, rem);
    ReadSize(blockLength);
    var t := StepOf(limit, blockLength, rem);
    if t.Continue? {
      LoopHeldBound(limit, t.next, t.left);
    }
  }

  /** The same for the whole enumeration, from a stream with nothing pushed back. */
  lemma MimeHeldBound(limit: int, rem: seq<byte>)
    requires 1 <= limit
    ensures var run := MimeSplit(limit, 0, false, rem);
      var held := MimeHeld(limit, 0, false, rem);
      run.thrown.None? ==> 0 <= held <= |run.left| && held <= limit + HeaderLength
  {
    MimeSplitUnfolds(limit, 0, false, rem);
    MimeHeldUnfolds(limit, 0, false, rem);
    var t := FirstOf(limit, 0, false, rem);
    if t.Continue? {
      LoopHeldBound(limit, t.next, t.left);
    }
  }

  /**
   * A first member whose MTIME field announces `L` bytes within the limit, followed at byte
   * `L` by something that is not a header: the enumeration reports `CantReadBlock` at once
   * and leaves all `L + 10` bytes it read pushed back.
   */
  lemma WrongHintPushesBackAll(limit: int, rem: seq<byte>)
    requires |rem| >= HeaderLength && IsHeaderAt(rem, 0)
    requires var L := ToInt32(rem[4..8]);
      0 < L <= limit && IsInt32(L + HeaderLength) && L + HeaderLength <= |rem| && !IsHeaderAt(rem[L..L + HeaderLength], 0)
    ensures MimeSplit(limit, 0, false, rem) == SplitRun([Terminal(CantReadBlock)], None, rem)
    ensures MimeHeld(limit, 0, false, rem) == ToInt32(rem[4..8]) + HeaderLength
  {
    var L := ToInt32(rem[4..8]);
    assert rem[..HeaderLength][4..8] == rem[4..8];
    assert IsHeaderAt(rem[..HeaderLength], 0);
    assert FirstOf(limit, 0, false, rem) == Continue([], L, rem);
    MimeSplitUnfolds(limit, 0, false, rem);
    MimeHeldUnfolds(limit, 0, false, rem);
    LoopUnfolds(limit, L, rem);
    LoopHeldUnfolds(limit, L, rem);
    ReadSize(L);
    assert WrapInt32(L + HeaderLength) == L + HeaderLength;
    assert HintOf(limit, rem[L..L + HeaderLength]) == Failure(WrongFormat);
    assert StepOf(limit, L, rem) == Stop(SplitRun([Terminal(CantReadBlock)], None, rem));
  }

  /** The loop after one turn. */
  lemma LoopUnfolds(limit: int, blockLength: int, rem: seq<byte>)
    requires |rem| >= HeaderLength && IsInt32(blockLength) && blockLength != 0
    ensures var t := StepOf(limit, blockLength, rem);
      && (t.Stop? ==> LoopFrom(limit, blockLength, rem) == t.run)
      && (t.Ended? ==> LoopFrom(limit, blockLength, rem) == SplitRun(t.emitted + [Terminal(StreamIsEnd)], None, t.left))
      && (t.Continue? ==> LoopFrom(limit, blockLength, rem) == Prepend(t.emitted, LoopFrom(limit, t.next, t.left)))
  {
  }

  /** The enumeration after the first header. */
  lemma MimeSplitUnfolds(limit: int, pending: int, stale: bool, rem: seq<byte>)
    requires 0 <= pending <= |rem|
    ensures var t := FirstOf(limit, pending, stale, rem);
      && (t.Stop? ==> MimeSplit(limit, pending, stale, rem) == t.run)
      && (t.Ended? ==> MimeSplit(limit, pending, stale, rem) == SplitRun(t.emitted + [Terminal(StreamIsEnd)], None, t.left))
      && (t.Continue? ==> MimeSplit(limit, pending, stale, rem) == Prepend(t.emitted, LoopFrom(limit, t.next, t.left)))
  {
  }

  /**
   * Each block among `rs` is the bytes of `rem` from where the previous one ended, as
   * many as the header that starts there announces in its MTIME field, between 1 and the
   * limit.
   */
  predicate HintedBlocks(limit: int, rs: seq<SplitResult>, rem: seq<byte>)
    decreases |rs|
  {
    if rs == [] then true
    else if rs[0].block.None? then HintedBlocks(limit, rs[1..], rem)
    else
      IsHeaderAt(rem, 0) && 0 < ToInt32(rem[4..8]) <= limit && ToInt32(rem[4..8]) <= |rem|
      && rs[0].block.value.bytes == rem[..ToInt32(rem[4..8])]
      && HintedBlocks(limit, rs[1..], rem[ToInt32(rem[4..8])..])
  }

  // ---------------------------------------------------------------------------------
  // What the reference definition promises.

  /** A turn yields blocks, or, when it stops, blocks and then one status unless it throws. */
  lemma StepShape(limit: int, blockLength: int, rem: seq<byte>)
    requires |rem| >= HeaderLength && IsInt32(blockLength) && blockLength != 0
    ensures var t := StepOf(limit, blockLength, rem);
      if t.Stop? then Shaped(t.run) else AllBlocks(t.emitted)
  {
    var size := WrapInt32(blockLength + HeaderLength);
    ReadSize(blockLength);
    if size >= HeaderLength && |rem| >= size {
      var hint := HintOf(limit, rem[blockLength..blockLength + HeaderLength]);
      if hint.Failure? && hint.error != WrongFormat {
        var block := WithBlock(IndependentGzipBlock(rem[..blockLength]));
        assert [block, Terminal(hint.error)][..1] == [block];
      }
    }
  }

  /** The enumeration is blocks and then one status, or only blocks when it throws. */
  lemma {:induction false} LoopShape(limit: int, blockLength: int, rem: seq<byte>)
    requires |rem| >= HeaderLength && IsInt32(blockLength) && blockLength != 0
    ensures Shaped(LoopFrom(limit, blockLength, rem))
    decreases |rem|
  {
    var t := StepOf(limit, blockLength, rem);
    StepShape(limit, blockLength, rem);
    match t
    case Stop(_) =>
    case Ended(emitted, left) => ShapedEnded(emitted, left);
    case Continue(emitted, next, left) =>
      LoopShape(limit, next, left);
      ShapedPrepend(emitted, LoopFrom(limit, next, left));
  }

  lemma MimeSplitShape(limit: int, pending: int, stale: bool, rem: seq<byte>)
    requires 0 <= pending <= |rem|
    ensures Shaped(MimeSplit(limit, pending, stale, rem))
  {
    var t := FirstOf(limit, pending, stale, rem);
    if t.Ended? {
      ShapedEnded(t.emitted, t.left);
    } else if t.Continue? {
      var run := LoopFrom(limit, t.next, t.left);
      LoopShape(limit, t.next, t.left);
      assert MimeSplit(limit, pending, stale, rem) == Prepend([], run);
      assert [] + run.results == run.results;
    }
  }

  /** The blocks a turn yields followed by what it leaves on the stream are the bytes it started on. */
  lemma StepConsumes(limit: int, blockLength: int, rem: seq<byte>)
    requires |rem| >= HeaderLength && IsInt32(blockLength) && blockLength != 0
    ensures var t := StepOf(limit, blockLength, rem);
      && (t.Stop? && t.run.thrown.None? ==> BlockBytes(t.run.results) + t.run.left == rem)
      && (!t.Stop? ==> BlockBytes(t.emitted) + t.left == rem)
  {
    var size := WrapInt32(blockLength + HeaderLength);
    ReadSize(blockLength);
    if size >= HeaderLength {
      if |rem| < size && |rem| == blockLength {
        assert BlockBytes([WithBlock(IndependentGzipBlock(rem))]) == rem + BlockBytes([]);
      } else if |rem| >= size {
        var block := WithBlock(IndependentGzipBlock(rem[..blockLength]));
        var hint := HintOf(limit, rem[blockLength..blockLength + HeaderLength]);
        assert rem[..blockLength] + rem[blockLength..] == rem;
        if hint.Success? {
          assert BlockBytes([block]) == rem[..blockLength] + BlockBytes([]);
        } else if hint.error != WrongFormat {
          var rs := [block, Terminal(hint.error)];
          assert BlockBytes(rs[1..]) == BlockBytes([]);
          assert BlockBytes(rs) == rem[..blockLength];
        }
      }
    }
  }

  /** Unless it throws, the blocks yielded followed by the bytes left on the stream are the bytes it held. */
  lemma {:induction false} LoopConsumes(limit: int, blockLength: int, rem: seq<byte>)
    requires |rem| >= HeaderLength && IsInt32(blockLength) && blockLength != 0
    ensures var run := LoopFrom(limit, blockLength, rem);
      run.thrown.None? ==> BlockBytes(run.results) + run.left == rem
    decreases |rem|
  {
    StepConsumes(limit, blockLength, rem);
    match StepOf(limit, blockLength, rem)
    case Stop(_) =>
    case Ended(emitted, left) => ConsumedEnded(emitted);
    case Continue(emitted, next, left) =>
      var rest := LoopFrom(limit, next, left);
      LoopConsumes(limit, next, left);
      BlockBytesAppend(emitted, rest.results);
  }

  lemma MimeSplitConsumes(limit: int, pending: int, stale: bool, rem: seq<byte>)
    requires 0 <= pending <= |rem|
    ensures var run := MimeSplit(limit, pending, stale, rem);
      run.thrown.None? ==> BlockBytes(run.results) + run.left == rem
  {
    var t := FirstOf(limit, pending, stale, rem);
    if t.Stop? {
      if t.run.results != [] {
        assert BlockBytes(t.run.results) == [] + BlockBytes([]);
      }
    } else if t.Ended? {
      ConsumedEnded(t.emitted);
    } else {
      var run := LoopFrom(limit, t.next, t.left);
      LoopConsumes(limit, t.next, t.left);
      assert MimeSplit(limit, pending, stale, rem) == Prepend([], run);
      assert [] + run.results == run.results;
    }
  }

  /**
   * The blocks of a turn are the member the header at `rem` announces, and a turn that
   * goes on leaves a header announcing the next member at the start of what is left.
   */
  lemma StepHinted(limit: int, blockLength: int, rem: seq<byte>)
    requires |rem| >= HeaderLength && IsInt32(blockLength) && blockLength != 0
    requires IsHeaderAt(rem, 0) && blockLength == ToInt32(rem[4..8]) && blockLength <= limit
    ensures var t := StepOf(limit, blockLength, rem);
      && (t.Stop? ==> HintedBlocks(limit, t.run.results, rem))
      && (t.Ended? ==> HintedBlocks(limit, t.emitted + [Terminal(StreamIsEnd)], rem))
      && (t.Continue? ==>
            t.emitted == [WithBlock(IndependentGzipBlock(rem[..blockLength]))]
            && IsHeaderAt(t.left, 0) && t.next == ToInt32(t.left[4..8]) && t.next <= limit)
  {
    var size := WrapInt32(blockLength + HeaderLength);
    ReadSize(blockLength);
    OneStatusHinted(limit, CantReadBlock, rem);
    if size >= HeaderLength && |rem| < size && |rem| == blockLength {
      assert rem[..blockLength] == rem;
      var rs := [WithBlock(IndependentGzipBlock(rem)), Terminal(StreamIsEnd)];
      assert [WithBlock(IndependentGzipBlock(rem))] + [Terminal(StreamIsEnd)] == rs;
      OneStatusHinted(limit, StreamIsEnd, []);
      assert rs[1..] == [Terminal(StreamIsEnd)];
    } else if size >= HeaderLength && |rem| >= size {
      AfterFullReadHinted(limit, blockLength, rem);
    }
  }

  lemma AfterFullReadHinted(limit: int, blockLength: int, rem: seq<byte>)
    requires 0 < blockLength && blockLength + HeaderLength <= |rem|
    requires IsHeaderAt(rem, 0) && blockLength == ToInt32(rem[4..8]) && blockLength <= limit
    ensures var t := AfterFullRead(limit, blockLength, rem);
      && (t.Stop? ==> HintedBlocks(limit, t.run.results, rem))
      && (t.Continue? ==>
            t.emitted == [WithBlock(IndependentGzipBlock(rem[..blockLength]))]
            && IsHeaderAt(t.left, 0) && t.next == ToInt32(t.left[4..8]) && t.next <= limit)
  {
    var h := rem[blockLength..blockLength + HeaderLength];
    var hint := HintOf(limit, h);
    var rest := rem[blockLength..];
    OneStatusHinted(limit, CantReadBlock, rem);
    if hint.Success? {
      assert rest[..HeaderLength] == h;
      HeaderAtStart(rest);
      assert rest[4..8] == h[4..8];
    } else if hint.error != WrongFormat {
      var rs := [WithBlock(IndependentGzipBlock(rem[..blockLength])), Terminal(hint.error)];
      OneStatusHinted(limit, hint.error, rest);
      assert rs[1..] == [Terminal(hint.error)];
    }
  }

  lemma OneStatusHinted(limit: int, status: GzipSplittingStatus, rem: seq<byte>)
    requires status != Block
    ensures HintedBlocks(limit, [Terminal(status)], rem)
  {
    assert [Terminal(status)][1..] == [];
  }

  /** Every block is exactly the member its header announces. */
  lemma {:induction false} LoopBlocksAreHinted(limit: int, blockLength: int, rem: seq<byte>)
    requires |rem| >= HeaderLength && IsInt32(blockLength) && blockLength != 0
    requires IsHeaderAt(rem, 0) && blockLength == ToInt32(rem[4..8]) && blockLength <= limit
    ensures HintedBlocks(limit, LoopFrom(limit, blockLength, rem).results, rem)
    decreases |rem|
  {
    var t := StepOf(limit, blockLength, rem);
    StepHinted(limit, blockLength, rem);
    LoopUnfolds(limit, blockLength, rem);
    if t.Continue? {
      var rest := LoopFrom(limit, t.next, t.left).results;
      LoopBlocksAreHinted(limit, t.next, t.left);
      var rs := t.emitted + rest;
      assert rs[0] == WithBlock(IndependentGzipBlock(rem[..blockLength])) && rs[1..] == rest;
    }
  }

  lemma MimeSplitBlocksAreHinted(limit: int, pending: int, stale: bool, rem: seq<byte>)
    requires 0 <= pending <= |rem|
    ensures HintedBlocks(limit, MimeSplit(limit, pending, stale, rem).results, rem)
  {
    var t := FirstOf(limit, pending, stale, rem);
    if t.Stop? {
      if t.run.results != [] {
        assert HintedBlocks(limit, t.run.results[1..], rem);
      }
    } else if t.Ended? {
      assert HintedBlocks(limit, [Terminal(StreamIsEnd)][1..], rem);
    } else {
      var h := rem[..HeaderLength];
      HeaderAtStart(rem);
      assert h[4..8] == rem[4..8];
      var run := LoopFrom(limit, t.next, t.left);
      LoopBlocksAreHinted(limit, t.next, rem);
      assert MimeSplit(limit, pending, stale, rem) == Prepend([], run);
      assert [] + run.results == run.results;
    }
  }

  /** A header at the start of `rem` is a header of its first ten bytes. */
  lemma HeaderAtStart(rem: seq<byte>)
    requires |rem| >= HeaderLength
    ensures IsHeaderAt(rem, 0) <==> IsHeaderAt(rem[..HeaderLength], 0)
  {
    MatchesAtIsHeaderAt(rem, 0);
    MatchesAtIsHeaderAt(rem[..HeaderLength], 0);
    assert rem[..HeaderLength][0..HeaderLength] == rem[0..HeaderLength];
  }

  /** A stream of one member whose header announces its whole length yields that member and `StreamIsEnd`. */
  lemma OneAnnouncedMember(limit: int, rem: seq<byte>)
    requires |rem| >= HeaderLength && IsHeaderAt(rem, 0) && ToInt32(rem[4..8]) == |rem| <= limit
    requires IsInt32(|rem| + HeaderLength)
    ensures MimeSplit(limit, 0, false, rem) == SplitRun([WithBlock(IndependentGzipBlock(rem)), Terminal(StreamIsEnd)], None, [])
  {
    HeaderAtStart(rem);
    assert rem[..HeaderLength][4..8] == rem[4..8];
    ReadSize(|rem|);
  }

  /** A stream shorter than a header yields only `StreamIsEnd` and keeps its bytes. */
  lemma ShortStreamEnds(limit: int, pending: int, rem: seq<byte>)
    requires 0 <= pending <= |rem| < HeaderLength
    ensures MimeSplit(limit, pending, false, rem) == SplitRun([Terminal(StreamIsEnd)], None, rem)
  {
  }

  // ---------------------------------------------------------------------------------
  // The enumeration over a stream.

  /** `GetBlockLengthFromGzipHeader` on the ten bytes of `headerBytes`. */
  method GetBlockLengthFromGzipHeader(limit: int, headerBytes: Segment) returns (r: Result<int, GzipSplittingStatus>)
    requires Valid(headerBytes) && headerBytes.count == HeaderLength
    ensures r == HintOf(limit, Bytes(headerBytes))
  {
    var header := FindFirst(headerBytes);
    if header.None? {
      return Failure(WrongFormat);
    }
    assert header.value.bytes == headerBytes;
    var length := GetMimetypeAsInt(header.value);
    Int32RoundTrip(length);
    if length == 0 {
      return Failure(CantReadBlock);
    }
    if length > limit {
      return Failure(CantReadBlock);
    }
    return Success(length);
  }

  /** Between steps the stream holds exactly the ten pushed-back header bytes in front of the rest. */
  predicate HoldsHeader(stream: RewindableStream)
    reads stream, stream.stream
  {
    stream.Valid() && stream.returnedBuffer.count == HeaderLength && !stream.someBufferLeft
  }

  /**
   * `SplitToIndependentBlocks`, run to the end of the enumeration: the results it yields
   * and the exception that ends it, if any.
   */
  method SplitToIndependentBlocks(splitter: MimeTypeLengthGzipSplitter, stream: RewindableStream)
    returns (results: seq<SplitResult>, thrown: Option<Exception>)
    requires stream.Valid()
    modifies stream, stream.stream
    ensures stream.Valid()
    ensures var run := MimeSplit(splitter.blockSizeLimit, old(stream.returnedBuffer.count), old(stream.HoldsEmptyReturn()), old(stream.Remaining()));
      results == run.results && thrown == run.thrown && (thrown.None? ==> stream.Remaining() == run.left)
    ensures thrown.None? ==>
      stream.returnedBuffer.count == MimeHeld(splitter.blockSizeLimit, old(stream.returnedBuffer.count), old(stream.HoldsEmptyReturn()), old(stream.Remaining()))
      && !stream.HoldsEmptyReturn()
  {
    var limit := splitter.blockSizeLimit;
    MimeSplitUnfolds(limit, stream.returnedBuffer.count, stream.HoldsEmptyReturn(), stream.Remaining());
    MimeHeldUnfolds(limit, stream.returnedBuffer.count, stream.HoldsEmptyReturn(), stream.Remaining());
    var blockLength, endOfStream, error, thrownByReturn := ReadFirstHeader(limit, stream);
    if thrownByReturn.Some? {
      return [], thrownByReturn;
    }
    if error.Some? {
      return [Terminal(error.value)], None;
    }
    if endOfStream {
      return [Terminal(StreamIsEnd)], None;
    }
    results, thrown := ReadBlocks(limit, blockLength, stream);
    assert [] + results == results;
  }

  /**
   * The loop of `SplitToIndependentBlocks`, from a stream holding the pushed-back header
   * that announces `blockLength`: the results it yields and the exception that ends it.
   */
  method ReadBlocks(limit: int, blockLength: int, stream: RewindableStream)
    returns (results: seq<SplitResult>, thrown: Option<Exception>)
    requires HoldsHeader(stream) && IsInt32(blockLength) && blockLength != 0
    modifies stream, stream.stream
    ensures stream.Valid()
    ensures var run := LoopFrom(limit, blockLength, old(stream.Remaining()));
      results == run.results && thrown == run.thrown && (thrown.None? ==> stream.Remaining() == run.left)
    ensures thrown.None? ==>
      stream.returnedBuffer.count == LoopHeld(limit, blockLength, old(stream.Remaining())) && !stream.HoldsEmptyReturn()
  {
    ghost var total := LoopFrom(limit, blockLength, stream.Remaining());
    ghost var held := LoopHeld(limit, blockLength, stream.Remaining());
    var length := blockLength;
    var endOfStream := false;
    results := [];
    while !endOfStream
      invariant stream.Valid()
      invariant !endOfStream ==> HoldsHeader(stream) && IsInt32(length) && length != 0
      invariant !endOfStream ==> Prepend(results, LoopFrom(limit, length, stream.Remaining())) == total
      invariant endOfStream ==> total == SplitRun(results + [Terminal(StreamIsEnd)], None, stream.Remaining())
      invariant !endOfStream ==> LoopHeld(limit, length, stream.Remaining()) == held
      invariant endOfStream ==> stream.returnedBuffer.count == held && !stream.HoldsEmptyReturn()
      decreases !endOfStream, |stream.Remaining()|
    {
      ghost var before, rem := results, stream.Remaining();
      var emitted, stop, nextThrown, next;
      emitted, endOfStream, stop, nextThrown, next := Step(limit, length, stream);
      LoopUnfolds(limit, length, rem);
      LoopHeldUnfolds(limit, length, rem);
      results := results + emitted;
      if stop {
        return results, nextThrown;
      }
      if endOfStream {
        assert results + [Terminal(StreamIsEnd)] == before + (emitted + [Terminal(StreamIsEnd)]);
      } else {
        PrependTwice(before, emitted, LoopFrom(limit, next, stream.Remaining()));
      }
      length := next;
    }
    results := results + [Terminal(StreamIsEnd)];
    return results, None;
  }

  /**
   * `ReadCurrentGzipBlockLengthFromStream` and the push-back of the header bytes read:
   * the first member's announced length, whether the stream ended, the status that ends
   * the enumeration at once, and the exception the push-back threw, if any.
   */
  method ReadFirstHeader(limit: int, stream: RewindableStream)
    returns (blockLength: int, endOfStream: bool, error: Option<GzipSplittingStatus>, thrown: Option<Exception>)
    requires stream.Valid()
    modifies stream, stream.stream
    ensures stream.Valid()
    ensures var t := FirstOf(limit, old(stream.returnedBuffer.count), old(stream.HoldsEmptyReturn()), old(stream.Remaining()));
      && (thrown.Some? ==> t.Stop? && t.run == SplitRun([], thrown, t.run.left))
      && (thrown.None? && error.Some? ==> error.value != Block && t == Stop(SplitRun([Terminal(error.value)], None, stream.Remaining())))
      && (thrown.None? && error.None? && endOfStream ==> t == Ended([], stream.Remaining()))
      && (thrown.None? && error.None? && !endOfStream ==> t == Continue([], blockLength, stream.Remaining()) && HoldsHeader(stream))
    ensures thrown.None? && (error.Some? || endOfStream) ==>
      stream.returnedBuffer.count == FirstHeld(old(stream.returnedBuffer.count), old(stream.HoldsEmptyReturn()), old(stream.Remaining()))
      && !stream.HoldsEmptyReturn()
  {
    ghost var rem := stream.Remaining();
    var headerReadBytes;
    blockLength, headerReadBytes, endOfStream, error := ReadCurrentGzipBlockLengthFromStream(limit, stream);
    thrown := None;
    if headerReadBytes.count > 0 {
      ghost var held, rest := Bytes(stream.returnedBuffer), stream.stream.Rest();
      var returned := stream.ReturnTailOfReadedBytes(headerReadBytes);
      if returned.Failure? {
        thrown := Some(returned.error);
        return;
      }
      PushedBackAll(held, rest, rem, headerReadBytes.count);
      assert stream.Remaining() == rem;
      assert stream.returnedBuffer.count == headerReadBytes.count;
    }
  }

  /**
   * `ReadCurrentGzipBlockLengthFromStream`: reads up to ten bytes; a full header gives
   * the announced length or the status `GetBlockLengthFromGzipHeader` reports.
   */
  method ReadCurrentGzipBlockLengthFromStream(limit: int, stream: RewindableStream)
    returns (length: int, headerBytes: Segment, endOfStream: bool, error: Option<GzipSplittingStatus>)
    requires stream.Valid()
    modifies stream, stream.stream
    ensures stream.Valid() && Valid(headerBytes) && headerBytes.count <= |old(stream.Remaining())|
    ensures Bytes(headerBytes) == old(stream.Remaining())[..headerBytes.count]
    ensures stream.Remaining() == old(stream.Remaining())[headerBytes.count..]
    ensures stream.position == old(stream.position) + headerBytes.count
    ensures stream.returnedBuffer.count == Unread(old(stream.returnedBuffer.count), headerBytes.count)
    ensures (stream.someBufferLeft <==> stream.returnedBuffer.count > 0) && !stream.HoldsEmptyReturn()
    ensures old(stream.HoldsEmptyReturn()) ==> headerBytes.count == 0 && endOfStream && error.None?
    ensures !old(stream.HoldsEmptyReturn()) ==>
      headerBytes.count == Min(HeaderLength, |old(stream.Remaining())|) && (endOfStream <==> |old(stream.Remaining())| < HeaderLength)
    ensures !old(stream.HoldsEmptyReturn()) && |old(stream.Remaining())| >= HeaderLength ==>
      var hint := HintOf(limit, old(stream.Remaining())[..HeaderLength]);
      (hint.Success? ==> error.None? && length == hint.value) && (hint.Failure? ==> error == Some(hint.error))
    ensures |old(stream.Remaining())| < HeaderLength ==> error.None?
  {
    length := 0;
    error := None;
    var bytes := new byte[HeaderLength];
    headerBytes, endOfStream := ReadExactBuffer(stream, bytes);
    if headerBytes.count < bytes.Length {
      if !endOfStream {
        error := Some(WrongFormat);
      }
    } else {
      var hint := GetBlockLengthFromGzipHeader(limit, headerBytes);
      if hint.Success? {
        length := hint.value;
      } else {
        error := Some(hint.error);
      }
    }
  }

  /** Pushing `rem[..upto]` back in front of what follows it, with nothing held, makes all of `rem` remain. */
  lemma PushedBackAll(held: seq<byte>, rest: seq<byte>, rem: seq<byte>, upto: int)
    requires 0 <= upto <= |rem| && held == [] && held + rest == rem[upto..]
    ensures held + rem[..upto] + rest == rem
  {
  }

  /** Pushing `rem[from..upto]` back in front of what follows it, with nothing held, makes `rem[from..]` remain. */
  lemma PushedBack(held: seq<byte>, rest: seq<byte>, rem: seq<byte>, from: int, upto: int)
    requires 0 <= from <= upto <= |rem| && held == [] && held + rest == rem[upto..]
    ensures held + rem[from..upto] + rest == rem[from..]
  {
  }

  lemma PrefixOfPrefix(rem: seq<byte>, k: int, n: int)
    requires 0 <= n <= k <= |rem|
    ensures rem[..k][..n] == rem[..n]
  {
  }

  /**
   * One turn of the loop of `SplitToIndependentBlocks`: the results it yields, whether the
   * stream ended, whether the enumeration stops here (and with which exception, if any),
   * and the next member's announced length.
   */
  method Step(limit: int, blockLength: int, stream: RewindableStream)
    returns (emitted: seq<SplitResult>, endOfStream: bool, stop: bool, thrown: Option<Exception>, next: int)
    requires HoldsHeader(stream) && IsInt32(blockLength) && blockLength != 0
    modifies stream, stream.stream
    ensures stream.Valid()
    ensures var t := StepOf(limit, blockLength, old(stream.Remaining()));
      && (stop ==> t.Stop? && t.run == SplitRun(emitted, thrown, t.run.left) && (thrown.None? ==> stream.Remaining() == t.run.left))
      && (!stop && endOfStream ==> t == Ended(emitted, stream.Remaining()))
      && (!stop && !endOfStream ==> t == Continue(emitted, next, stream.Remaining()) && HoldsHeader(stream))
    ensures (stop && thrown.None?) || (!stop && endOfStream) ==>
      stream.returnedBuffer.count == StepHeld(limit, blockLength, old(stream.Remaining())) && !stream.HoldsEmptyReturn()
  {
    ghost var rem := stream.Remaining();
    var size := WrapInt32(blockLength + HeaderLength);
    ReadSize(blockLength);
    next := 0;
    thrown := None;
    var read := ReadExactFullBufferOfSize(stream, size);
    if read.Failure? {
      return [], true, true, Some(read.error), 0;
    }
    var buffer := read.value.0;
    endOfStream := read.value.1;
    if !endOfStream && buffer.count == 0 {
      return [Terminal(CantReadBlock)], endOfStream, true, None, 0;
    }
    if buffer.count == blockLength && endOfStream {
      assert Bytes(buffer) == rem;
      return [WithBlock(IndependentGzipBlock(Bytes(buffer)))], endOfStream, false, None, 0;
    }
    if buffer.count == size {
      var headerBytes := SliceFromEnd(buffer, HeaderLength);
      if headerBytes.Failure? {
        return [], endOfStream, true, Some(headerBytes.error), 0;
      }
      emitted, stop, next := StepAfterFullRead(limit, blockLength, stream, buffer, headerBytes.value, rem);
      return;
    }
    ghost var held, rest := Bytes(stream.returnedBuffer), stream.stream.Rest();
    PushedBackAll(held, rest, rem, buffer.count);
    var returned := stream.ReturnTailOfReadedBytes(buffer);
    assert returned.Success?;
    return [Terminal(CantReadBlock)], endOfStream, true, None, 0;
  }

  /** The rest of a turn once the member and the next header were read in full. */
  method StepAfterFullRead(limit: int, blockLength: int, stream: RewindableStream, buffer: Segment, headerBytes: Segment, ghost rem: seq<byte>)
    returns (emitted: seq<SplitResult>, stop: bool, next: int)
    requires stream.Valid() && blockLength > 0 && IsInt32(blockLength + HeaderLength)
    requires Valid(buffer) && !buffer.arr.Null? && buffer.count == blockLength + HeaderLength <= |rem|
    requires Bytes(buffer) == rem[..buffer.count] && stream.Remaining() == rem[buffer.count..]
    requires stream.returnedBuffer.count == 0 && !stream.someBufferLeft && stream.position >= buffer.count
    requires Valid(headerBytes) && headerBytes.arr == buffer.arr && Bytes(headerBytes) == Bytes(buffer)[blockLength..]
    modifies stream
    ensures stream.Valid()
    ensures var t := AfterFullRead(limit, blockLength, rem);
      && (stop ==> t == Stop(SplitRun(emitted, None, stream.Remaining())))
      && (!stop ==> t == Continue(emitted, next, stream.Remaining()) && HoldsHeader(stream))
    ensures stop ==> stream.returnedBuffer.count == StepHeld(limit, blockLength, rem) && !stream.HoldsEmptyReturn()
  {
    assert Bytes(headerBytes) == rem[blockLength..blockLength + HeaderLength];
    ReadSize(blockLength);
    var hint := GetBlockLengthFromGzipHeader(limit, headerBytes);
    if hint.Failure? && hint.error == WrongFormat {
      ReturnWholeRead(stream, buffer, rem);
      return [Terminal(CantReadBlock)], true, 0;
    }
    var blockBytes := ReturnNextHeader(stream, buffer, headerBytes, blockLength, rem);
    var block := WithBlock(IndependentGzipBlock(blockBytes));
    if hint.Failure? {
      return [block, Terminal(hint.error)], true, 0;
    }
    return [block], false, hint.value;
  }

  /** `ReturnTailOfReadedBytes(buffer)` after a read of `buffer.count` bytes with nothing held: all of `rem` remains. */
  method ReturnWholeRead(stream: RewindableStream, buffer: Segment, ghost rem: seq<byte>)
    requires stream.Valid() && Valid(buffer) && buffer.count <= |rem|
    requires Bytes(buffer) == rem[..buffer.count] && stream.Remaining() == rem[buffer.count..]
    requires stream.returnedBuffer.count == 0 && !stream.someBufferLeft && stream.position >= buffer.count
    modifies stream
    ensures stream.Valid() && stream.Remaining() == rem
    ensures stream.returnedBuffer.count == buffer.count && (buffer.count > 0 ==> !stream.HoldsEmptyReturn())
  {
    ghost var held, rest := Bytes(stream.returnedBuffer), stream.stream.Rest();
    PushedBackAll(held, rest, rem, buffer.count);
    var returned := stream.ReturnTailOfReadedBytes(buffer);
    assert returned.Success?;
  }

  /**
   * `ReturnTailOfReadedBytes(headerBytes)` and `RemoveFromEnd(GzipHeader.Length)` after a
   * full read of a member and the next header: the member's bytes, with the header held
   * in front of the rest.
   */
  method ReturnNextHeader(stream: RewindableStream, buffer: Segment, headerBytes: Segment, blockLength: int, ghost rem: seq<byte>)
    returns (blockBytes: seq<byte>)
    requires stream.Valid() && blockLength > 0
    requires Valid(buffer) && !buffer.arr.Null? && buffer.count == blockLength + HeaderLength <= |rem|
    requires Bytes(buffer) == rem[..buffer.count] && stream.Remaining() == rem[buffer.count..]
    requires stream.returnedBuffer.count == 0 && !stream.someBufferLeft && stream.position >= buffer.count
    requires Valid(headerBytes) && Bytes(headerBytes) == Bytes(buffer)[blockLength..]
    modifies stream
    ensures stream.Valid() && HoldsHeader(stream)
    ensures blockBytes == rem[..blockLength] && stream.Remaining() == rem[blockLength..]
  {
    RemoveAndSliceFromEndReassemble(buffer, HeaderLength);
    var independent := RemoveFromEnd(buffer, HeaderLength).value;
    blockBytes := Bytes(independent);
    PrefixOfPrefix(rem, buffer.count, blockLength);
    ghost var held, rest := Bytes(stream.returnedBuffer), stream.stream.Rest();
    PushedBack(held, rest, rem, blockLength, buffer.count);
    var returned := stream.ReturnTailOfReadedBytes(headerBytes);
    assert returned.Success?;
  }
}
