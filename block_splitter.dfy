/**
 * Decompression/GzipSplitting/GzipBlockSplitter.cs: tries the splitters in a fixed order
 * on one rewindable stream. The blocks a splitter yields are passed on; `StreamIsEnd`
 * ends the split; `WrongFormat` ends it and then throws; `CantReadBlock` hands the stream,
 * with the bytes the splitter pushed back, to the next splitter. When no splitter ended
 * the split, one streaming block over the rest of the stream comes last.
 *
 * `ChainFrom` is the reference definition over the enumerations of the splitters in
 * order, each starting on the bytes the one before it left; `SplitBlocks` runs the two
 * splitters on a stream and is proved to produce exactly that.
 */
module BlockSplitting {
  import opened Binary
  import opened Wrappers
  import opened GzipHeaders
  import opened SplitResults
  import opened Streams
  import opened MimeSplitting
  import opened BufferSplitting

  /** `IGzipBlock`: an independent member, or the `StreamingGzipBlock` over the rest of the stream. */
  datatype GzipBlock = Independent(member: IndependentGzipBlock) | Streaming

  /** What `SplitBlocks` yields, the exception that ends it if one does, and the bytes its stream then holds. */
  datatype BlocksRun = BlocksRun(blocks: seq<GzipBlock>, thrown: Option<Exception>, left: seq<byte>)

  /** The splitter: the two splitters it tries, in that order (the log is not modelled). */
  datatype GzipBlockSplitter = GzipBlockSplitter(mime: MimeTypeLengthGzipSplitter, buffer: BufferBoundGzipSplitter)

  /** The constructor builds the size-hint splitter first, so its check comes first. */
  function NewGzipBlockSplitter(readWithKnownLengthBlockSizeLimit: int, independentBlockSearchingBufferSize: int)
    : (r: Result<GzipBlockSplitter, Exception>)
    ensures r.Success? <==> readWithKnownLengthBlockSizeLimit >= 1 && independentBlockSearchingBufferSize > HeaderLength
    ensures r.Failure? ==> r.error == ArgumentOutOfRangeException
    ensures r.Success? ==> (r.value.mime.blockSizeLimit == readWithKnownLengthBlockSizeLimit
      && r.value.buffer.bufferSize == independentBlockSearchingBufferSize)
  {
    var mime := NewMimeTypeLengthGzipSplitter(readWithKnownLengthBlockSizeLimit);
    if mime.Failure? then Failure(mime.error)
    else
      var buffer := NewBufferBoundGzipSplitter(independentBlockSearchingBufferSize);
      if buffer.Failure? then Failure(buffer.error)
      else Success(GzipBlockSplitter(mime.value, buffer.value))
  }

  // ---------------------------------------------------------------------------------
  // The reference definition.

  predicate AllWellFormed(rs: seq<SplitResult>) {
    forall i :: 0 <= i < |rs| ==> SplitResults.WellFormed(rs[i])
  }

  predicate RunsWellFormed(runs: seq<SplitRun>)
    decreases |runs|
  {
    runs != [] ==> AllWellFormed(runs[0].results) && RunsWellFormed(runs[1..])
  }

  /**
   * How `SplitBlocks` leaves one splitter's enumeration, with the blocks it passed on:
   * at `StreamIsEnd`, at `WrongFormat`, at an exception of the enumeration, at its end
   * without a status, or at `CantReadBlock`.
   */
  datatype Stage =
    | AtStreamEnd(blocks: seq<GzipBlock>)
    | AtWrongFormat(blocks: seq<GzipBlock>)
    | AtException(blocks: seq<GzipBlock>, error: Exception)
    | AtEnumerationEnd(blocks: seq<GzipBlock>)
    | AtCantReadBlock(blocks: seq<GzipBlock>)

  function WithBlocks(bs: seq<GzipBlock>, s: Stage): (r: Stage)
    ensures r.blocks == bs + s.blocks
  {
    match s
    case AtStreamEnd(b) => AtStreamEnd(bs + b)
    case AtWrongFormat(b) => AtWrongFormat(bs + b)
    case AtException(b, e) => AtException(bs + b, e)
    case AtEnumerationEnd(b) => AtEnumerationEnd(bs + b)
    case AtCantReadBlock(b) => AtCantReadBlock(bs + b)
  }

  lemma WithBlocksTwice(a: seq<GzipBlock>, b: seq<GzipBlock>, s: Stage)
    ensures WithBlocks(a, WithBlocks(b, s)) == WithBlocks(a + b, s)
  {
    assert a + (b + s.blocks) == (a + b) + s.blocks;
  }

  /** The `foreach` over one enumeration that yielded `rs` and then threw `thrown`, if anything. */
  function StageOf(rs: seq<SplitResult>, thrown: Option<Exception>): (s: Stage)
    requires AllWellFormed(rs)
    ensures forall i :: 0 <= i < |s.blocks| ==> s.blocks[i].Independent?
    decreases |rs|
  {
    if rs == [] then
      if thrown.Some? then AtException([], thrown.value) else AtEnumerationEnd([])
    else
      match rs[0].status
      case Block => WithBlocks([Independent(rs[0].block.value)], StageOf(rs[1..], thrown))
      case StreamIsEnd => AtStreamEnd([])
      case WrongFormat => AtWrongFormat([])
      case CantReadBlock => AtCantReadBlock([])
  }

  function PrependBlocks(bs: seq<GzipBlock>, r: BlocksRun): BlocksRun {
    BlocksRun(bs + r.blocks, r.thrown, r.left)
  }

  /**
   * The end of `SplitBlocks` after a stage that does not hand the stream over, or after
   * the last splitter: throws after `WrongFormat` or an exception, and yields the
   * streaming block over the `left` bytes unless the stream ended.
   */
  function Closing(s: Stage, left: seq<byte>): (r: BlocksRun)
    ensures r.left == left && (r.blocks == s.blocks || r.blocks == s.blocks + [Streaming])
    ensures r.thrown.Some? <==> s.AtWrongFormat? || s.AtException?
  {
    match s
    case AtStreamEnd(bs) => BlocksRun(bs, None, left)
    case AtWrongFormat(bs) => BlocksRun(bs, Some(InvalidOperationException), left)
    case AtException(bs, e) => BlocksRun(bs, Some(e), left)
    case AtEnumerationEnd(bs) => BlocksRun(bs + [Streaming], None, left)
    case AtCantReadBlock(bs) => BlocksRun(bs + [Streaming], None, left)
  }

  /**
   * `SplitBlocks` over the enumerations `runs` of the splitters in order, the first
   * starting on a stream holding `start` and each next one on the bytes the one before
   * left.
   */
  function ChainFrom(runs: seq<SplitRun>, start: seq<byte>): (r: BlocksRun)
    requires RunsWellFormed(runs)
    decreases |runs|
  {
    if runs == [] then BlocksRun([Streaming], None, start)
    else
      var s := StageOf(runs[0].results, runs[0].thrown);
      if s.AtCantReadBlock? && |runs| > 1 then PrependBlocks(s.blocks, ChainFrom(runs[1..], runs[0].left))
      else Closing(s, runs[0].left)
  }

  /** The last splitter's enumeration ends the split. */
  lemma ChainLast(run: SplitRun, start: seq<byte>)
    requires AllWellFormed(run.results)
    ensures ChainFrom([run], start) == Closing(StageOf(run.results, run.thrown), run.left)
  {
  }

  /** `Split` after the first splitter's enumeration. */
  lemma SplitUnfolds(splitter: GzipBlockSplitter, lengthIsZero: bool, stale: bool, pending: int, rem: seq<byte>)
    requires splitter.buffer.bufferSize > HeaderLength
    ensures var first := MimeSplit(splitter.mime.blockSizeLimit, 0, false, rem);
      var second := BufferSplit(splitter.buffer.bufferSize, lengthIsZero, stale, pending, first.left);
      Orderly(first) && Orderly(second)
      && var s := StageOf(first.results, first.thrown);
      && (s.AtException? <==> first.thrown.Some?)
      && (!s.AtCantReadBlock? ==> Split(splitter, lengthIsZero, stale, pending, rem) == Closing(s, first.left))
      && (s.AtCantReadBlock? ==>
            Split(splitter, lengthIsZero, stale, pending, rem) == PrependBlocks(s.blocks, Closing(StageOf(second.results, second.thrown), second.left)))
  {
    var first := MimeSplit(splitter.mime.blockSizeLimit, 0, false, rem);
    var second := BufferSplit(splitter.buffer.bufferSize, lengthIsZero, stale, pending, first.left);
    SplitLinked(splitter, lengthIsZero, stale, pending, rem);
    StageBytes(first.results, first.thrown);
    assert [first, second][1..] == [second];
    ChainLast(second, first.left);
  }

  /**
   * `SplitBlocks` of `splitter` on a stream holding `rem`: the size-hint splitter on the
   * fresh stream, then the buffer splitter on what it left, where `stale` and `pending`
   * describe the bytes the first splitter pushed back.
   */
  function Split(splitter: GzipBlockSplitter, lengthIsZero: bool, stale: bool, pending: int, rem: seq<byte>): (r: BlocksRun)
    requires splitter.buffer.bufferSize > HeaderLength
  {
    var first := MimeSplit(splitter.mime.blockSizeLimit, 0, false, rem);
    var second := BufferSplit(splitter.buffer.bufferSize, lengthIsZero, stale, pending, first.left);
    SplitLinked(splitter, lengthIsZero, stale, pending, rem);
    ChainWellFormed([first, second], rem);
    ChainFrom([first, second], rem)
  }

  // ---------------------------------------------------------------------------------
  // What the reference definition promises.

  /** The bytes of the independent blocks among `bs`, in order. */
  function MemberBytes(bs: seq<GzipBlock>): seq<byte>
    decreases |bs|
  {
    if bs == [] then []
    else (if bs[0].Independent? then bs[0].member.bytes else []) + MemberBytes(bs[1..])
  }

  lemma {:induction false} MemberBytesAppend(a: seq<GzipBlock>, b: seq<GzipBlock>)
    ensures MemberBytes(a + b) == MemberBytes(a) + MemberBytes(b)
    decreases |a|
  {
    if a == [] {
      assert a + b == b;
    } else {
      assert (a + b)[0] == a[0] && (a + b)[1..] == a[1..] + b;
      MemberBytesAppend(a[1..], b);
    }
  }

  /**
   * An enumeration as the splitters produce it: well-formed results, a status only as the
   * last one, and only blocks before an exception.
   */
  predicate Orderly(run: SplitRun) {
    AllWellFormed(run.results)
    && (forall i :: 0 <= i < |run.results| - 1 ==> HasBlock(run.results[i]))
    && (run.thrown.Some? ==> forall i :: 0 <= i < |run.results| ==> HasBlock(run.results[i]))
  }

  lemma ShapedWellFormed(run: SplitRun)
    requires Shaped(run) || (run.results == [] && run.thrown.None?)
    ensures Orderly(run)
  {
    var rs := run.results;
    if run.thrown.None? && rs != [] {
      forall i | 0 <= i < |rs| - 1
        ensures HasBlock(rs[i]) && SplitResults.WellFormed(rs[i])
      {
        assert rs[..|rs| - 1][i] == rs[i];
      }
    }
  }

  /**
   * The enumerations `runs` in order from `start`: each orderly, and each one that ends
   * without an exception yielding blocks whose bytes, followed by what it leaves, are the
   * bytes it started on.
   */
  predicate Linked(runs: seq<SplitRun>, start: seq<byte>)
    decreases |runs|
  {
    runs != [] ==>
      Orderly(runs[0])
      && (runs[0].thrown.None? ==> BlockBytes(runs[0].results) + runs[0].left == start)
      && Linked(runs[1..], runs[0].left)
  }

  /** The blocks one stage passes on carry the bytes of all blocks of an orderly enumeration; it ends in an exception only when the enumeration does. */
  lemma {:induction false} StageBytes(rs: seq<SplitResult>, thrown: Option<Exception>)
    requires Orderly(SplitRun(rs, thrown, []))
    ensures var s := StageOf(rs, thrown);
      && MemberBytes(s.blocks) == BlockBytes(rs)
      && (s.AtException? <==> thrown.Some?)
      && (s.AtException? ==> s.error == thrown.value)
    decreases |rs|
  {
    if rs != [] {
      if rs[0].status == Block {
        assert Orderly(SplitRun(rs[1..], thrown, [])) by {
          forall i | 0 <= i < |rs[1..]| - 1
            ensures HasBlock(rs[1..][i])
          {
            assert rs[1..][i] == rs[i + 1];
          }
        }
        StageBytes(rs[1..], thrown);
        MemberBytesAppend([Independent(rs[0].block.value)], StageOf(rs[1..], thrown).blocks);
        assert MemberBytes([Independent(rs[0].block.value)]) == rs[0].block.value.bytes + MemberBytes([]);
      } else {
        assert |rs| == 1;
        assert BlockBytes(rs) == [] + BlockBytes(rs[1..]);
      }
    }
  }

  /**
   * The bytes of the independent blocks, followed by what the stream holds at the end,
   * are the bytes the stream held at the start, unless the split throws.
   */
  lemma {:induction false} ChainConsumes(runs: seq<SplitRun>, start: seq<byte>)
    requires Linked(runs, start)
    ensures RunsWellFormed(runs)
    ensures var r := ChainFrom(runs, start);
      r.thrown.None? ==> MemberBytes(r.blocks) + r.left == start
    decreases |runs|
  {
    if runs != [] {
      var run := runs[0];
      ChainWellFormed(runs, start);
      StageBytes(run.results, run.thrown);
      var s := StageOf(run.results, run.thrown);
      if s.AtCantReadBlock? && |runs| > 1 {
        ChainConsumes(runs[1..], run.left);
        MemberBytesAppend(s.blocks, ChainFrom(runs[1..], run.left).blocks);
      } else {
        MemberBytesAppend(s.blocks, [Streaming]);
        assert MemberBytes([Streaming]) == [] + MemberBytes([]);
      }
    }
  }

  lemma {:induction false} ChainWellFormed(runs: seq<SplitRun>, start: seq<byte>)
    requires Linked(runs, start)
    ensures RunsWellFormed(runs)
    decreases |runs|
  {
    if runs != [] {
      ChainWellFormed(runs[1..], runs[0].left);
    }
  }

  /**
   * Every block but the last is independent; a streaming block comes only last, and only
   * when the split does not throw.
   */
  lemma {:induction false} ChainShape(runs: seq<SplitRun>, start: seq<byte>)
    requires RunsWellFormed(runs)
    ensures var r := ChainFrom(runs, start);
      && (forall i :: 0 <= i < |r.blocks| - 1 ==> r.blocks[i].Independent?)
      && (r.blocks != [] && r.blocks[|r.blocks| - 1].Streaming? ==> r.thrown.None?)
    decreases |runs|
  {
    if runs != [] {
      var run := runs[0];
      var s := StageOf(run.results, run.thrown);
      if s.AtCantReadBlock? && |runs| > 1 {
        var bs := s.blocks;
        ChainShape(runs[1..], run.left);
        var rest := ChainFrom(runs[1..], run.left);
        forall i | 0 <= i < |bs + rest.blocks| - 1
          ensures (bs + rest.blocks)[i].Independent?
        {
          if i >= |bs| {
            assert (bs + rest.blocks)[i] == rest.blocks[i - |bs|];
          }
        }
      }
    }
  }

  /** The two splitters' enumerations are linked from the bytes the stream starts with. */
  lemma SplitLinked(splitter: GzipBlockSplitter, lengthIsZero: bool, stale: bool, pending: int, rem: seq<byte>)
    requires splitter.buffer.bufferSize > HeaderLength
    ensures var first := MimeSplit(splitter.mime.blockSizeLimit, 0, false, rem);
      Linked([first, BufferSplit(splitter.buffer.bufferSize, lengthIsZero, stale, pending, first.left)], rem)
  {
    var limit, size := splitter.mime.blockSizeLimit, splitter.buffer.bufferSize;
    var first := MimeSplit(limit, 0, false, rem);
    var second := BufferSplit(size, lengthIsZero, stale, pending, first.left);
    MimeSplitShape(limit, 0, false, rem);
    MimeSplitConsumes(limit, 0, false, rem);
    ShapedWellFormed(first);
    BufferSplitShape(size, lengthIsZero, stale, pending, first.left);
    BufferSplitConsumes(size, lengthIsZero, stale, pending, first.left);
    ShapedWellFormed(second);
    assert [first, second][1..] == [second] && [second][1..] == [];
  }

  /**
   * Unless `SplitBlocks` throws, its independent blocks and then the bytes its stream
   * still holds (those the streaming block reads, when there is one) are exactly the
   * bytes of the stream.
   */
  lemma SplitConsumes(splitter: GzipBlockSplitter, lengthIsZero: bool, stale: bool, pending: int, rem: seq<byte>)
    requires splitter.buffer.bufferSize > HeaderLength
    ensures var r := Split(splitter, lengthIsZero, stale, pending, rem);
      r.thrown.None? ==> MemberBytes(r.blocks) + r.left == rem
  {
    var first := MimeSplit(splitter.mime.blockSizeLimit, 0, false, rem);
    SplitLinked(splitter, lengthIsZero, stale, pending, rem);
    ChainConsumes([first, BufferSplit(splitter.buffer.bufferSize, lengthIsZero, stale, pending, first.left)], rem);
  }

  /** `SplitBlocks` yields independent blocks and at most one streaming block, last, and none when it throws. */
  lemma SplitShape(splitter: GzipBlockSplitter, lengthIsZero: bool, stale: bool, pending: int, rem: seq<byte>)
    requires splitter.buffer.bufferSize > HeaderLength
    ensures var r := Split(splitter, lengthIsZero, stale, pending, rem);
      && (forall i :: 0 <= i < |r.blocks| - 1 ==> r.blocks[i].Independent?)
      && (r.blocks != [] && r.blocks[|r.blocks| - 1].Streaming? ==> r.thrown.None?)
  {
    var first := MimeSplit(splitter.mime.blockSizeLimit, 0, false, rem);
    SplitLinked(splitter, lengthIsZero, stale, pending, rem);
    ChainWellFormed([first, BufferSplit(splitter.buffer.bufferSize, lengthIsZero, stale, pending, first.left)], rem);
    ChainShape([first, BufferSplit(splitter.buffer.bufferSize, lengthIsZero, stale, pending, first.left)], rem);
  }

  /** A stream of ten bytes or more that does not start with a gzip header is rejected before any block. */
  lemma SplitRejectsNonGzip(splitter: GzipBlockSplitter, lengthIsZero: bool, stale: bool, pending: int, rem: seq<byte>)
    requires splitter.buffer.bufferSize > HeaderLength
    requires |rem| >= HeaderLength && !IsHeaderAt(rem, 0)
    ensures Split(splitter, lengthIsZero, stale, pending, rem) == BlocksRun([], Some(InvalidOperationException), rem)
  {
    HeaderAtStart(rem);
  }

  /** A stream shorter than a header yields no block at all, and does not throw. */
  lemma SplitShortStream(splitter: GzipBlockSplitter, lengthIsZero: bool, stale: bool, pending: int, rem: seq<byte>)
    requires splitter.buffer.bufferSize > HeaderLength && |rem| < HeaderLength
    ensures Split(splitter, lengthIsZero, stale, pending, rem) == BlocksRun([], None, rem)
  {
    ShortStreamEnds(splitter.mime.blockSizeLimit, 0, rem);
  }

  /** A single member whose header announces its own length, within the limit, is one independent block. */
  lemma SplitOneMember(splitter: GzipBlockSplitter, lengthIsZero: bool, stale: bool, pending: int, rem: seq<byte>)
    requires splitter.buffer.bufferSize > HeaderLength
    requires |rem| >= HeaderLength && IsHeaderAt(rem, 0) && ToInt32(rem[4..8]) == |rem| <= splitter.mime.blockSizeLimit
    requires IsInt32(|rem| + HeaderLength)
    ensures Split(splitter, lengthIsZero, stale, pending, rem) == BlocksRun([Independent(IndependentGzipBlock(rem))], None, [])
  {
    OneAnnouncedMember(splitter.mime.blockSizeLimit, rem);
    var rs := [WithBlock(IndependentGzipBlock(rem)), Terminal(StreamIsEnd)];
    assert rs[1..] == [Terminal(StreamIsEnd)];
    assert StageOf(rs, None) == AtStreamEnd([Independent(IndependentGzipBlock(rem))]);
  }

  /**
   * A first member whose MTIME field announces `L` bytes, within the size limit, followed at
   * byte `L` by something that is not a header: the size-hint splitter pushes back all
   * `L + 10` bytes it read and reports `CantReadBlock`. When that is more than the buffer
   * splitter's buffer, the buffer splitter's first read leaves some of them unread, pushing
   * back is refused, and, when that buffer holds no other header, the whole split throws
   * before yielding any block.
   */
  lemma WrongHintOverflowsBuffer(splitter: GzipBlockSplitter, rem: seq<byte>)
    requires splitter.buffer.bufferSize > HeaderLength && splitter.mime.blockSizeLimit >= 1
    requires |rem| >= HeaderLength && IsHeaderAt(rem, 0)
    requires var L := ToInt32(rem[4..8]);
      0 < L <= splitter.mime.blockSizeLimit && IsInt32(L + HeaderLength) && L + HeaderLength <= |rem|
      && !IsHeaderAt(rem[L..L + HeaderLength], 0)
      && L + HeaderLength > splitter.buffer.bufferSize
    requires AllHeaders(rem[..splitter.buffer.bufferSize]) == [0]
    ensures SplitOf(splitter, false, rem).blocks == [] && SplitOf(splitter, false, rem).thrown == Some(InvalidOperationException)
  {
    var L := ToInt32(rem[4..8]);
    WrongHintPushesBackAll(splitter.mime.blockSizeLimit, rem);
    BufferSplitOverfullThrows(splitter.buffer.bufferSize, L + HeaderLength, rem);
    SplitAfterCantReadBlock(splitter, L + HeaderLength, rem, InvalidOperationException, rem[splitter.buffer.bufferSize..]);
    assert SplitOf(splitter, false, rem) == Split(splitter, false, false, L + HeaderLength, rem);
  }

  /**
   * After a size-hint enumeration that gave up at once, a buffer splitter that throws before
   * yielding anything makes the whole split throw with no block.
   */
  lemma SplitAfterCantReadBlock(splitter: GzipBlockSplitter, pending: int, rem: seq<byte>, e: Exception, left: seq<byte>)
    requires splitter.buffer.bufferSize > HeaderLength
    requires MimeSplit(splitter.mime.blockSizeLimit, 0, false, rem) == SplitRun([Terminal(CantReadBlock)], None, rem)
    requires BufferSplit(splitter.buffer.bufferSize, false, false, pending, rem) == SplitRun([], Some(e), left)
    ensures Split(splitter, false, false, pending, rem) == BlocksRun([], Some(e), left)
  {
    var first := MimeSplit(splitter.mime.blockSizeLimit, 0, false, rem);
    assert first.results[1..] == [];
    assert StageOf(first.results, first.thrown) == AtCantReadBlock([]);
    assert StageOf([], Some(e)) == AtException([], e);
    SplitUnfolds(splitter, false, false, pending, rem);
  }

  /**
   * The constructor as evidently intended: it also refuses a size limit whose members, with
   * the header after them, do not fit in the buffer splitter's buffer.
   */
  function NewGzipBlockSplitterChecked(readWithKnownLengthBlockSizeLimit: int, independentBlockSearchingBufferSize: int)
    : (r: Result<GzipBlockSplitter, Exception>)
    ensures r.Success? <==>
      NewGzipBlockSplitter(readWithKnownLengthBlockSizeLimit, independentBlockSearchingBufferSize).Success?
      && readWithKnownLengthBlockSizeLimit + HeaderLength <= independentBlockSearchingBufferSize
    ensures r.Success? ==> r == NewGzipBlockSplitter(readWithKnownLengthBlockSizeLimit, independentBlockSearchingBufferSize)
    ensures r.Failure? ==> r.error == ArgumentOutOfRangeException
  {
    var splitter := NewGzipBlockSplitter(readWithKnownLengthBlockSizeLimit, independentBlockSearchingBufferSize);
    if splitter.Success? && readWithKnownLengthBlockSizeLimit + HeaderLength > independentBlockSearchingBufferSize then
      Failure(ArgumentOutOfRangeException)
    else splitter
  }

  /**
   * With a splitter the checked constructor accepts, the buffer splitter never throws: the
   * size-hint splitter pushes back at most a member within the limit and the next header,
   * which its first read takes in whole.
   */
  lemma CheckedSplitterNeverOverflows(limit: int, bufferSize: int, lengthIsZero: bool, rem: seq<byte>)
    requires NewGzipBlockSplitterChecked(limit, bufferSize).Success?
    ensures var splitter := NewGzipBlockSplitterChecked(limit, bufferSize).value;
      var first := MimeSplit(limit, 0, false, rem);
      first.thrown.None? ==>
        BufferSplit(bufferSize, lengthIsZero, false, MimeHeld(limit, 0, false, rem), first.left).thrown.None?
  {
    var first := MimeSplit(limit, 0, false, rem);
    if first.thrown.None? {
      MimeHeldBound(limit, rem);
      BufferSplitThrows(bufferSize, lengthIsZero, false, MimeHeld(limit, 0, false, rem), first.left);
    }
  }

  // ---------------------------------------------------------------------------------
  // The split over a stream.

  /**
   * `SplitBlocks` of `splitter` on a stream holding `rem`, with the push-back the size-hint
   * splitter leaves for the buffer splitter: `MimeHeld` returned bytes and no empty
   * returned segment.
   */
  function SplitOf(splitter: GzipBlockSplitter, lengthIsZero: bool, rem: seq<byte>): (r: BlocksRun)
    requires splitter.buffer.bufferSize > HeaderLength
  {
    Split(splitter, lengthIsZero, false, MimeHeld(splitter.mime.blockSizeLimit, 0, false, rem), rem)
  }

  /** When the size-hint splitter throws, the buffer splitter never runs, so the push-back left for it does not matter. */
  lemma SplitIgnoresPushBack(splitter: GzipBlockSplitter, lengthIsZero: bool, stale: bool, pending: int, stale': bool, pending': int, rem: seq<byte>)
    requires splitter.buffer.bufferSize > HeaderLength
    requires MimeSplit(splitter.mime.blockSizeLimit, 0, false, rem).thrown.Some?
    ensures Split(splitter, lengthIsZero, stale, pending, rem) == Split(splitter, lengthIsZero, stale', pending', rem)
  {
    SplitUnfolds(splitter, lengthIsZero, stale, pending, rem);
    SplitUnfolds(splitter, lengthIsZero, stale', pending', rem);
  }

  /**
   * `SplitBlocks` on the wrapped stream `source`: returns the blocks and the rewindable
   * stream the streaming block reads, as `SplitOf` describes.
   */
  method SplitBlocks(splitter: GzipBlockSplitter, source: ByteSource)
    returns (blocks: seq<GzipBlock>, thrown: Option<Exception>, inputStream: RewindableStream)
    requires source.Valid() && splitter.buffer.bufferSize > HeaderLength
    modifies source
    ensures fresh(inputStream) && inputStream.stream == source
    ensures var r := SplitOf(splitter, |source.data| == 0, old(source.Rest()));
      blocks == r.blocks && thrown == r.thrown
      && (thrown.None? ==> inputStream.Valid() && inputStream.Remaining() == r.left)
  {
    inputStream := new RewindableStream(source);
    ghost var rem := inputStream.Remaining();
    assert rem == source.Rest();
    ghost var limit, size := splitter.mime.blockSizeLimit, splitter.buffer.bufferSize;
    ghost var first := MimeSplit(limit, 0, false, rem);
    var results, splitterThrown := MimeSplitting.SplitToIndependentBlocks(splitter.mime, inputStream);
    ghost var stale, pending := inputStream.HoldsEmptyReturn(), inputStream.returnedBuffer.count;
    ghost var second := BufferSplit(size, |source.data| == 0, stale, pending, first.left);
    SplitOrderly(splitter, |source.data| == 0, stale, pending, rem);
    blocks, thrown := SplitRest(splitter.buffer, inputStream, results, splitterThrown, first, second);
    ghost var left := if thrown.None? then inputStream.Remaining() else [];
    SplitAssembles(splitter, |source.data| == 0, stale, pending, rem, blocks, thrown, left);
    if first.thrown.Some? {
      SplitIgnoresPushBack(splitter, |source.data| == 0, stale, pending, false, MimeHeld(limit, 0, false, rem), rem);
    }
  }

  /** Both enumerations are orderly, and the first ends in an exception exactly when its stage does. */
  lemma SplitOrderly(splitter: GzipBlockSplitter, lengthIsZero: bool, stale: bool, pending: int, rem: seq<byte>)
    requires splitter.buffer.bufferSize > HeaderLength
    ensures var first := MimeSplit(splitter.mime.blockSizeLimit, 0, false, rem);
      Orderly(first) && Orderly(BufferSplit(splitter.buffer.bufferSize, lengthIsZero, stale, pending, first.left))
  {
    SplitUnfolds(splitter, lengthIsZero, stale, pending, rem);
  }

  /** What `SplitRest` promises after the first enumeration is `Split`. */
  lemma SplitAssembles(splitter: GzipBlockSplitter, lengthIsZero: bool, stale: bool, pending: int, rem: seq<byte>,
                       blocks: seq<GzipBlock>, thrown: Option<Exception>, left: seq<byte>)
    requires splitter.buffer.bufferSize > HeaderLength
    requires var first := MimeSplit(splitter.mime.blockSizeLimit, 0, false, rem);
      var second := BufferSplit(splitter.buffer.bufferSize, lengthIsZero, stale, pending, first.left);
      Orderly(first) && Orderly(second)
      && var s := StageOf(first.results, first.thrown);
      && (!s.AtCantReadBlock? ==>
            BlocksRun(blocks, thrown, first.left) == Closing(s, first.left) && (thrown.None? ==> left == first.left))
      && (s.AtCantReadBlock? ==>
            BlocksRun(blocks, thrown, second.left) == PrependBlocks(s.blocks, Closing(StageOf(second.results, second.thrown), second.left))
            && (thrown.None? ==> left == second.left))
    ensures var r := Split(splitter, lengthIsZero, stale, pending, rem);
      blocks == r.blocks && thrown == r.thrown && (thrown.None? ==> left == r.left)
  {
    SplitUnfolds(splitter, lengthIsZero, stale, pending, rem);
  }

  /**
   * `SplitBlocks` once the size-hint splitter's enumeration `first` is done: its stage,
   * then either the end of the split or the buffer splitter's enumeration `second` on the
   * stream as it was left.
   */
  method SplitRest(splitter: BufferBoundGzipSplitter, inputStream: RewindableStream,
                   results: seq<SplitResult>, splitterThrown: Option<Exception>, ghost first: SplitRun, ghost second: SplitRun)
    returns (blocks: seq<GzipBlock>, thrown: Option<Exception>)
    requires inputStream.Valid() && splitter.bufferSize > HeaderLength && Orderly(first) && Orderly(second)
    requires results == first.results && splitterThrown == first.thrown
    requires splitterThrown.None? ==> inputStream.Remaining() == first.left
    requires second == BufferSplit(splitter.bufferSize, inputStream.Length() == 0, inputStream.HoldsEmptyReturn(),
                                   inputStream.returnedBuffer.count, first.left)
    modifies inputStream, inputStream.stream
    ensures var s := StageOf(first.results, first.thrown);
      && (!s.AtCantReadBlock? ==>
            BlocksRun(blocks, thrown, first.left) == Closing(s, first.left)
            && (thrown.None? ==> inputStream.Valid() && inputStream.Remaining() == first.left))
      && (s.AtCantReadBlock? ==>
            BlocksRun(blocks, thrown, second.left) == PrependBlocks(s.blocks, Closing(StageOf(second.results, second.thrown), second.left))
            && (thrown.None? ==> inputStream.Valid() && inputStream.Remaining() == second.left))
  {
    StageBytes(first.results, first.thrown);
    var stage := TakeStage(results, splitterThrown);
    if !stage.AtCantReadBlock? {
      blocks, thrown := Finish(stage, first.left);
      return;
    }
    var tail;
    tail, thrown := HandOver(splitter, inputStream, second);
    blocks := stage.blocks + tail;
  }

  /**
   * After `CantReadBlock`: the buffer splitter's enumeration `second` on the same stream,
   * with the bytes pushed back before; being the last splitter, it is followed by the
   * streaming block unless it ended the split.
   */
  method HandOver(splitter: BufferBoundGzipSplitter, inputStream: RewindableStream, ghost second: SplitRun)
    returns (blocks: seq<GzipBlock>, thrown: Option<Exception>)
    requires inputStream.Valid() && splitter.bufferSize > HeaderLength && Orderly(second)
    requires second == BufferSplit(splitter.bufferSize, inputStream.Length() == 0, inputStream.HoldsEmptyReturn(),
                                   inputStream.returnedBuffer.count, inputStream.Remaining())
    modifies inputStream, inputStream.stream
    ensures BlocksRun(blocks, thrown, second.left) == Closing(StageOf(second.results, second.thrown), second.left)
    ensures thrown.None? ==> inputStream.Valid() && inputStream.Remaining() == second.left
  {
    var results, splitterThrown := BufferSplitting.SplitToIndependentBlocks(splitter, inputStream);
    var stage := TakeStage(results, splitterThrown);
    blocks, thrown := Finish(stage, second.left);
  }

  /** The end of `SplitBlocks`: the flags the last stage set decide between the exception, the streaming block and nothing. */
  method Finish(stage: Stage, ghost left: seq<byte>) returns (blocks: seq<GzipBlock>, thrown: Option<Exception>)
    ensures BlocksRun(blocks, thrown, left) == Closing(stage, left)
  {
    var streamIsEnds := stage.AtStreamEnd?;
    var wrongFormat := stage.AtWrongFormat?;
    blocks, thrown := stage.blocks, None;
    if stage.AtException? {
      return blocks, Some(stage.error);
    }
    if wrongFormat {
      return blocks, Some(InvalidOperationException);
    }
    if !streamIsEnds {
      blocks := blocks + [Streaming];
    }
  }

  /**
   * The inner `foreach` over one splitter's results: passes blocks on and stops at the
   * first status, setting the flag it calls for.
   */
  method TakeStage(results: seq<SplitResult>, thrown: Option<Exception>) returns (stage: Stage)
    requires AllWellFormed(results)
    ensures stage == StageOf(results, thrown)
  {
    var forwarded: seq<GzipBlock> := [];
    var i := 0;
    while i < |results|
      invariant 0 <= i <= |results|
      invariant StageOf(results, thrown) == WithBlocks(forwarded, StageOf(results[i..], thrown))
    {
      assert results[i..][0] == results[i] && results[i..][1..] == results[i + 1..];
      var result := results[i];
      match result.status {
        case Block =>
          WithBlocksTwice(forwarded, [Independent(result.block.value)], StageOf(results[i + 1..], thrown));
          forwarded := forwarded + [Independent(result.block.value)];
        case StreamIsEnd =>
          return AtStreamEnd(forwarded);
        case WrongFormat =>
          return AtWrongFormat(forwarded);
        case CantReadBlock =>
          return AtCantReadBlock(forwarded);
      }
      i := i + 1;
    }
    assert results[i..] == [];
    if thrown.Some? {
      return AtException(forwarded, thrown.value);
    }
    return AtEnumerationEnd(forwarded);
  }
}
