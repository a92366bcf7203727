/**
 * Decompression/GzipSplitting/BufferBoundGzipSplitter.cs: splits a stream of gzip members
 * by searching a fixed-size buffer for header signatures. Each round reads a full buffer;
 * the bytes from each header to the next one are a block, and the bytes from the last
 * header on are pushed back so that the next round reads them again, unless the stream
 * ended with that buffer.
 *
 * `BufferSplit` is the reference definition, built from `RoundOf`, one round of the loop.
 * The method `SplitToIndependentBlocks` runs the enumeration on a `RewindableStream` and
 * is proved to produce exactly that; the lemmas state what the definition promises.
 */
module BufferSplitting {
  import opened Binary
  import opened Wrappers
  import opened Segments
  import opened GzipHeaders
  import opened GzipBuffers
  import opened SplitResults
  import opened Streams

  /** The splitter: its buffer size (the log is not modelled). */
  datatype BufferBoundGzipSplitter = BufferBoundGzipSplitter(bufferSize: int)

  /** The constructor: a buffer no longer than a header throws. */
  function NewBufferBoundGzipSplitter(bufferSize: int): (r: Result<BufferBoundGzipSplitter, Exception>)
    ensures r.Success? <==> bufferSize > HeaderLength
    ensures r.Failure? ==> r.error == ArgumentOutOfRangeException
    ensures r.Success? ==> r.value.bufferSize == bufferSize
  {
    if bufferSize <= HeaderLength then Failure(ArgumentOutOfRangeException)
    else Success(BufferBoundGzipSplitter(bufferSize))
  }

  /** Header positions inside `n` bytes, each with its ten bytes, none overlapping the next. */
  predicate Spaced(ps: seq<nat>, n: int) {
    (forall k :: 0 <= k < |ps| ==> ps[k] + HeaderLength <= n)
    && (forall k :: 0 <= k < |ps| - 1 ==> ps[k] + HeaderLength <= ps[k + 1])
  }

  lemma ScanIsSpaced(data: seq<byte>)
    ensures Spaced(AllHeaders(data), |data|)
  {
    AllHeadersAreHeaders(data, 0);
  }

  /** Where the `i`-th block ends: at the next header, or at the end of the bytes after the last one. */
  function BlockEnd(ps: seq<nat>, i: int, n: int): int
    requires 0 <= i < |ps|
  {
    if i + 1 < |ps| then ps[i + 1] else n
  }

  /** The `i`-th block: from the `i`-th header to where the block ends. */
  function Piece(data: seq<byte>, ps: seq<nat>, i: int): (r: seq<byte>)
    requires Spaced(ps, |data|) && 0 <= i < |ps|
    ensures |r| >= HeaderLength
  {
    data[ps[i]..BlockEnd(ps, i, |data|)]
  }

  /** The first `count` blocks, each as the result the `for` loop yields for it. */
  function Pieces(data: seq<byte>, ps: seq<nat>, count: nat): (r: seq<SplitResult>)
    requires Spaced(ps, |data|) && count <= |ps|
    ensures |r| == count
    ensures forall i :: 0 <= i < count ==> r[i] == WithBlock(IndependentGzipBlock(Piece(data, ps, i)))
  {
    if count == 0 then [] else Pieces(data, ps, count - 1) + [WithBlock(IndependentGzipBlock(Piece(data, ps, count - 1)))]
  }

  /**
   * An independent block: a gzip header at its start and no other header starting after
   * that header's ten bytes, so that it holds exactly one member.
   */
  predicate SingleMember(b: seq<byte>) {
    IsHeaderAt(b, 0) && forall j :: HeaderLength <= j < |b| ==> !IsHeaderAt(b, j)
  }

  /** Every block among `rs` holds exactly one member. */
  predicate Members(rs: seq<SplitResult>) {
    forall i :: 0 <= i < |rs| && rs[i].block.Some? ==> SingleMember(rs[i].block.value.bytes)
  }

  /** A header inside a window of the bytes is a header of the bytes, and the other way round. */
  lemma HeaderInWindow(data: seq<byte>, a: int, c: int, j: int)
    requires 0 <= a <= c <= |data| && 0 <= j && a + j + HeaderLength <= c
    ensures IsHeaderAt(data[a..c], j) <==> IsHeaderAt(data, a + j)
  {
    var w := data[a..c];
    SignatureAtPointwise(w, j, 0);
    SignatureAtPointwise(data, a + j, 0);
    assert forall m :: j <= m < j + HeaderLength ==> w[m] == data[a + m];
  }

  /** A header at `last` inside the first `read` bytes leaves the bytes from `last` on starting with a header. */
  lemma HeaderLeft(rem: seq<byte>, read: nat, last: nat)
    requires read <= |rem| && IsHeaderAt(rem[..read], last)
    ensures IsHeaderAt(rem[last..], 0)
  {
    HeaderInWindow(rem, 0, read, last);
    MatchesInSuffix(rem, last, 0);
  }

  /**
   * Each block between the headers the scan finds holds exactly one member: the scan
   * skips no header, so none starts inside a block after its own.
   */
  lemma PieceIsSingleMember(data: seq<byte>, i: nat)
    requires i < |AllHeaders(data)|
    ensures Spaced(AllHeaders(data), |data|) && SingleMember(Piece(data, AllHeaders(data), i))
  {
    var ps := AllHeaders(data);
    ScanIsSpaced(data);
    AllHeadersAreHeaders(data, 0);
    AllHeadersSkipNothing(data, 0);
    var a := ps[i];
    var c := BlockEnd(ps, i, |data|);
    HeaderInWindow(data, a, c, 0);
    forall j | HeaderLength <= j < c - a
      ensures !IsHeaderAt(data[a..c], j)
    {
      if a + j + HeaderLength <= c {
        HeaderInWindow(data, a, c, j);
        if i + 1 < |ps| {
          assert ps[i] + HeaderLength <= a + j < ps[i + 1];
        }
      }
    }
  }

  /** Every block the `for` loop yields from the scan's headers holds exactly one member. */
  lemma PiecesAreMembers(data: seq<byte>, count: nat)
    requires count <= |AllHeaders(data)|
    ensures Spaced(AllHeaders(data), |data|) && Members(Pieces(data, AllHeaders(data), count))
  {
    var ps := AllHeaders(data);
    ScanIsSpaced(data);
    forall i | 0 <= i < count
      ensures SingleMember(Piece(data, ps, i))
    {
      PieceIsSingleMember(data, i);
    }
  }

  /**
   * How many bytes `ReadExactBuffer` puts in a buffer of `size`: none while an empty
   * returned segment is held, otherwise as many as fit.
   */
  function ReadCount(size: int, stale: bool, rem: seq<byte>): (r: nat)
    requires size > 0
  {
    if stale then 0 else if |rem| < size then |rem| else size
  }

  /**
   * `ReadGzipBufferFromStream`'s end-of-stream flag: the buffer was not filled (or nothing
   * could be read); and, for a full buffer that holds exactly one header at its start,
   * whether the stream has nothing after it.
   */
  function ReadEnd(size: int, stale: bool, rem: seq<byte>): bool
    requires size > 0
  {
    var read := ReadCount(size, stale, rem);
    var ps := AllHeaders(rem[..read]);
    var end := stale || |rem| < size;
    if read > 0 && ps != [] && !end && ps[0] == 0 && |ps| == 1 then |rem| == size else end
  }

  /**
   * One round of the loop, or the enumeration's end: `Halt` ends the enumeration with
   * `run`; `Go` yields `emitted` and either stops at the end of the stream (`end`) or
   * carries on with `held` bytes pushed back in front of `left`.
   */
  datatype Round = Halt(run: SplitRun) | Go(emitted: seq<SplitResult>, end: bool, held: nat, left: seq<byte>)

  /**
   * One round on a stream that holds `rem`, of which `pending` were pushed back (`stale`:
   * an empty returned segment is held). A round gives up no byte: what it yields, followed
   * by what the stream then holds, is `rem`, unless pushing bytes back throws, which
   * happens when returned bytes the read left unread are still held.
   */
  function RoundOf(size: int, stale: bool, pending: int, rem: seq<byte>): (r: Round)
    requires size > HeaderLength
    ensures r.Halt? ==> Shaped(r.run) && (r.run.thrown.None? ==> BlockBytes(r.run.results) + r.run.left == rem)
    ensures r.Halt? && r.run.thrown.Some? ==> r.run.thrown == Some(InvalidOperationException) && Unread(pending, ReadCount(size, stale, rem)) > 0
    ensures r.Halt? ==> Members(r.run.results)
    ensures r.Go? ==> AllBlocks(r.emitted) && Members(r.emitted) && BlockBytes(r.emitted) + r.left == rem
    ensures r.Go? && !r.end ==> 0 < r.held < ReadCount(size, stale, rem) && r.left == rem[ReadCount(size, stale, rem) - r.held..]
    ensures r.Go? && !r.end ==> IsHeaderAt(r.left, 0)
    ensures r.Go? && r.end ==> r.left == rem[ReadCount(size, stale, rem)..]
    ensures stale ==> r == Halt(Ending(StreamIsEnd, rem))
  {
    var read := ReadCount(size, stale, rem);
    var data := rem[..read];
    var ps := AllHeaders(data);
    var end := ReadEnd(size, stale, rem);
    var blocked := Unread(pending, read) > 0;
    if read == 0 && end then Halt(Ending(StreamIsEnd, rem))
    else if read == 0 || ps == [] || ps[0] != 0 then Refuse(WrongFormat, blocked, rem, read)
    else if !end && |ps| < 2 then Refuse(CantReadBlock, blocked, rem, read)
    else Cut(rem, read, ps, end, blocked)
  }

  /** The enumeration ends with `status` and the stream holds `rem`. */
  function Ending(status: GzipSplittingStatus, rem: seq<byte>): (r: SplitRun)
    requires status != Block
    ensures Shaped(r) && r.thrown.None? && BlockBytes(r.results) + r.left == rem && Members(r.results)
  {
    var r := SplitRun([Terminal(status)], None, rem);
    assert r.results[..0] == [];
    assert BlockBytes(r.results) == [] + BlockBytes([]);
    r
  }

  /**
   * A buffer that cannot be split: its bytes are pushed back and the enumeration ends with
   * `status`, unless pushing back throws.
   */
  function Refuse(status: GzipSplittingStatus, blocked: bool, rem: seq<byte>, read: nat): (r: Round)
    requires status != Block && read <= |rem|
    ensures r.Halt? && Shaped(r.run) && (r.run.thrown.None? ==> BlockBytes(r.run.results) + r.run.left == rem)
    ensures r.run.thrown.Some? <==> blocked
    ensures Members(r.run.results) && forall i :: 0 <= i < |r.run.results| ==> r.run.results[i].status == status
  {
    if blocked then Halt(SplitRun([], Some(InvalidOperationException), rem[read..]))
    else Halt(Ending(status, rem))
  }

  /**
   * A buffer of `read` bytes that starts with a header and holds another or ends the
   * stream: the blocks from each header to the next; at the end of the stream the last
   * block runs to the end of the buffer, otherwise the bytes from the last header on are
   * pushed back, unless pushing back throws.
   */
  function Cut(rem: seq<byte>, read: nat, ps: seq<nat>, end: bool, blocked: bool): (r: Round)
    requires read <= |rem| && ps == AllHeaders(rem[..read]) && ps != [] && ps[0] == 0 && (end || |ps| >= 2)
    ensures r.Halt? ==> r.run.thrown == Some(InvalidOperationException) && AllBlocks(r.run.results) && blocked
    ensures r.Halt? ==> Members(r.run.results)
    ensures r.Go? ==> AllBlocks(r.emitted) && Members(r.emitted) && BlockBytes(r.emitted) + r.left == rem
    ensures r.Go? && !r.end ==> 0 < r.held < read && r.left == rem[read - r.held..] && IsHeaderAt(r.left, 0)
    ensures r.Go? && r.end ==> r.left == rem[read..]
  {
    var data := rem[..read];
    if end then
      CutPieces(rem, read, |ps|);
      Go(Pieces(data, ps, |ps|), true, 0, rem[read..])
    else
      CutPieces(rem, read, |ps| - 1);
      var last := ps[|ps| - 1];
      if blocked then Halt(SplitRun(Pieces(data, ps, |ps| - 1), Some(InvalidOperationException), rem[read..]))
      else Go(Pieces(data, ps, |ps| - 1), false, read - last, rem[last..])
  }

  /**
   * The first `count` blocks of a buffer that starts with a header are blocks of one
   * member each and, followed by the bytes after the last of them, are all the bytes; when
   * a header follows them, those bytes start with it.
   */
  lemma CutPieces(rem: seq<byte>, read: nat, count: nat)
    requires read <= |rem| && 1 <= count <= |AllHeaders(rem[..read])| && AllHeaders(rem[..read])[0] == 0
    ensures var data := rem[..read];
      var ps := AllHeaders(data);
      var cut := BlockEnd(ps, count - 1, read);
      Spaced(ps, read) && cut <= read
      && AllBlocks(Pieces(data, ps, count)) && Members(Pieces(data, ps, count))
      && BlockBytes(Pieces(data, ps, count)) + rem[cut..] == rem
      && (count < |ps| ==> 0 < cut && IsHeaderAt(rem[cut..], 0))
  {
    var data := rem[..read];
    var ps := AllHeaders(data);
    ScanIsSpaced(data);
    PiecesAreMembers(data, count);
    BlocksThenRest(rem, read, ps, count);
    if count < |ps| {
      AllHeadersAreHeaders(data, 0);
      assert ps[count - 1] + HeaderLength <= ps[count];
      HeaderLeft(rem, read, ps[count]);
    }
  }

  /** The loop of `SplitToIndependentBlocks` from a stream that holds `rem`, run to its end. */
  function BufferLoop(size: int, stale: bool, pending: int, rem: seq<byte>): SplitRun
    requires size > HeaderLength
    decreases |rem|
  {
    match RoundOf(size, stale, pending, rem)
    case Halt(run) => run
    case Go(emitted, end, held, left) =>
      if end then SplitRun(emitted + [Terminal(StreamIsEnd)], None, left)
      else Prepend(emitted, BufferLoop(size, false, held, left))
  }

  /**
   * The whole enumeration: nothing at all for an empty stream, only `StreamIsEnd` when the
   * stream was read to its end, and the loop otherwise.
   */
  function BufferSplit(size: int, lengthIsZero: bool, stale: bool, pending: int, rem: seq<byte>): SplitRun
    requires size > HeaderLength
  {
    if lengthIsZero then SplitRun([], None, rem)
    else if rem == [] then SplitRun([Terminal(StreamIsEnd)], None, rem)
    else BufferLoop(size, stale, pending, rem)
  }

  /** The loop after one round. */
  lemma BufferLoopUnfolds(size: int, stale: bool, pending: int, rem: seq<byte>)
    requires size > HeaderLength
    ensures var t := RoundOf(size, stale, pending, rem);
      && (t.Halt? ==> BufferLoop(size, stale, pending, rem) == t.run)
      && (t.Go? && t.end ==> BufferLoop(size, stale, pending, rem) == SplitRun(t.emitted + [Terminal(StreamIsEnd)], None, t.left))
      && (t.Go? && !t.end ==> BufferLoop(size, stale, pending, rem) == Prepend(t.emitted, BufferLoop(size, false, t.held, t.left)))
  {
  }

  /** One round of the loop seen from the results yielded before it. */
  lemma RoundAdvances(size: int, stale: bool, pending: int, rem: seq<byte>, before: seq<SplitResult>)
    requires size > HeaderLength
    ensures var t := RoundOf(size, stale, pending, rem);
      var total := Prepend(before, BufferLoop(size, stale, pending, rem));
      && (t.Halt? ==> total == SplitRun(before + t.run.results, t.run.thrown, t.run.left))
      && (t.Go? && t.end ==> total == SplitRun((before + t.emitted) + [Terminal(StreamIsEnd)], None, t.left))
      && (t.Go? && !t.end ==> total == Prepend(before + t.emitted, BufferLoop(size, false, t.held, t.left)) && |t.left| < |rem|)
  {
    match RoundOf(size, stale, pending, rem)
    case Halt(_) =>
    case Go(emitted, end, held, left) =>
      if end {
        assert before + (emitted + [Terminal(StreamIsEnd)]) == (before + emitted) + [Terminal(StreamIsEnd)];
      } else {
        PrependTwice(before, emitted, BufferLoop(size, false, held, left));
      }
  }

  /** The loop yields blocks and then one status, or blocks only when it throws. */
  lemma {:induction false} BufferLoopShape(size: int, stale: bool, pending: int, rem: seq<byte>)
    requires size > HeaderLength
    ensures Shaped(BufferLoop(size, stale, pending, rem))
    decreases |rem|
  {
    match RoundOf(size, stale, pending, rem)
    case Halt(_) =>
    case Go(emitted, end, held, left) =>
      if end {
        ShapedEnded(emitted, left);
      } else {
        BufferLoopShape(size, false, held, left);
        ShapedPrepend(emitted, BufferLoop(size, false, held, left));
      }
  }

  /**
   * An enumeration of a non-empty stream yields zero or more blocks and then exactly one
   * status, or only blocks when it throws; the enumeration of an empty stream yields nothing.
   */
  lemma BufferSplitShape(size: int, lengthIsZero: bool, stale: bool, pending: int, rem: seq<byte>)
    requires size > HeaderLength
    ensures var run := BufferSplit(size, lengthIsZero, stale, pending, rem);
      (lengthIsZero ==> run.results == [] && run.thrown.None?)
      && (!lengthIsZero ==> Shaped(run))
  {
    if !lengthIsZero {
      if rem == [] {
        ShapedEnded([], rem);
      } else {
        BufferLoopShape(size, stale, pending, rem);
      }
    }
  }

  /** The first `count` blocks, joined, are the bytes from the first header to where the last of them ends. */
  lemma {:induction false} PiecesJoin(data: seq<byte>, ps: seq<nat>, count: nat)
    requires Spaced(ps, |data|) && 1 <= count <= |ps|
    ensures ps[0] <= BlockEnd(ps, count - 1, |data|) <= |data|
    ensures BlockBytes(Pieces(data, ps, count)) == data[ps[0]..BlockEnd(ps, count - 1, |data|)]
  {
    var last := WithBlock(IndependentGzipBlock(Piece(data, ps, count - 1)));
    assert BlockBytes([last]) == Piece(data, ps, count - 1) + BlockBytes([]);
    if count == 1 {
      assert Pieces(data, ps, 1) == [] + [last];
    } else {
      PiecesJoin(data, ps, count - 1);
      BlockBytesAppend(Pieces(data, ps, count - 1), [last]);
      assert ps[count - 2] + HeaderLength <= ps[count - 1];
      assert ps[0] <= ps[count - 1] by {
        SpacedGrows(ps, |data|, count - 1);
      }
      assert data[ps[0]..ps[count - 1]] + data[ps[count - 1]..BlockEnd(ps, count - 1, |data|)]
        == data[ps[0]..BlockEnd(ps, count - 1, |data|)];
    }
  }

  /** Header positions grow. */
  lemma {:induction false} SpacedGrows(ps: seq<nat>, n: int, k: nat)
    requires Spaced(ps, n) && k < |ps|
    ensures ps[0] <= ps[k]
  {
    if k > 0 {
      SpacedGrows(ps, n, k - 1);
    }
  }

  /** The first `count` blocks of the bytes `rem[..read]`, which start with a header, followed by what comes after them, are `rem`. */
  lemma BlocksThenRest(rem: seq<byte>, read: nat, ps: seq<nat>, count: nat)
    requires read <= |rem| && Spaced(ps, read) && 1 <= count <= |ps| && ps[0] == 0
    ensures var data := rem[..read];
      BlockEnd(ps, count - 1, read) <= read
      && BlockBytes(Pieces(data, ps, count)) + rem[BlockEnd(ps, count - 1, read)..] == rem
  {
    var data := rem[..read];
    PiecesJoin(data, ps, count);
    var cut := BlockEnd(ps, count - 1, read);
    assert data[0..cut] + rem[cut..] == rem;
  }

  /** The loop gives up no byte: unless it throws, its blocks and what is left are the bytes it started with. */
  lemma {:induction false} BufferLoopConsumes(size: int, stale: bool, pending: int, rem: seq<byte>)
    requires size > HeaderLength
    ensures var run := BufferLoop(size, stale, pending, rem);
      run.thrown.None? ==> BlockBytes(run.results) + run.left == rem
    decreases |rem|
  {
    match RoundOf(size, stale, pending, rem)
    case Halt(_) =>
    case Go(emitted, end, held, left) =>
      if end {
        ConsumedEnded(emitted);
      } else {
        var rest := BufferLoop(size, false, held, left);
        BufferLoopConsumes(size, false, held, left);
        BlockBytesAppend(emitted, rest.results);
      }
  }

  /**
   * Nothing is lost or invented: unless the enumeration throws, the bytes of its blocks,
   * followed by what the stream still holds, are the bytes the stream held before.
   */
  lemma BufferSplitConsumes(size: int, lengthIsZero: bool, stale: bool, pending: int, rem: seq<byte>)
    requires size > HeaderLength
    ensures var run := BufferSplit(size, lengthIsZero, stale, pending, rem);
      run.thrown.None? ==> BlockBytes(run.results) + run.left == rem
  {
    if !lengthIsZero && rem != [] {
      BufferLoopConsumes(size, stale, pending, rem);
    } else if !lengthIsZero {
      assert BlockBytes([Terminal(StreamIsEnd)]) == [] + BlockBytes([]);
    }
  }

  /** Every block the loop yields holds exactly one member. */
  lemma {:induction false} BufferLoopMembers(size: int, stale: bool, pending: int, rem: seq<byte>)
    requires size > HeaderLength
    ensures Members(BufferLoop(size, stale, pending, rem).results)
    decreases |rem|
  {
    match RoundOf(size, stale, pending, rem)
    case Halt(_) =>
    case Go(emitted, end, held, left) =>
      if end {
        MembersAppend(emitted, [Terminal(StreamIsEnd)]);
      } else {
        BufferLoopMembers(size, false, held, left);
        MembersAppend(emitted, BufferLoop(size, false, held, left).results);
      }
  }

  lemma MembersAppend(a: seq<SplitResult>, b: seq<SplitResult>)
    requires Members(a) && Members(b)
    ensures Members(a + b)
  {
    forall i | 0 <= i < |a + b| && (a + b)[i].block.Some?
      ensures SingleMember((a + b)[i].block.value.bytes)
    {
      if i >= |a| {
        assert (a + b)[i] == b[i - |a|];
      }
    }
  }

  /**
   * Each block the enumeration yields is one gzip member: it starts with a header and no
   * other header starts after that header's ten bytes.
   */
  lemma BufferSplitBlocksAreMembers(size: int, lengthIsZero: bool, stale: bool, pending: int, rem: seq<byte>)
    requires size > HeaderLength
    ensures var run := BufferSplit(size, lengthIsZero, stale, pending, rem);
      forall i :: 0 <= i < |run.results| && run.results[i].block.Some? ==> SingleMember(run.results[i].block.value.bytes)
  {
    if !lengthIsZero && rem != [] {
      BufferLoopMembers(size, stale, pending, rem);
    }
  }

  /**
   * Only the first round can throw: pushing back throws only while returned bytes are
   * held unread, and bytes pushed back by a round fit in the next round's buffer.
   */
  lemma {:induction false} BufferLoopThrows(size: int, stale: bool, pending: int, rem: seq<byte>)
    requires size > HeaderLength && 0 <= pending <= |rem|
    ensures var run := BufferLoop(size, stale, pending, rem);
      run.thrown.Some? ==> run.thrown == Some(InvalidOperationException) && !stale && pending > size
    decreases |rem|
  {
    match RoundOf(size, stale, pending, rem)
    case Halt(_) =>
    case Go(emitted, end, held, left) =>
      if !end {
        BufferLoopThrows(size, false, held, left);
      }
  }

  /**
   * The enumeration throws `InvalidOperationException` exactly in one case: more bytes were
   * pushed back before it than its buffer holds, so that its first read leaves some of them
   * unread and pushing bytes back is refused.
   */
  lemma BufferSplitThrows(size: int, lengthIsZero: bool, stale: bool, pending: int, rem: seq<byte>)
    requires size > HeaderLength && 0 <= pending <= |rem|
    ensures var run := BufferSplit(size, lengthIsZero, stale, pending, rem);
      run.thrown.Some? ==> run.thrown == Some(InvalidOperationException) && !stale && pending > size
  {
    if !lengthIsZero && rem != [] {
      BufferLoopThrows(size, stale, pending, rem);
    }
  }

  /**
   * The converse: more bytes pushed back than the buffer holds make the enumeration throw
   * `InvalidOperationException` in its first round, whatever the bytes are; when the buffer
   * holds just the one header at its start, before yielding anything.
   */
  lemma BufferSplitOverfullThrows(size: int, pending: int, rem: seq<byte>)
    requires size > HeaderLength && size < pending <= |rem|
    ensures BufferSplit(size, false, false, pending, rem).thrown == Some(InvalidOperationException)
    ensures AllHeaders(rem[..size]) == [0] ==>
      BufferSplit(size, false, false, pending, rem) == SplitRun([], Some(InvalidOperationException), rem[size..])
  {
    var read := ReadCount(size, false, rem);
    assert read == size && Unread(pending, read) > 0;
    var r := RoundOf(size, false, pending, rem);
    assert !ReadEnd(size, false, rem);
    assert r.Halt?;
    BufferLoopUnfolds(size, false, pending, rem);
  }

  /** Whether the first `read` bytes start with a header, which the scan then reports at index 0. */
  lemma StartOfBuffer(rem: seq<byte>, read: nat)
    requires HeaderLength <= read <= |rem|
    ensures var ps := AllHeaders(rem[..read]);
      (ps != [] && ps[0] == 0) <==> IsHeaderAt(rem, 0)
  {
    HeaderInWindow(rem, 0, read, 0);
    ScanStartsWithHeader(rem[..read]);
  }

  /** No result among `rs` has `status`. */
  predicate Avoids(rs: seq<SplitResult>, status: GzipSplittingStatus) {
    forall i :: 0 <= i < |rs| ==> rs[i].status != status
  }

  lemma AvoidsAppend(a: seq<SplitResult>, b: seq<SplitResult>, status: GzipSplittingStatus)
    requires Avoids(a, status) && Avoids(b, status)
    ensures Avoids(a + b, status)
  {
    forall i | 0 <= i < |a + b|
      ensures (a + b)[i].status != status
    {
      if i >= |a| {
        assert (a + b)[i] == b[i - |a|];
      }
    }
  }

  /** A round on bytes that start with a header does not report `WrongFormat`. */
  lemma RoundAfterHeader(size: int, pending: int, rem: seq<byte>)
    requires size > HeaderLength && IsHeaderAt(rem, 0)
    ensures var t := RoundOf(size, false, pending, rem);
      (t.Halt? ==> Avoids(t.run.results, WrongFormat)) && (t.Go? ==> Avoids(t.emitted, WrongFormat))
  {
    StartOfBuffer(rem, ReadCount(size, false, rem));
  }

  /** A round on bytes that do not start with a header reports `WrongFormat` and pushes the buffer back. */
  lemma RoundWithoutHeader(size: int, pending: int, rem: seq<byte>)
    requires size > HeaderLength && rem != [] && 0 <= pending <= size && pending <= |rem| && !IsHeaderAt(rem, 0)
    ensures RoundOf(size, false, pending, rem) == Halt(Ending(WrongFormat, rem))
  {
    var read := ReadCount(size, false, rem);
    if read >= HeaderLength {
      StartOfBuffer(rem, read);
    } else {
      ScanStartsWithHeader(rem[..read]);
    }
  }

  /** The loop over bytes that start with a header never reports `WrongFormat`: every later round starts at a header too. */
  lemma {:induction false} BufferLoopAfterHeader(size: int, pending: int, rem: seq<byte>)
    requires size > HeaderLength && IsHeaderAt(rem, 0)
    ensures Avoids(BufferLoop(size, false, pending, rem).results, WrongFormat)
    decreases |rem|
  {
    RoundAfterHeader(size, pending, rem);
    match RoundOf(size, false, pending, rem)
    case Halt(_) =>
    case Go(emitted, end, held, left) =>
      if end {
        AvoidsAppend(emitted, [Terminal(StreamIsEnd)], WrongFormat);
      } else {
        BufferLoopAfterHeader(size, held, left);
        AvoidsAppend(emitted, BufferLoop(size, false, held, left).results, WrongFormat);
      }
  }

  /**
   * `WrongFormat` exactly when the stream does not start with a header: then the
   * enumeration reports it at once and pushes the buffer back, so that the stream holds
   * what it held before; otherwise no result is `WrongFormat`. This holds when no more
   * bytes were pushed back than the buffer holds (otherwise the enumeration throws).
   */
  lemma BufferSplitWrongFormat(size: int, pending: int, rem: seq<byte>)
    requires size > HeaderLength && rem != [] && 0 <= pending <= size && pending <= |rem|
    ensures var run := BufferSplit(size, false, false, pending, rem);
      (!IsHeaderAt(rem, 0) ==> run == SplitRun([Terminal(WrongFormat)], None, rem))
      && (IsHeaderAt(rem, 0) ==> Avoids(run.results, WrongFormat))
  {
    if IsHeaderAt(rem, 0) {
      BufferLoopAfterHeader(size, pending, rem);
    } else {
      RoundWithoutHeader(size, pending, rem);
      BufferLoopUnfolds(size, false, pending, rem);
    }
  }

  /**
   * `SplitToIndependentBlocks`: nothing for an empty stream; otherwise rounds until the
   * end of the stream, each reading a full buffer and yielding the blocks in it, then
   * `StreamIsEnd`; a round that cannot split its buffer ends the enumeration with
   * `WrongFormat` or `CantReadBlock` after pushing the buffer back.
   */
  method SplitToIndependentBlocks(splitter: BufferBoundGzipSplitter, stream: RewindableStream)
    returns (results: seq<SplitResult>, thrown: Option<Exception>)
    requires splitter.bufferSize > HeaderLength && stream.Valid()
    modifies stream, stream.stream
    ensures stream.Valid()
    ensures var run := BufferSplit(splitter.bufferSize, old(stream.Length()) == 0, old(stream.HoldsEmptyReturn()),
                                   old(stream.returnedBuffer.count), old(stream.Remaining()));
      results == run.results && thrown == run.thrown && stream.Remaining() == run.left
  {
    var size := splitter.bufferSize;
    ghost var total := BufferSplit(size, stream.Length() == 0, stream.HoldsEmptyReturn(), stream.returnedBuffer.count, stream.Remaining());
    results, thrown := [], None;
    if stream.Length() == 0 {
      return;
    }
    var buffer := new byte[size];
    stream.ReadToTheEndIffNothingRemains();
    var endOfStream := stream.IsReadToTheEnd();
    assert !endOfStream ==> total == Prepend([], total);
    while !endOfStream
      invariant stream.Valid() && stream.Disjoint(Allocated(buffer)) && buffer.Length == size
      invariant thrown.None?
      invariant !endOfStream ==>
        Prepend(results, BufferLoop(size, stream.HoldsEmptyReturn(), stream.returnedBuffer.count, stream.Remaining())) == total
      invariant endOfStream ==> total == SplitRun(results + [Terminal(StreamIsEnd)], None, stream.Remaining())
      decreases if endOfStream then 0 else |stream.Remaining()| + 1
    {
      RoundAdvances(size, stream.HoldsEmptyReturn(), stream.returnedBuffer.count, stream.Remaining(), results);
      var emitted, end, stop, roundThrown := SplitRound(size, stream, buffer);
      results := results + emitted;
      if stop {
        thrown := roundThrown;
        return;
      }
      endOfStream := end;
    }
    results := results + [Terminal(StreamIsEnd)];
  }

  /**
   * One round of the loop: reads a full buffer, then either ends the enumeration (the end
   * of the stream, a buffer that cannot be split, or a push-back that throws) or yields
   * the blocks in the buffer and pushes back its tail.
   */
  method SplitRound(size: int, stream: RewindableStream, buffer: array<byte>)
    returns (emitted: seq<SplitResult>, end: bool, stop: bool, thrown: Option<Exception>)
    requires stream.Valid() && stream.Disjoint(Allocated(buffer)) && buffer.Length == size > HeaderLength
    modifies stream, stream.stream, buffer
    ensures stream.Valid() && stream.Disjoint(Allocated(buffer))
    ensures var t := RoundOf(size, old(stream.HoldsEmptyReturn()), old(stream.returnedBuffer.count), old(stream.Remaining()));
      && (stop <==> t.Halt?)
      && (t.Halt? ==> emitted == t.run.results && thrown == t.run.thrown && stream.Remaining() == t.run.left)
      && (t.Go? ==> emitted == t.emitted && end == t.end && stream.Remaining() == t.left)
      && (t.Go? && !t.end ==> stream.returnedBuffer.count == t.held && !stream.HoldsEmptyReturn())
  {
    ghost var stale, pending, rem := stream.HoldsEmptyReturn(), stream.returnedBuffer.count, stream.Remaining();
    var read, endOfStream, gzipBuffer := ReadGzipBufferFromStream(stream, buffer);
    ghost var data := rem[..read];
    ghost var ps := AllHeaders(data);
    ghost var blocked := Unread(pending, read) > 0;
    ReadBufferShape(buffer, read, gzipBuffer);
    assert RoundOf(size, stale, pending, rem) ==
      if read == 0 && endOfStream then Halt(Ending(StreamIsEnd, rem))
      else if read == 0 || ps == [] || ps[0] != 0 then Refuse(WrongFormat, blocked, rem, read)
      else if !endOfStream && |ps| < 2 then Refuse(CantReadBlock, blocked, rem, read)
      else Cut(rem, read, ps, endOfStream, blocked);
    if read == 0 && endOfStream {
      return [Terminal(StreamIsEnd)], endOfStream, true, None;
    }
    if IsEmpty(gzipBuffer) || NoHeaders(gzipBuffer) || !IsStartsWithCompressedBlock(gzipBuffer) {
      emitted, thrown := RefuseRead(stream, buffer, read, WrongFormat, rem);
      return emitted, endOfStream, true, thrown;
    }
    if !endOfStream && !IsContainAtLestOneWholeBlock(gzipBuffer) {
      emitted, thrown := RefuseRead(stream, buffer, read, CantReadBlock, rem);
      return emitted, endOfStream, true, thrown;
    }
    emitted, stop, thrown := CutBuffer(stream, buffer, read, endOfStream, gzipBuffer, rem);
    end := endOfStream;
  }

  /** What the predicates of the buffer built over a read say about the headers found in it. */
  lemma ReadBufferShape(buffer: array<byte>, read: int, gzipBuffer: GzipBuffer)
    requires 0 <= read <= buffer.Length
    requires read == 0 || AllHeaders(buffer[..read]) == [] ==> gzipBuffer == DefaultBuffer
    requires read > 0 && AllHeaders(buffer[..read]) != [] ==> gzipBuffer == Scan(Segment(Allocated(buffer), 0, read))
    ensures var ps := AllHeaders(buffer[..read]);
      (IsEmpty(gzipBuffer) || NoHeaders(gzipBuffer) || !IsStartsWithCompressedBlock(gzipBuffer))
      <==> (read == 0 || ps == [] || ps[0] != 0)
    ensures var ps := AllHeaders(buffer[..read]);
      read > 0 && ps != [] ==> (IsContainAtLestOneWholeBlock(gzipBuffer) <==> |ps| >= 2)
  {
    var ps := AllHeaders(buffer[..read]);
    if read > 0 && ps != [] {
      var segment := Segment(Allocated(buffer), 0, read);
      assert Bytes(segment) == buffer[..read];
      assert Headers(gzipBuffer) == HeadersAt(segment, ps);
    }
  }

  /** A buffer that cannot be split is pushed back whole; the round ends with `status`, or with the push-back's exception. */
  method RefuseRead(stream: RewindableStream, buffer: array<byte>, read: int, status: GzipSplittingStatus, ghost rem: seq<byte>)
    returns (emitted: seq<SplitResult>, thrown: Option<Exception>)
    requires stream.Valid() && stream.Disjoint(Allocated(buffer)) && !stream.HoldsEmptyReturn() && status != Block
    requires 0 < read <= buffer.Length && read <= |rem| && buffer[..read] == rem[..read]
    requires stream.Remaining() == rem[read..] && stream.position >= read
    requires stream.someBufferLeft <==> stream.returnedBuffer.count > 0
    modifies stream
    ensures stream.Valid() && stream.Disjoint(Allocated(buffer))
    ensures var t := Refuse(status, old(stream.returnedBuffer.count) > 0, rem, read);
      emitted == t.run.results && thrown == t.run.thrown && stream.Remaining() == t.run.left
  {
    var returned := ReturnRead(stream, buffer, 0, read, rem);
    if returned.Failure? {
      return [], Some(returned.error);
    }
    return [Terminal(status)], None;
  }

  /**
   * The blocks of a buffer that starts with a header and holds another or ends the
   * stream, and the push-back of its tail when the stream goes on.
   */
  method CutBuffer(stream: RewindableStream, buffer: array<byte>, read: int, endOfStream: bool, gzipBuffer: GzipBuffer, ghost rem: seq<byte>)
    returns (emitted: seq<SplitResult>, stop: bool, thrown: Option<Exception>)
    requires stream.Valid() && stream.Disjoint(Allocated(buffer)) && !stream.HoldsEmptyReturn()
    requires 0 < read <= buffer.Length && read <= |rem| && buffer[..read] == rem[..read]
    requires stream.Remaining() == rem[read..] && stream.position >= read
    requires stream.someBufferLeft <==> stream.returnedBuffer.count > 0
    requires AllHeaders(rem[..read]) != [] && gzipBuffer == Scan(Segment(Allocated(buffer), 0, read))
    requires IsStartsWithCompressedBlock(gzipBuffer) && (endOfStream || IsContainAtLestOneWholeBlock(gzipBuffer))
    modifies stream
    ensures stream.Valid() && stream.Disjoint(Allocated(buffer))
    ensures var ps := AllHeaders(rem[..read]);
      var t := Cut(rem, read, ps, endOfStream, old(stream.returnedBuffer.count) > 0);
      ps[0] == 0 && (endOfStream || |ps| >= 2)
      && (stop <==> t.Halt?)
      && (t.Halt? ==> emitted == t.run.results && thrown == t.run.thrown && stream.Remaining() == t.run.left)
      && (t.Go? ==> emitted == t.emitted && stream.Remaining() == t.left)
      && (t.Go? && !t.end ==> stream.returnedBuffer.count == t.held && !stream.HoldsEmptyReturn())
  {
    ghost var data := rem[..read];
    ghost var ps := AllHeaders(data);
    ghost var segment := Segment(Allocated(buffer), 0, read);
    assert Bytes(segment) == data;
    ScanIsSpaced(data);
    var headers := Headers(gzipBuffer);
    assert headers == HeadersAt(segment, ps);
    var countHeaders: int;
    var offsetToReturnBufferTail: Option<int>;
    if endOfStream {
      countHeaders := |headers|;
      offsetToReturnBufferTail := None;
    } else {
      countHeaders := |headers| - 1;
      offsetToReturnBufferTail := Some(Position(headers[|headers| - 1]));
    }
    emitted := CopyBlocks(buffer, headers, countHeaders, read, ps);
    stop, thrown := false, None;
    if offsetToReturnBufferTail.Some? {
      var returned := ReturnRead(stream, buffer, offsetToReturnBufferTail.value, read, rem);
      if returned.Failure? {
        stop, thrown := true, Some(returned.error);
      }
    }
  }

  /**
   * `ReadGzipBufferFromStream`: reads a full buffer; the buffer the constructor builds
   * over the bytes read, or the default one when nothing was read or no header was found;
   * for a full buffer with exactly one header, at its start, whether the stream is read to
   * its end.
   */
  method ReadGzipBufferFromStream(stream: RewindableStream, buffer: array<byte>)
    returns (read: int, endOfStream: bool, gzipBuffer: GzipBuffer)
    requires stream.Valid() && stream.Disjoint(Allocated(buffer)) && buffer.Length > HeaderLength
    modifies stream, stream.stream, buffer
    ensures stream.Valid() && stream.Disjoint(Allocated(buffer))
    ensures var rem := old(stream.Remaining());
      var stale := old(stream.HoldsEmptyReturn());
      read == ReadCount(buffer.Length, stale, rem) && read <= |rem|
      && buffer[..read] == rem[..read] && stream.Remaining() == rem[read..]
      && endOfStream == ReadEnd(buffer.Length, stale, rem)
    ensures read == 0 || AllHeaders(buffer[..read]) == [] ==> gzipBuffer == DefaultBuffer
    ensures read > 0 && AllHeaders(buffer[..read]) != [] ==> gzipBuffer == Scan(Segment(Allocated(buffer), 0, read))
    ensures stream.position == old(stream.position) + read
    ensures !stream.HoldsEmptyReturn() && (stream.someBufferLeft <==> stream.returnedBuffer.count > 0)
    ensures stream.returnedBuffer.count == Unread(old(stream.returnedBuffer.count), read)
  {
    ghost var rem := stream.Remaining();
    var readBuffer, end := ReadExactBuffer(stream, buffer);
    read, endOfStream := readBuffer.count, end;
    gzipBuffer := BuildBuffer(buffer, read);
    ReadBufferShape(buffer, read, gzipBuffer);
    if !endOfStream && !NoHeaders(gzipBuffer) && IsStartsWithCompressedBlock(gzipBuffer) && |Headers(gzipBuffer)| == 1 {
      stream.ReadToTheEndIffNothingRemains();
      endOfStream := stream.IsReadToTheEnd();
    }
  }

  /** The buffer over the first `read` bytes of `buffer`: the constructor's, unless nothing was read or no header found. */
  method BuildBuffer(buffer: array<byte>, read: int) returns (gzipBuffer: GzipBuffer)
    requires 0 <= read <= buffer.Length
    ensures read == 0 || AllHeaders(buffer[..read]) == [] ==> gzipBuffer == DefaultBuffer
    ensures read > 0 && AllHeaders(buffer[..read]) != [] ==> gzipBuffer == Scan(Segment(Allocated(buffer), 0, read))
  {
    gzipBuffer := DefaultBuffer;
    if read > 0 {
      var readBuffer := Segment(Allocated(buffer), 0, read);
      assert Bytes(readBuffer) == buffer[..read];
      var scanned := NewGzipBuffer(readBuffer);
      if !NoHeaders(scanned.value) {
        gzipBuffer := scanned.value;
      }
    }
  }

  /**
   * `ReturnTailOfReadedBytes` of `buffer[from..upto]` after a read of `upto` bytes from
   * `rem`: throws while returned bytes are held unread, and otherwise leaves the stream
   * holding `rem[from..]`.
   */
  method ReturnRead(stream: RewindableStream, buffer: array<byte>, from: int, upto: int, ghost rem: seq<byte>)
    returns (r: Result<(), Exception>)
    requires stream.Valid() && stream.Disjoint(Allocated(buffer)) && !stream.HoldsEmptyReturn()
    requires 0 <= from < upto <= buffer.Length && upto <= |rem| && buffer[..upto] == rem[..upto]
    requires stream.Remaining() == rem[upto..] && stream.position >= upto
    requires stream.someBufferLeft <==> stream.returnedBuffer.count > 0
    modifies stream
    ensures stream.Valid() && stream.Disjoint(Allocated(buffer))
    ensures r.Failure? <==> old(stream.returnedBuffer.count) > 0
    ensures r.Failure? ==> r.error == InvalidOperationException && stream.Remaining() == rem[upto..]
    ensures r.Success? ==> stream.Remaining() == rem[from..] && stream.returnedBuffer.count == upto - from
    ensures r.Success? ==> !stream.HoldsEmptyReturn()
  {
    var bytes := Segment(Allocated(buffer), from, upto - from);
    assert Bytes(bytes) == rem[from..upto];
    ghost var held, rest := Bytes(stream.returnedBuffer), stream.stream.Rest();
    r := stream.ReturnTailOfReadedBytes(bytes);
    if r.Success? {
      assert held == [] && held + rest == rem[upto..];
      assert rem[from..upto] + rem[upto..] == rem[from..];
    }
  }

  /** The `for` loop over the first `countHeaders` headers: the block from each to the next one, or to the end of the bytes read. */
  method CopyBlocks(buffer: array<byte>, headers: seq<GzipHeader>, countHeaders: int, read: int, ghost ps: seq<nat>)
    returns (blocks: seq<SplitResult>)
    requires 0 <= read <= buffer.Length && ps == AllHeaders(buffer[..read])
    requires headers == HeadersAt(Segment(Allocated(buffer), 0, read), ps) && 0 <= countHeaders <= |ps|
    ensures Spaced(ps, read) && blocks == Pieces(buffer[..read], ps, countHeaders)
  {
    ghost var data := buffer[..read];
    ScanIsSpaced(data);
    blocks := [];
    for i := 0 to countHeaders
      invariant blocks == Pieces(data, ps, i)
    {
      var block := CopyBlock(buffer, headers, i, read, ps);
      blocks := blocks + [block];
    }
  }

  /** The body of that loop: the `i`-th block, from its header to the next header or to the end of the bytes read. */
  method CopyBlock(buffer: array<byte>, headers: seq<GzipHeader>, i: int, read: int, ghost ps: seq<nat>)
    returns (block: SplitResult)
    requires 0 <= read <= buffer.Length && ps == AllHeaders(buffer[..read]) && Spaced(ps, read)
    requires headers == HeadersAt(Segment(Allocated(buffer), 0, read), ps) && 0 <= i < |ps|
    ensures block == WithBlock(IndependentGzipBlock(Piece(buffer[..read], ps, i)))
  {
    var from := Position(headers[i]);
    var to := if i < |headers| - 1 then Position(headers[i + 1]) else read;
    assert from == ps[i] && to == BlockEnd(ps, i, read);
    BytesOfSubSegment(Segment(Allocated(buffer), 0, read), from, to - from);
    var bytes := CopyBlockToStream(Segment(Allocated(buffer), from, to - from));
    assert bytes.value == Piece(buffer[..read], ps, i);
    block := WithBlock(IndependentGzipBlock(bytes.value));
  }

  /** `CopyBlockToStream`: a copy of the segment's bytes; a default segment throws. */
  method CopyBlockToStream(bytes: Segment) returns (r: Result<seq<byte>, Exception>)
    requires Valid(bytes)
    ensures bytes.arr.Null? ==> r == Failure(ArgumentException)
    ensures !bytes.arr.Null? ==> r == Success(Bytes(bytes))
  {
    if bytes.arr.Null? {
      return Failure(ArgumentException);
    }
    var copy := Copy(bytes);
    return Success(Bytes(copy));
  }
}
