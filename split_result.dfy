/**
 * Decompression/GzipSplitting/SplitResult.cs and GzipSplittingStatus.cs: what a splitter
 * yields, either one independent gzip member or a status that ends the split.
 */
module SplitResults {
  import opened Binary
  import opened Wrappers

  /** `GzipSplittingStatus`; `StreamIsEnd` is the enum's zero value. */
  datatype GzipSplittingStatus = StreamIsEnd | WrongFormat | CantReadBlock | Block

  /** `IndependentGzipBlock`: a member the decoder can decompress alone, given by its bytes. */
  datatype IndependentGzipBlock = IndependentGzipBlock(bytes: seq<byte>)

  datatype SplitResult = SplitResult(block: Option<IndependentGzipBlock>, status: GzipSplittingStatus)

  const DefaultSplitResult: SplitResult := SplitResult(None, StreamIsEnd)

  /** `HasBlock`: the status is none of the three that end an enumeration. */
  predicate HasBlock(r: SplitResult)
    ensures HasBlock(r) <==> r.status !in {StreamIsEnd, WrongFormat, CantReadBlock}
  {
    r.status == Block
  }

  /** `HasOnlyStatus`: the status ends an enumeration, and the default result is one of these. */
  predicate HasOnlyStatus(r: SplitResult)
    ensures HasOnlyStatus(r) <==> r.status in {StreamIsEnd, WrongFormat, CantReadBlock}
    ensures r == DefaultSplitResult ==> HasOnlyStatus(r)
  {
    !HasBlock(r)
  }

  /** A result carries a block exactly when its status says so. */
  predicate WellFormed(r: SplitResult) {
    HasBlock(r) <==> r.block.Some?
  }

  /** `SplitResult.WithBlock` (also the implicit conversion from a block). */
  function WithBlock(block: IndependentGzipBlock): (r: SplitResult)
    ensures WellFormed(r) && HasBlock(r) && r.block == Some(block)
  {
    SplitResult(Some(block), Block)
  }

  /** `SplitResult.StatusOnly` (also the implicit conversion from a status): the `Block` status needs a block. */
  function StatusOnly(status: GzipSplittingStatus): (r: Result<SplitResult, Exception>)
    ensures r.Success? <==> status != Block
    ensures r.Failure? ==> r.error == ArgumentException
    ensures r.Success? ==> WellFormed(r.value) && HasOnlyStatus(r.value) && r.value.status == status
  {
    if status == Block then Failure(ArgumentException) else Success(SplitResult(None, status))
  }

  /** A status result for each of the three terminal statuses. */
  function Terminal(status: GzipSplittingStatus): (r: SplitResult)
    requires status != Block
    ensures WellFormed(r) && HasOnlyStatus(r) && r.status == status
    ensures StatusOnly(status) == Success(r)
  {
    SplitResult(None, status)
  }

  /**
   * One enumeration of a splitter, run to its end: the results it yielded, the exception
   * that ended it if one did, and, when none did, the bytes the stream still holds.
   */
  datatype SplitRun = SplitRun(results: seq<SplitResult>, thrown: Option<Exception>, left: seq<byte>)

  /** `rs` yielded before the rest of an enumeration. */
  function Prepend(rs: seq<SplitResult>, run: SplitRun): (r: SplitRun)
    ensures r.results == rs + run.results && r.thrown == run.thrown && r.left == run.left
  {
    SplitRun(rs + run.results, run.thrown, run.left)
  }

  /** The bytes of the blocks among `rs`, in order. */
  function BlockBytes(rs: seq<SplitResult>): seq<byte>
  {
    if rs == [] then []
    else (if rs[0].block.Some? then rs[0].block.value.bytes else []) + BlockBytes(rs[1..])
  }

  lemma {:induction false} BlockBytesAppend(a: seq<SplitResult>, b: seq<SplitResult>)
    ensures BlockBytes(a + b) == BlockBytes(a) + BlockBytes(b)
    decreases |a|
  {
    if a == [] {
      assert a + b == b;
    } else {
      assert (a + b)[0] == a[0] && (a + b)[1..] == a[1..] + b;
      BlockBytesAppend(a[1..], b);
    }
  }

  predicate AllBlocks(rs: seq<SplitResult>) {
    forall i :: 0 <= i < |rs| ==> HasBlock(rs[i]) && WellFormed(rs[i])
  }

  /** Zero or more blocks, then exactly one status. */
  predicate BlocksThenStatus(rs: seq<SplitResult>) {
    |rs| > 0 && AllBlocks(rs[..|rs| - 1]) && WellFormed(rs[|rs| - 1]) && HasOnlyStatus(rs[|rs| - 1])
  }

  /** An enumeration that ends normally ends with one status after its blocks; one cut short by an exception yielded only blocks. */
  predicate Shaped(run: SplitRun) {
    if run.thrown.None? then BlocksThenStatus(run.results) else AllBlocks(run.results)
  }

  /** Blocks yielded before a well-shaped enumeration keep it well shaped. */
  lemma ShapedPrepend(blocks: seq<SplitResult>, run: SplitRun)
    requires AllBlocks(blocks) && Shaped(run)
    ensures Shaped(Prepend(blocks, run))
  {
    var rs := blocks + run.results;
    if run.thrown.None? {
      assert rs[..|rs| - 1] == blocks + run.results[..|run.results| - 1];
    }
  }

  /** Blocks followed by `StreamIsEnd` are a well-shaped enumeration. */
  lemma ShapedEnded(blocks: seq<SplitResult>, left: seq<byte>)
    requires AllBlocks(blocks)
    ensures Shaped(SplitRun(blocks + [Terminal(StreamIsEnd)], None, left))
  {
    var rs := blocks + [Terminal(StreamIsEnd)];
    assert rs[..|rs| - 1] == blocks;
  }

  /** A final status adds no bytes to the blocks before it. */
  lemma ConsumedEnded(blocks: seq<SplitResult>)
    ensures BlockBytes(blocks + [Terminal(StreamIsEnd)]) == BlockBytes(blocks)
  {
    BlockBytesAppend(blocks, [Terminal(StreamIsEnd)]);
    assert BlockBytes([Terminal(StreamIsEnd)]) == [] + BlockBytes([]);
  }

  /** Results yielded in two stretches before the rest of an enumeration are one stretch. */
  lemma PrependTwice(a: seq<SplitResult>, b: seq<SplitResult>, run: SplitRun)
    ensures Prepend(a, Prepend(b, run)) == Prepend(a + b, run)
  {
    assert a + (b + run.results) == (a + b) + run.results;
  }
}
