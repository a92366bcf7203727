/**
 * Models/Block.cs: a chunk of the input file together with the file offset reached after it.
 * A `default(Block)` has no bytes field set and offset 0; `Bytes` then falls back to an
 * empty segment.
 */
module Blocks {
  import opened Binary
  import opened Wrappers
  import opened Segments

  /** `bytes` is the nullable `ArraySegment<byte>?` field; `None` in a default block. */
  datatype Block = Block(bytes: Option<Segment>, offset: int)

  const DefaultBlock: Block := Block(None, 0)

  /**
   * `EmptyBytes`, the segment over the private empty array that stands in for missing bytes.
   * The model uses the shared empty array for it: both have no elements.
   */
  const EmptyBytes: Segment := EmptySegment

  predicate WellFormed(b: Block) {
    (b.bytes.Some? ==> Valid(b.bytes.value) && !b.bytes.value.arr.Null?) && IsInt64(b.offset)
  }

  /** `Block.Bytes`: never a segment over a null array. */
  function BlockBytes(b: Block): (r: Segment)
    requires WellFormed(b)
    ensures Valid(r) && !r.arr.Null?
    ensures b.bytes.None? ==> r.count == 0
  {
    if b.bytes.Some? then b.bytes.value else EmptyBytes
  }

  /** `Block.IsEmpty`. */
  predicate IsEmpty(b: Block)
    requires WellFormed(b)
    ensures b.bytes.None? ==> IsEmpty(b)
  {
    BlockBytes(b).count == 0
  }

  /** A default block has empty bytes and offset 0. */
  lemma DefaultBlockIsEmpty()
    ensures WellFormed(DefaultBlock) && IsEmpty(DefaultBlock) && DefaultBlock.offset == 0
    ensures BlockBytes(DefaultBlock) == EmptyBytes
  {
  }

  /**
   * The constructor as written: it rejects an offset that is not positive (0 included,
   * although its message speaks of negative offsets) and replaces a null-array segment by
   * the empty segment.
   */
  function NewBlockAsWritten(bytes: Segment, offset: int): (r: Result<Block, Exception>)
    requires Valid(bytes) && IsInt64(offset)
    ensures r.Success? <==> offset > 0
    ensures r.Failure? ==> r.error == ArgumentException
    ensures r.Success? ==> WellFormed(r.value) && r.value.offset == offset
    ensures r.Success? && !bytes.arr.Null? ==> BlockBytes(r.value) == bytes
    ensures r.Success? && bytes.arr.Null? ==> BlockBytes(r.value) == EmptyBytes
  {
    if offset <= 0 then Failure(ArgumentException)
    else Success(Block(Some(if bytes.arr.Null? then EmptyBytes else bytes), offset))
  }

  /**
   * The constructor as its message and the default block describe it: only a negative
   * offset is rejected, so the empty block at the start of a file can be built.
   */
  function NewBlock(bytes: Segment, offset: int): (r: Result<Block, Exception>)
    requires Valid(bytes) && IsInt64(offset)
    ensures r.Success? <==> offset >= 0
    ensures r.Failure? ==> r.error == ArgumentException
    ensures r.Success? ==> WellFormed(r.value) && r.value.offset == offset
    ensures r.Success? && !bytes.arr.Null? ==> BlockBytes(r.value) == bytes
    ensures r.Success? && bytes.arr.Null? ==> BlockBytes(r.value) == EmptyBytes
  {
    if offset < 0 then Failure(ArgumentException)
    else Success(Block(Some(if bytes.arr.Null? then EmptyBytes else bytes), offset))
  }

  /** The two constructors differ exactly at offset 0, where only the corrected one builds a block. */
  lemma NewBlockDiffersAtZero(bytes: Segment, offset: int)
    requires Valid(bytes) && IsInt64(offset)
    ensures NewBlockAsWritten(bytes, offset) != NewBlock(bytes, offset) <==> offset == 0
    ensures NewBlockAsWritten(bytes, 0).Failure? && NewBlock(bytes, 0).Success?
  {
  }
}
