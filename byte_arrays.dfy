/** Helpers/ByteArrayExtensions.cs: segments made over a whole `byte[]`. */
module ByteArrays {
  import opened Binary
  import opened Wrappers
  import opened Segments

  /** The bytes of `data` that `s` covers, or nothing when the window lies outside `data`. */
  function Window(data: seq<byte>, s: Segment): (r: seq<byte>)
    ensures 0 <= s.offset && 0 <= s.count && s.offset + s.count <= |data| ==> |r| == s.count
  {
    if 0 <= s.offset && 0 <= s.count && s.offset + s.count <= |data| then data[s.offset..s.offset + s.count] else []
  }

  /** The windows of `segs` on `data`, one after another. */
  function JoinWindows(data: seq<byte>, segs: seq<Segment>): seq<byte> {
    if segs == [] then [] else Window(data, segs[0]) + JoinWindows(data, segs[1..])
  }

  lemma {:induction false} JoinWindowsAppend(data: seq<byte>, segs: seq<Segment>, s: Segment)
    ensures JoinWindows(data, segs + [s]) == JoinWindows(data, segs) + Window(data, s)
  {
    if segs == [] {
      assert segs + [s] == [s];
    } else {
      assert (segs + [s])[1..] == segs[1..] + [s];
      JoinWindowsAppend(data, segs[1..], s);
    }
  }

  /** Appending the window that starts where the covered prefix ends extends the prefix. */
  lemma JoinWindowsStep(data: seq<byte>, segs: seq<Segment>, s: Segment)
    requires 0 <= s.offset && 0 <= s.count && s.offset + s.count <= |data|
    requires JoinWindows(data, segs) == data[..s.offset]
    ensures JoinWindows(data, segs + [s]) == data[..s.offset + s.count]
  {
    assert Window(data, s) == data[s.offset..s.offset + s.count];
    assert data[..s.offset] + data[s.offset..s.offset + s.count] == data[..s.offset + s.count];
    JoinWindowsAppend(data, segs, s);
  }

  /** `TakeFirst(count)`: the first `count` bytes of the array. */
  function TakeFirst(bytes: ByteArray, count: int): (r: Result<Segment, Exception>)
    reads ObjectsOf(bytes)
    ensures bytes.Null? ==> r == Failure(ArgumentNullException)
    ensures !bytes.Null? && 0 <= count <= Length(bytes) ==>
      r.Success? && r.value.arr == bytes && Valid(r.value) && Bytes(r.value) == Elements(bytes)[..count]
    ensures count < 0 || count > Length(bytes) ==> r.Failure?
  {
    NewSegment(bytes, 0, count)
  }

  /** `Slice(readFromStart)`: another name for the first `readFromStart` bytes. */
  function Slice(bytes: ByteArray, readFromStart: int): (r: Result<Segment, Exception>)
    reads ObjectsOf(bytes)
    ensures r == TakeFirst(bytes, readFromStart)
  {
    NewSegment(bytes, 0, readFromStart)
  }

  /** `Segment(offset, count)`: exactly the window `offset..offset+count`. */
  function SegmentOf(bytes: ByteArray, offset: int, count: int): (r: Result<Segment, Exception>)
    reads ObjectsOf(bytes)
    ensures !bytes.Null? && 0 <= offset && 0 <= count && offset + count <= Length(bytes) ==>
      r.Success? && Valid(r.value) && Bytes(r.value) == Elements(bytes)[offset..offset + count]
    ensures r.Success? ==> 0 <= offset && offset + count <= Length(bytes)
  {
    NewSegment(bytes, offset, count)
  }

  /** `Segment(offset)`: from `offset` to the end of the array. */
  function SegmentFrom(bytes: ByteArray, offset: int): (r: Result<Segment, Exception>)
    reads ObjectsOf(bytes)
    ensures bytes.Null? ==> r == Failure(NullReferenceException)
    ensures !bytes.Null? && 0 <= offset <= Length(bytes) ==>
      r.Success? && Valid(r.value) && Bytes(r.value) == Elements(bytes)[offset..]
    ensures offset < 0 || offset > Length(bytes) ==> r.Failure?
  {
    if bytes.Null? then Failure(NullReferenceException)
    else NewSegment(bytes, offset, Length(bytes) - offset)
  }

  /** `ToSegment`: the whole array. */
  function ToSegment(bytes: ByteArray): (r: Result<Segment, Exception>)
    reads ObjectsOf(bytes)
    ensures bytes.Null? ==> r == Failure(NullReferenceException)
    ensures !bytes.Null? ==> r.Success? && Valid(r.value) && r.value.arr == bytes && Bytes(r.value) == Elements(bytes)
  {
    if bytes.Null? then Failure(NullReferenceException)
    else NewSegment(bytes, 0, Length(bytes))
  }

  /** `SliceFromTheEnd(readFromEnd)`: the last `readFromEnd` bytes. */
  function SliceFromTheEnd(bytes: ByteArray, readFromEnd: int): (r: Result<Segment, Exception>)
    reads ObjectsOf(bytes)
    ensures bytes.Null? ==> r == Failure(NullReferenceException)
    ensures !bytes.Null? && 0 <= readFromEnd <= Length(bytes) ==>
      r.Success? && Valid(r.value) && Bytes(r.value) == Elements(bytes)[Length(bytes) - readFromEnd..]
    ensures readFromEnd < 0 || readFromEnd > Length(bytes) ==> r.Failure?
  {
    if bytes.Null? then Failure(NullReferenceException)
    else NewSegment(bytes, Length(bytes) - readFromEnd, readFromEnd)
  }

  /**
   * `segs` are consecutive windows of `bytes`, the `j`-th starting at `j * size`, each
   * non-empty, at most `size` long and ending by `end`; all but the last are full.
   */
  ghost predicate Sliced(bytes: ByteArray, segs: seq<Segment>, size: int, end: int) {
    (forall j :: 0 <= j < |segs| ==>
      segs[j].arr == bytes && segs[j].offset == j * size && 0 < segs[j].count <= size
      && 0 <= segs[j].offset && segs[j].offset + segs[j].count <= end)
    && (forall j :: 0 <= j < |segs| - 1 ==> segs[j].count == size)
  }

  /** A segment starting where the full ones end extends the slicing. */
  lemma SlicedAppend(bytes: ByteArray, segs: seq<Segment>, size: int, end: int, s: Segment)
    requires Sliced(bytes, segs, size, end) && (|segs| > 0 ==> segs[|segs| - 1].count == size)
    requires s.arr == bytes && 0 <= s.offset == |segs| * size == end && 0 < s.count <= size
    ensures Sliced(bytes, segs + [s], size, s.offset + s.count)
  {
    assert (|segs| + 1) * size == |segs| * size + size;
  }

  /**
   * `Slices(size)`: consecutive segments of `size` bytes (the last may be shorter) that
   * together cover the array. Reading `Length` of a null array throws on the first step, and
   * a negative size makes the first segment's count negative. A size of 0 on a non-empty
   * array yields empty segments forever and is not modelled.
   */
  method Slices(bytes: ByteArray, size: int) returns (r: Result<seq<Segment>, Exception>)
    requires size == 0 ==> bytes.Null? || Length(bytes) == 0
    ensures bytes.Null? <==> r == Failure(NullReferenceException)
    ensures !bytes.Null? && size < 0 && Length(bytes) > 0 <==> r == Failure(ArgumentOutOfRangeException)
    ensures !bytes.Null? && Length(bytes) == 0 ==> r == Success([])
    ensures r.Success? ==> forall j :: 0 <= j < |r.value| ==> r.value[j].offset == j * size
    ensures r.Success? ==> JoinWindows(Elements(bytes), r.value) == Elements(bytes)
    ensures r.Success? ==> forall j :: 0 <= j < |r.value| ==>
      r.value[j].arr == bytes && Valid(r.value[j]) && 0 < r.value[j].count <= size
    ensures r.Success? ==> forall j :: 0 <= j < |r.value| - 1 ==> r.value[j].count == size
  {
    if bytes.Null? {
      return Failure(NullReferenceException);
    }
    if size < 0 && Length(bytes) > 0 {
      return Failure(ArgumentOutOfRangeException);
    }
    var segs := SliceWhole(bytes, size);
    return Success(segs);
  }

  /**
   * The state of the `Slices` loop after `offset` bytes: the slices so far cover exactly
   * the first `offset` bytes and, while bytes are left, are all full.
   */
  ghost predicate Slicing(bytes: ByteArray, segs: seq<Segment>, size: int, offset: int)
    reads ObjectsOf(bytes)
  {
    0 <= offset <= Length(bytes)
    && JoinWindows(Elements(bytes), segs) == Elements(bytes)[..offset]
    && Sliced(bytes, segs, size, offset)
    && (offset < Length(bytes) ==> offset == |segs| * size && (|segs| > 0 ==> segs[|segs| - 1].count == size))
  }

  /** One step of the `Slices` loop: the next slice is as long as `size` or as what is left. */
  lemma SlicingStep(bytes: ByteArray, segs: seq<Segment>, size: int, offset: int, count: int)
    requires size > 0 && Slicing(bytes, segs, size, offset) && offset < Length(bytes)
    requires count == if Length(bytes) - offset < size then Length(bytes) - offset else size
    ensures Slicing(bytes, segs + [Segment(bytes, offset, count)], size, offset + count)
  {
    var segment := Segment(bytes, offset, count);
    JoinWindowsStep(Elements(bytes), segs, segment);
    SlicedAppend(bytes, segs, size, offset, segment);
    assert (|segs| + 1) * size == offset + size;
  }

  /** The loop of `Slices` over an array it accepts: cuts the whole array into slices. */
  method SliceWhole(bytes: ByteArray, size: int) returns (segs: seq<Segment>)
    requires !bytes.Null? && (size > 0 || Length(bytes) == 0)
    ensures JoinWindows(Elements(bytes), segs) == Elements(bytes)
    ensures Sliced(bytes, segs, size, Length(bytes))
    ensures Length(bytes) == 0 ==> segs == []
  {
    var leftBytes := Length(bytes);
    var offset := 0;
    segs := [];
    while leftBytes > 0
      invariant leftBytes == Length(bytes) - offset && Slicing(bytes, segs, size, offset)
    {
      var count := if leftBytes < size then leftBytes else size;
      SlicingStep(bytes, segs, size, offset, count);
      segs := segs + [Segment(bytes, offset, count)];
      leftBytes := leftBytes - count;
      offset := offset + count;
    }
    assert Elements(bytes)[..offset] == Elements(bytes);
  }
}
