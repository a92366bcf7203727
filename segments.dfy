/**
 * `ArraySegment<byte>` and Helpers/ArraySegmentExtensions.cs. A segment is a window
 * (offset, count) on an array that other segments may share, so the array is a real
 * Dafny array; the model distinguishes a null array from the one shared empty array
 * (`Empty<T>.Array`) that several helpers substitute for null.
 */
module Segments {
  import opened Binary
  import opened Wrappers
  import opened ByteMasks

  /** What a `byte[]` reference can be: null, the shared empty array, or an array of the heap. */
  datatype ByteArray = Null | SharedEmpty | Allocated(a: array<byte>)

  function Length(b: ByteArray): nat {
    if b.Allocated? then b.a.Length else 0
  }

  function ObjectsOf(b: ByteArray): set<object> {
    if b.Allocated? then {b.a} else {}
  }

  function Elements(b: ByteArray): (r: seq<byte>)
    reads ObjectsOf(b)
    ensures |r| == Length(b)
  {
    if b.Allocated? then b.a[..] else []
  }

  /** An `ArraySegment<byte>`: `Segment(Null, 0, 0)` is `default(ArraySegment<byte>)`. */
  datatype Segment = Segment(arr: ByteArray, offset: int, count: int)

  const Default: Segment := Segment(Null, 0, 0)

  /** `Empty<byte>.ArraySegment`: the whole of the shared empty array. */
  const EmptySegment: Segment := Segment(SharedEmpty, 0, 0)

  /** What the `ArraySegment` constructor guarantees (and `default` satisfies). */
  predicate Valid(s: Segment) {
    if s.arr.Null? then s.offset == 0 && s.count == 0
    else 0 <= s.offset && 0 <= s.count && s.offset + s.count <= Length(s.arr)
  }

  /** The bytes the segment covers. */
  function Bytes(s: Segment): (r: seq<byte>)
    requires Valid(s)
    reads ObjectsOf(s.arr)
    ensures |r| == s.count
  {
    Elements(s.arr)[s.offset..s.offset + s.count]
  }

  /** A window inside a segment covers the corresponding slice of the segment's bytes. */
  lemma BytesOfSubSegment(s: Segment, i: int, n: int)
    requires Valid(s) && !s.arr.Null? && 0 <= i && 0 <= n && i + n <= s.count
    ensures Valid(Segment(s.arr, s.offset + i, n))
    ensures Bytes(Segment(s.arr, s.offset + i, n)) == Bytes(s)[i..i + n]
  {
  }

  /** A segment `t` over the bytes of `s` from index `i` on. */
  lemma BytesOfSuffix(s: Segment, t: Segment, i: int)
    requires Valid(s) && !s.arr.Null? && 0 <= i <= s.count
    requires t.arr == s.arr && t.offset == s.offset + i && t.count == s.count - i
    ensures Valid(t) && Bytes(t) == Bytes(s)[i..]
  {
  }

  /** The first `n` bytes of a segment and the window after them (the shared empty segment when nothing is left) hold its bytes, in order. */
  lemma BytesSplit(s: Segment, n: int)
    requires Valid(s) && !s.arr.Null? && 0 <= n <= s.count
    ensures var rest := if n == s.count then EmptySegment else Segment(s.arr, s.offset + n, s.count - n);
      Valid(Segment(s.arr, s.offset, n)) && Valid(rest)
      && Bytes(Segment(s.arr, s.offset, n)) + Bytes(rest) == Bytes(s)
  {
    BytesOfSubSegment(s, 0, n);
    if n < s.count {
      BytesOfSubSegment(s, n, s.count - n);
      assert Bytes(s)[..n] + Bytes(s)[n..] == Bytes(s);
    }
  }

  /** `new ArraySegment<byte>(array, offset, count)`, with the constructor's argument checks. */
  function NewSegment(arr: ByteArray, offset: int, count: int): (r: Result<Segment, Exception>)
    ensures r.Success? <==> !arr.Null? && 0 <= offset && 0 <= count && offset + count <= Length(arr)
    ensures r.Success? ==> Valid(r.value) && r.value.arr == arr && r.value.offset == offset && r.value.count == count
    ensures arr.Null? ==> r == Failure(ArgumentNullException)
    ensures !arr.Null? && (offset < 0 || count < 0) ==> r == Failure(ArgumentOutOfRangeException)
  {
    if arr.Null? then Failure(ArgumentNullException)
    else if offset < 0 || count < 0 then Failure(ArgumentOutOfRangeException)
    else if Length(arr) - offset < count then Failure(ArgumentException)
    else Success(Segment(arr, offset, count))
  }

  /** `array ?? Empty<T>.Array`. */
  function OrEmpty(arr: ByteArray): (r: ByteArray)
    ensures !r.Null? && (arr.Null? ==> r == SharedEmpty) && (!arr.Null? ==> r == arr)
  {
    if arr.Null? then SharedEmpty else arr
  }

  /** `LastOffset`: the array index of the segment's last element. */
  function LastOffset(s: Segment): (r: int)
    requires Valid(s)
    reads ObjectsOf(s.arr)
    ensures s.count > 0 ==> 0 <= r < Length(s.arr) && Elements(s.arr)[r] == Bytes(s)[s.count - 1]
    ensures s.count == 0 ==> r == s.offset - 1
  {
    s.offset + s.count - 1
  }

  /** `TakeFirst`: the first `count` elements; a null segment is returned as it is. */
  function TakeFirst(s: Segment, count: int): (r: Result<Segment, Exception>)
    requires Valid(s)
    reads ObjectsOf(s.arr)
    ensures s.arr.Null? ==> r == Success(s)
    ensures !s.arr.Null? && 0 <= count <= s.count ==>
      r.Success? && Valid(r.value) && r.value.arr == s.arr && Bytes(r.value) == Bytes(s)[..count]
    ensures !s.arr.Null? && count < 0 ==> r.Failure?
  {
    if s.arr.Null? then Success(s)
    else if 0 <= count <= s.count then
      BytesOfSubSegment(s, 0, count);
      NewSegment(s.arr, s.offset, count)
    else NewSegment(s.arr, s.offset, count)
  }

  /** `ShiftOffsetRight`: drops the first `skip` elements; the identity for 0. */
  function ShiftOffsetRight(s: Segment, skip: int): (r: Result<Segment, Exception>)
    requires Valid(s)
    reads ObjectsOf(s.arr)
    ensures skip == 0 ==> r == Success(s)
    ensures skip != 0 && s.arr.Null? ==> r.Failure?
    ensures !s.arr.Null? && 0 <= skip <= s.count ==>
      r.Success? && Valid(r.value) && r.value.arr == s.arr && r.value.offset == s.offset + skip
      && Bytes(r.value) == Bytes(s)[skip..]
    ensures skip > s.count ==> r.Failure?
  {
    if skip == 0 then Success(s)
    else NewSegment(OrEmpty(s.arr), s.offset + skip, s.count - skip)
  }

  /** `SliceFromEnd`: the last `count` elements, but the whole segment for 0. */
  function SliceFromEnd(s: Segment, count: int): (r: Result<Segment, Exception>)
    requires Valid(s)
    reads ObjectsOf(s.arr)
    ensures count == 0 ==> r == Success(s)
    ensures !s.arr.Null? && 0 < count <= s.count ==>
      r.Success? && Valid(r.value) && r.value.arr == s.arr && Bytes(r.value) == Bytes(s)[s.count - count..]
    ensures count != 0 && s.arr.Null? ==> r.Failure?
  {
    if count == 0 then Success(s)
    else NewSegment(OrEmpty(s.arr), s.offset + s.count - count, count)
  }

  /** `RemoveFromEnd`: all but the last `count` elements, the whole segment for 0. */
  function RemoveFromEnd(s: Segment, count: int): (r: Result<Segment, Exception>)
    requires Valid(s)
    reads ObjectsOf(s.arr)
    ensures count == 0 ==> r == Success(s)
    ensures !s.arr.Null? && 0 < count <= s.count ==>
      r.Success? && Valid(r.value) && r.value.arr == s.arr && r.value.offset == s.offset
      && Bytes(r.value) == Bytes(s)[..s.count - count]
    ensures count > s.count || (count != 0 && s.arr.Null?) ==> r.Failure?
  {
    if count == 0 then Success(s)
    else NewSegment(OrEmpty(s.arr), s.offset, s.count - count)
  }

  /** Cutting `k` elements off the end and taking the last `k` reassemble the segment; for `k == 0` both give the segment itself. */
  lemma RemoveAndSliceFromEndReassemble(s: Segment, k: int)
    requires Valid(s) && !s.arr.Null? && 0 <= k <= s.count
    ensures RemoveFromEnd(s, k).Success? && SliceFromEnd(s, k).Success?
    ensures k > 0 ==> Bytes(RemoveFromEnd(s, k).value) + Bytes(SliceFromEnd(s, k).value) == Bytes(s)
    ensures k == 0 ==> RemoveFromEnd(s, k).value == s && SliceFromEnd(s, k).value == s
  {
    if k > 0 {
      var b := Bytes(s);
      assert b[..s.count - k] + b[s.count - k..] == b;
    }
  }

  /** `Slice(skip, count)`: the window `skip..skip+count` relative to the segment's offset. */
  function Slice(s: Segment, skip: int, count: int): (r: Result<Segment, Exception>)
    requires Valid(s)
    reads ObjectsOf(s.arr)
    ensures !s.arr.Null? && 0 <= skip && 0 <= count && skip + count <= s.count ==>
      r.Success? && Valid(r.value) && r.value.arr == s.arr && Bytes(r.value) == Bytes(s)[skip..skip + count]
    ensures s.arr.Null? && skip == 0 && count == 0 ==> r == Success(Segment(SharedEmpty, 0, 0))
    ensures count < 0 ==> r.Failure?
  {
    NewSegment(OrEmpty(s.arr), s.offset + skip, count)
  }

  /** `SliceFromTheEnd`: exactly the last `k` elements (empty for 0, unlike SliceFromEnd). */
  function SliceFromTheEnd(s: Segment, k: int): (r: Result<Segment, Exception>)
    requires Valid(s)
    reads ObjectsOf(s.arr)
    ensures !s.arr.Null? && 0 <= k <= s.count ==>
      r.Success? && Valid(r.value) && r.value.arr == s.arr && Bytes(r.value) == Bytes(s)[s.count - k..]
    ensures k < 0 || k > s.offset + s.count ==> r.Failure?
  {
    NewSegment(OrEmpty(s.arr), LastOffset(s) - k + 1, k)
  }

  /** `SetForwardOffset`: moves the start forward to the array index `newOffset`, keeping the end. */
  function SetForwardOffset(s: Segment, newOffset: int): (r: Result<Segment, Exception>)
    requires Valid(s)
    reads ObjectsOf(s.arr)
    ensures newOffset == s.offset ==> r == Success(s)
    ensures newOffset < s.offset ==> r == Failure(ArgumentException)
    ensures r.Success? ==> Valid(r.value) && r.value.offset + r.value.count == s.offset + s.count
    ensures !s.arr.Null? && s.offset <= newOffset <= s.offset + s.count ==>
      r.Success? && r.value.arr == s.arr && Bytes(r.value) == Bytes(s)[newOffset - s.offset..]
    ensures newOffset > s.offset + s.count ==> r.Failure?
  {
    if s.offset == newOffset then Success(s)
    else if newOffset < s.offset then Failure(ArgumentException)
    else NewSegment(OrEmpty(s.arr), newOffset, s.count - (newOffset - s.offset))
  }

  /** The mask accepts the window `w` position by position. */
  predicate MaskAccepts(mask: seq<ByteMask>, w: seq<byte>)
    decreases |mask|
  {
    |w| == |mask| && (mask == [] || (IsMatched(mask[0], w[0]) && MaskAccepts(mask[1..], w[1..])))
  }

  lemma {:induction false} MaskAcceptsPointwise(mask: seq<ByteMask>, w: seq<byte>)
    ensures MaskAccepts(mask, w) <==> |w| == |mask| && forall k :: 0 <= k < |mask| ==> IsMatched(mask[k], w[k])
    decreases |mask|
  {
    if |w| == |mask| && mask != [] {
      MaskAcceptsPointwise(mask[1..], w[1..]);
      if forall k :: 0 <= k < |mask| ==> IsMatched(mask[k], w[k]) {
        forall k | 0 <= k < |mask| - 1 ensures IsMatched(mask[1..][k], w[1..][k]) {
          assert mask[1..][k] == mask[k + 1] && w[1..][k] == w[k + 1];
        }
      }
      if MaskAccepts(mask, w) {
        forall k | 0 <= k < |mask| ensures IsMatched(mask[k], w[k]) {
          if k > 0 {
            assert mask[1..][k - 1] == mask[k] && w[1..][k - 1] == w[k];
          }
        }
      }
    }
  }

  /** The whole mask matches `data` at index `i`. */
  predicate MatchesAt(data: seq<byte>, i: int, mask: seq<ByteMask>) {
    0 <= i && i + |mask| <= |data| && MaskAccepts(mask, data[i..i + |mask|])
  }

  /** The last `p` bytes of `data` are accepted by the first `p` mask positions. */
  predicate SuffixMatchesPrefix(data: seq<byte>, mask: seq<ByteMask>, p: int) {
    0 <= p <= |data| && p <= |mask| && MaskAccepts(mask[..p], data[|data| - p..])
  }

  /** `IsMatchToMask`: false for a null array, an empty mask or too few elements, else position-wise matching. */
  method IsMatchToMask(s: Segment, startIndex: int, mask: seq<ByteMask>) returns (b: bool)
    requires Valid(s) && 0 <= startIndex
    ensures b <==> |mask| > 0 && MatchesAt(Bytes(s), startIndex, mask)
  {
    if s.arr.Null? || |mask| == 0 || s.count - startIndex < |mask| {
      return false;
    }
    var data := s.arr.a;
    var start := startIndex + s.offset;
    ghost var w := Bytes(s)[startIndex..startIndex + |mask|];
    MaskAcceptsPointwise(mask, w);
    for i := 0 to |mask|
      invariant forall k :: 0 <= k < i ==> IsMatched(mask[k], w[k])
    {
      if !IsMatched(mask[i], data[start + i]) {
        assert w[i] == data[start + i];
        return false;
      }
    }
    return true;
  }

  /**
   * `IsMatchedPartiallyFromEnd`: whether the last `count` elements match the first `count`
   * mask positions; false for a null array, an empty mask or an empty segment; throws when
   * `count` exceeds the segment or the mask. A negative `count` checks nothing and answers true.
   */
  method IsMatchedPartiallyFromEnd(s: Segment, mask: seq<ByteMask>, count: int) returns (r: Result<bool, Exception>)
    requires Valid(s)
    ensures s.arr.Null? || |mask| == 0 || s.count == 0 ==> r == Success(false)
    ensures !(s.arr.Null? || |mask| == 0 || s.count == 0) && (s.count < count || |mask| < count) ==>
      r == Failure(ArgumentException)
    ensures !(s.arr.Null? || |mask| == 0 || s.count == 0) && 0 <= count <= s.count && count <= |mask| ==>
      r == Success(SuffixMatchesPrefix(Bytes(s), mask, count))
    ensures !(s.arr.Null? || |mask| == 0 || s.count == 0) && count < 0 ==> r == Success(true)
  {
    if s.arr.Null? || |mask| == 0 || s.count == 0 {
      return Success(false);
    }
    if s.count < count || |mask| < count {
      return Failure(ArgumentException);
    }
    var data := s.arr.a;
    var startIndex := s.offset + s.count - count;
    ghost var w := if count >= 0 then Bytes(s)[s.count - count..] else [];
    if count >= 0 {
      MaskAcceptsPointwise(mask[..count], w);
    }
    var i := 0;
    while i < count
      invariant 0 <= i <= if count < 0 then 0 else count
      invariant forall k :: 0 <= k < i ==> IsMatched(mask[k], w[k])
    {
      if !IsMatched(mask[i], data[startIndex + i]) {
        assert w[i] == data[startIndex + i];
        assert mask[..count][i] == mask[i];
        return Success(false);
      }
      i := i + 1;
    }
    return Success(true);
  }

  /** `CopyToArray`: a fresh array with the segment's bytes; the shared empty array for a null or empty segment. */
  method CopyToArray(s: Segment) returns (r: ByteArray)
    requires Valid(s)
    ensures s.arr.Null? || s.count == 0 ==> r == SharedEmpty
    ensures !(s.arr.Null? || s.count == 0) ==> r.Allocated? && fresh(r.a)
    ensures Elements(r) == Bytes(s)
  {
    if s.arr.Null? || s.count == 0 {
      return SharedEmpty;
    }
    var data := new byte[s.count](i requires 0 <= i < s.count reads s.arr.a => s.arr.a[s.offset + i]);
    return Allocated(data);
  }

  /** `Copy`: a segment over the whole of `CopyToArray`'s result, never null. */
  method Copy(s: Segment) returns (r: Segment)
    requires Valid(s)
    ensures Valid(r) && !r.arr.Null? && r.offset == 0 && r.count == s.count
    ensures s.arr.Null? || s.count == 0 ==> r.arr == SharedEmpty
    ensures !(s.arr.Null? || s.count == 0) ==> r.arr.Allocated? && fresh(r.arr.a)
    ensures Bytes(r) == Bytes(s)
  {
    var copied := CopyToArray(s);
    r := Segment(copied, 0, Length(copied));
  }

  /** `AppendSegment`: an empty side gives back the other operand uncopied; otherwise a fresh concatenation. */
  method AppendSegment(s: Segment, other: Segment) returns (r: Segment)
    requires Valid(s) && Valid(other)
    ensures other.arr.Null? || other.count == 0 ==> r == s
    ensures !(other.arr.Null? || other.count == 0) && (s.arr.Null? || s.count == 0) ==> r == other
    ensures !(other.arr.Null? || other.count == 0) && !(s.arr.Null? || s.count == 0) ==>
      r.arr.Allocated? && fresh(r.arr.a) && r.offset == 0
    ensures Valid(r) && Bytes(r) == Bytes(s) + Bytes(other)
  {
    if other.arr.Null? || other.count == 0 {
      return s;
    }
    if s.arr.Null? || s.count == 0 {
      return other;
    }
    var count := s.count + other.count;
    var first, second := Bytes(s), Bytes(other);
    var joined := new byte[count](i requires 0 <= i < count => if i < |first| then first[i] else second[i - |first|]);
    r := Segment(Allocated(joined), 0, count);
    assert Bytes(r) == first + second;
  }
}
