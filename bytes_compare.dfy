/** Helpers/BytesExtensions.cs: the unsafe 8-bytes-at-a-time comparison and the equality tests built on it. */
module BytesCompare {
  import opened Binary
  import opened Wrappers
  import opened Segments

  /**
   * Byte-by-byte comparison: the difference of the first differing bytes, or the
   * difference of the lengths when one range is a prefix of the other.
   */
  function CompareBytes(x: seq<byte>, y: seq<byte>): int {
    if |x| == 0 || |y| == 0 then |x| - |y|
    else if x[0] != y[0] then x[0] as int - y[0] as int
    else CompareBytes(x[1..], y[1..])
  }

  lemma {:induction false} CompareAtFirstDifference(x: seq<byte>, y: seq<byte>, d: nat)
    requires d < |x| && d < |y| && x[..d] == y[..d] && x[d] != y[d]
    ensures CompareBytes(x, y) == x[d] as int - y[d] as int
  {
    if d > 0 {
      assert x[0] == x[..d][0] == y[..d][0] == y[0];
      assert x[1..][..d - 1] == x[..d][1..] == y[..d][1..] == y[1..][..d - 1];
      CompareAtFirstDifference(x[1..], y[1..], d - 1);
    }
  }

  lemma {:induction false} CompareOfCommonPrefix(x: seq<byte>, y: seq<byte>)
    requires var m := if |x| < |y| then |x| else |y|; x[..m] == y[..m]
    ensures CompareBytes(x, y) == |x| - |y|
  {
    if |x| > 0 && |y| > 0 {
      var m := if |x| < |y| then |x| else |y|;
      assert x[0] == x[..m][0] == y[..m][0] == y[0];
      assert x[1..][..m - 1] == x[..m][1..] == y[..m][1..] == y[1..][..m - 1];
      CompareOfCommonPrefix(x[1..], y[1..]);
    }
  }

  /** `Compare(...) == 0` exactly when both ranges hold the same bytes. */
  lemma {:induction false} CompareIsZeroIffEqual(x: seq<byte>, y: seq<byte>)
    ensures CompareBytes(x, y) == 0 <==> x == y
  {
    if |x| > 0 && |y| > 0 && x[0] == y[0] {
      CompareIsZeroIffEqual(x[1..], y[1..]);
      assert x == [x[0]] + x[1..] && y == [y[0]] + y[1..];
    }
  }

  /** The inner scan of a differing 8-byte word: the index of its first differing byte. */
  method FirstDifferenceInWord(p1: array<byte>, x1: int, p2: array<byte>, x2: int) returns (j: int)
    requires 0 <= x1 && x1 + 8 <= p1.Length && 0 <= x2 && x2 + 8 <= p2.Length
    requires p1[x1..x1 + 8] != p2[x2..x2 + 8]
    ensures 0 <= j < 8 && p1[x1..x1 + j] == p2[x2..x2 + j] && p1[x1 + j] != p2[x2 + j]
  {
    ghost var w1, w2 := p1[x1..x1 + 8], p2[x2..x2 + 8];
    assert exists k :: 0 <= k < 8 && w1[k] != w2[k];
    j := 0;
    while p1[x1 + j] == p2[x2 + j]
      invariant 0 <= j < 8
      invariant p1[x1..x1 + j] == p2[x2..x2 + j]
      invariant exists k :: j <= k < 8 && w1[k] != w2[k]
      decreases 8 - j
    {
      assert p1[x1..x1 + j + 1] == p1[x1..x1 + j] + [p1[x1 + j]];
      assert p2[x2..x2 + j + 1] == p2[x2..x2 + j] + [p2[x2 + j]];
      j := j + 1;
    }
  }

  /**
   * `Compare`: walks both ranges eight bytes at a time; on a differing 8-byte word it
   * scans that word for the first differing byte; then compares the remaining
   * `length % 8` bytes one by one; with no difference it returns the length difference.
   * The result is the byte-by-byte comparison of the two ranges.
   */
  method Compare(bytes1: ByteArray, offset1: int, length1: int, bytes2: ByteArray, offset2: int, length2: int)
    returns (r: int)
    requires 0 <= offset1 && 0 <= length1 && offset1 + length1 <= Length(bytes1)
    requires 0 <= offset2 && 0 <= length2 && offset2 + length2 <= Length(bytes2)
    ensures r == CompareBytes(Elements(bytes1)[offset1..offset1 + length1], Elements(bytes2)[offset2..offset2 + length2])
  {
    var length := if length1 < length2 then length1 else length2;
    if length == 0 {
      CompareOfCommonPrefix(Elements(bytes1)[offset1..offset1 + length1], Elements(bytes2)[offset2..offset2 + length2]);
      return length1 - length2;
    }
    r := CompareArrays(bytes1.a, offset1, length1, bytes2.a, offset2, length2);
  }

  /** The body of `Compare` once both arrays are known to be non-empty. */
  method CompareArrays(p1: array<byte>, offset1: int, length1: int, p2: array<byte>, offset2: int, length2: int)
    returns (r: int)
    requires 0 <= offset1 && 0 <= length1 && offset1 + length1 <= p1.Length
    requires 0 <= offset2 && 0 <= length2 && offset2 + length2 <= p2.Length
    ensures r == CompareBytes(p1[offset1..offset1 + length1], p2[offset2..offset2 + length2])
  {
    var length := if length1 < length2 then length1 else length2;
    var words, tail := length / 8, length % 8;
    var d := CompareWords(p1, offset1, p2, offset2, words);
    if d < 8 * words {
      FirstDifference(p1, offset1, length1, p2, offset2, length2, d);
      return p1[offset1 + d] as int - p2[offset2 + d] as int;
    }
    r := CompareTail(p1, offset1, length1, p2, offset2, length2, d, tail);
  }

  /**
   * The byte loop of `Compare` over the last `tail` bytes of the common length, once
   * the first `d` bytes are known to agree.
   */
  method CompareTail(p1: array<byte>, offset1: int, length1: int, p2: array<byte>, offset2: int, length2: int, d: int, tail: int)
    returns (r: int)
    requires 0 <= offset1 && 0 <= length1 && offset1 + length1 <= p1.Length
    requires 0 <= offset2 && 0 <= length2 && offset2 + length2 <= p2.Length
    requires 0 <= d && 0 <= tail && d + tail == (if length1 < length2 then length1 else length2)
    requires p1[offset1..offset1 + d] == p2[offset2..offset2 + d]
    ensures r == CompareBytes(p1[offset1..offset1 + length1], p2[offset2..offset2 + length2])
  {
    var x1, x2 := offset1 + d, offset2 + d;
    var i := 0;
    while i < tail
      invariant 0 <= i <= tail
      invariant x1 == offset1 + d + i && x2 == offset2 + d + i
      invariant p1[offset1..x1] == p2[offset2..x2]
    {
      if p1[x1] != p2[x2] {
        FirstDifference(p1, offset1, length1, p2, offset2, length2, d + i);
        return p1[x1] as int - p2[x2] as int;
      }
      EqualRangesGrow(p1, offset1, p2, offset2, d + i);
      i, x1, x2 := i + 1, x1 + 1, x2 + 1;
    }
    FirstDifference(p1, offset1, length1, p2, offset2, length2, d + tail);
    return length1 - length2;
  }

  /** Equal ranges of two arrays stay equal when the next bytes agree. */
  lemma EqualRangesGrow(p1: array<byte>, o1: int, p2: array<byte>, o2: int, n: int)
    requires 0 <= o1 && 0 <= o2 && 0 <= n && o1 + n < p1.Length && o2 + n < p2.Length
    requires p1[o1..o1 + n] == p2[o2..o2 + n] && p1[o1 + n] == p2[o2 + n]
    ensures p1[o1..o1 + n + 1] == p2[o2..o2 + n + 1]
  {
    assert p1[o1..o1 + n + 1] == p1[o1..o1 + n] + [p1[o1 + n]];
    assert p2[o2..o2 + n + 1] == p2[o2..o2 + n] + [p2[o2 + n]];
  }

  /**
   * The 8-byte loop of `Compare`: the relative index of the first differing byte within
   * the first `words` 8-byte words, or `8 * words` when those words are all equal.
   */
  method CompareWords(p1: array<byte>, offset1: int, p2: array<byte>, offset2: int, words: int) returns (d: int)
    requires 0 <= words && 0 <= offset1 && offset1 + 8 * words <= p1.Length && 0 <= offset2 && offset2 + 8 * words <= p2.Length
    ensures 0 <= d <= 8 * words
    ensures p1[offset1..offset1 + d] == p2[offset2..offset2 + d]
    ensures d < 8 * words ==> p1[offset1 + d] != p2[offset2 + d]
  {
    var x1, x2 := offset1, offset2;
    var i := 0;
    while i < words
      invariant 0 <= i <= words
      invariant x1 == offset1 + 8 * i && x2 == offset2 + 8 * i
      invariant p1[offset1..x1] == p2[offset2..x2]
    {
      if p1[x1..x1 + 8] != p2[x2..x2 + 8] {
        var j := FirstDifferenceInWord(p1, x1, p2, x2);
        assert p1[offset1..x1 + j] == p1[offset1..x1] + p1[x1..x1 + j];
        assert p2[offset2..x2 + j] == p2[offset2..x2] + p2[x2..x2 + j];
        return 8 * i + j;
      }
      assert p1[offset1..x1 + 8] == p1[offset1..x1] + p1[x1..x1 + 8];
      assert p2[offset2..x2 + 8] == p2[offset2..x2] + p2[x2..x2 + 8];
      i, x1, x2 := i + 1, x1 + 8, x2 + 8;
    }
    return 8 * words;
  }

  /**
   * Two ranges that agree on their first `f` bytes compare by the bytes at `f` when
   * both go on past it and differ there, and by their lengths when `f` is their common length.
   */
  lemma FirstDifference(p1: array<byte>, o1: int, l1: int, p2: array<byte>, o2: int, l2: int, f: int)
    requires 0 <= o1 && 0 <= l1 && o1 + l1 <= p1.Length && 0 <= o2 && 0 <= l2 && o2 + l2 <= p2.Length
    requires 0 <= f <= l1 && f <= l2 && p1[o1..o1 + f] == p2[o2..o2 + f]
    requires f < l1 && f < l2 ==> p1[o1 + f] != p2[o2 + f]
    ensures f < l1 && f < l2 ==> CompareBytes(p1[o1..o1 + l1], p2[o2..o2 + l2]) == p1[o1 + f] as int - p2[o2 + f] as int
    ensures f == l1 || f == l2 ==> CompareBytes(p1[o1..o1 + l1], p2[o2..o2 + l2]) == l1 - l2
  {
    var s1, s2 := p1[o1..o1 + l1], p2[o2..o2 + l2];
    assert s1[..f] == p1[o1..o1 + f] && s2[..f] == p2[o2..o2 + f];
    if f < l1 && f < l2 {
      CompareAtFirstDifference(s1, s2, f);
    } else {
      CompareOfCommonPrefix(s1, s2);
    }
  }

  /** `UnsafeEquals(byte[], byte[])`: whole arrays; reading `Length` of a null array throws. */
  method UnsafeEqualsArrays(bytes: ByteArray, other: ByteArray) returns (r: Result<bool, Exception>)
    ensures bytes.Null? || other.Null? <==> r == Failure(NullReferenceException)
    ensures r.Success? ==> (r.value <==> Elements(bytes) == Elements(other))
  {
    if bytes.Null? || other.Null? {
      return Failure(NullReferenceException);
    }
    var c := Compare(bytes, 0, Length(bytes), other, 0, Length(other));
    CompareIsZeroIffEqual(Elements(bytes), Elements(other));
    assert Elements(bytes)[0..Length(bytes)] == Elements(bytes);
    assert Elements(other)[0..Length(other)] == Elements(other);
    return Success(c == 0);
  }

  /** `UnsafeEquals(ArraySegment, ArraySegment)`: the covered bytes are equal. */
  method UnsafeEqualsSegments(bytes: Segment, other: Segment) returns (r: bool)
    requires Valid(bytes) && Valid(other)
    ensures r <==> Segments.Bytes(bytes) == Segments.Bytes(other)
  {
    var c := Compare(bytes.arr, bytes.offset, bytes.count, other.arr, other.offset, other.count);
    CompareIsZeroIffEqual(Segments.Bytes(bytes), Segments.Bytes(other));
    return c == 0;
  }

  /** `UnsafeEquals(ArraySegment, byte[])`: the segment's bytes equal the whole array. */
  method UnsafeEqualsSegmentArray(bytes: Segment, other: ByteArray) returns (r: Result<bool, Exception>)
    requires Valid(bytes)
    ensures other.Null? <==> r == Failure(NullReferenceException)
    ensures !other.Null? ==> r.Success?
    ensures r.Success? ==> (r.value <==> Segments.Bytes(bytes) == Elements(other))
  {
    if other.Null? {
      return Failure(NullReferenceException);
    }
    var c := Compare(bytes.arr, bytes.offset, bytes.count, other, 0, Length(other));
    CompareIsZeroIffEqual(Segments.Bytes(bytes), Elements(other));
    assert Elements(other)[0..Length(other)] == Elements(other);
    return Success(c == 0);
  }
}
