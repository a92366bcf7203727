/**
 * GzipFormat/GzipHeader.cs: recognising the 10-byte gzip member header of RFC 1952
 * (section 2.3.1: ID1 ID2 CM FLG MTIME(4) XFL OS) inside a byte segment, and the
 * repurposed MTIME field ("mimetype" in the code) that carries a member-length hint.
 */
module GzipHeaders {
  import opened Binary
  import opened Wrappers
  import opened ByteMasks
  import opened Segments

  /** The OS byte values the code accepts: FAT .. Acorn RISCOS (0..13), OS X (19), unknown (255). */
  const OsFlagsAll: seq<byte> := [0, 1, 2, 3, 4, 5, 6, 7, 8, 9, 10, 11, 12, 13, 19, 255]

  /** ID1 = 0x1F, ID2 = 0x8B, CM = 8 (deflate), six unconstrained bytes, then the OS byte. */
  const HeaderMask: seq<ByteMask> :=
    [Single(31), Single(139), Single(8), AnyByte, AnyByte, AnyByte, AnyByte, AnyByte, AnyByte,
     OneOf({0, 1, 2, 3, 4, 5, 6, 7, 8, 9, 10, 11, 12, 13, 19, 255})]

  /** The mask is the one the source builds from `31`, `139`, `8`, `ByteMask.Any` and `OsFlags.All`. */
  lemma HeaderMaskIsBuiltFromTheFlags()
    ensures HeaderMask ==
      [FromInt(31), FromInt(139), FromInt(8), Any(), Any(), Any(), Any(), Any(), Any(), Values(Some(OsFlagsAll)).value]
  {
    OsMaskIsBuiltFromTheFlags();
  }

  /** The OS position's mask: `ByteMask.Values(OsFlags.All)` accepts exactly the listed OS values. */
  lemma OsMaskIsBuiltFromTheFlags()
    ensures Values(Some(OsFlagsAll)).value == HeaderMask[9]
  {
    var os := Values(Some(OsFlagsAll)).value;
    forall b: byte ensures b in os.values <==> b in HeaderMask[9].values {
      if b in HeaderMask[9].values {
        var at := if b <= 13 then b as int else if b == 19 then 14 else 15;
        assert OsFlagsAll[at] == b;
      }
    }
    assert os.values == HeaderMask[9].values;
  }

  /** `GzipHeader.Length`. */
  const HeaderLength: int := 10

  /** The signature position by position. */
  lemma HeaderMaskMeaning(b: byte)
    ensures |HeaderMask| == HeaderLength == 10
    ensures IsMatched(HeaderMask[0], b) <==> b == 0x1F
    ensures IsMatched(HeaderMask[1], b) <==> b == 0x8B
    ensures IsMatched(HeaderMask[2], b) <==> b == 0x08
    ensures forall k :: 3 <= k <= 8 ==> IsMatched(HeaderMask[k], b)
    ensures IsMatched(HeaderMask[9], b) <==> b <= 13 || b == 19 || b == 255
  {
    assert b <= 13 ==> b == OsFlagsAll[b];
    assert b == 19 ==> b == OsFlagsAll[14];
    assert b == 255 ==> b == OsFlagsAll[15];
  }

  /** A gzip header: a segment over the header's bytes in the scanned array. */
  datatype GzipHeader = GzipHeader(bytes: Segment)

  /** Byte `b` may sit at position `k` of a header. */
  predicate HeaderByteOk(k: int, b: byte) {
    if k == 0 then b == 0x1F
    else if k == 1 then b == 0x8B
    else if k == 2 then b == 0x08
    else if k == 9 then b <= 13 || b == 19 || b == 255
    else true
  }

  /**
   * Every byte of the ten starting at index `i` of `data`, from the `k`-th on, sits where the
   * header signature allows it; bytes past the end of `data` are not constrained.
   */
  predicate SignatureAt(data: seq<byte>, i: nat, k: nat)
    decreases HeaderLength - k
  {
    k >= HeaderLength || i + k >= |data| || (HeaderByteOk(k, data[i + k]) && SignatureAt(data, i, k + 1))
  }

  lemma {:induction false} SignatureAtPointwise(data: seq<byte>, i: nat, k: nat)
    ensures SignatureAt(data, i, k) <==>
      forall m :: i + k <= m < i + HeaderLength && m < |data| ==> HeaderByteOk(m - i, data[m])
    decreases HeaderLength - k
  {
    if k < HeaderLength && i + k < |data| {
      SignatureAtPointwise(data, i, k + 1);
    }
  }

  /** `w` is a (possibly complete) prefix of a header signature. */
  predicate IsHeaderPrefix(w: seq<byte>) {
    |w| <= HeaderLength && SignatureAt(w, 0, 0)
  }

  /** The header mask accepts exactly the header prefixes. */
  lemma HeaderMaskAccepts(w: seq<byte>)
    requires |w| <= HeaderLength
    ensures MaskAccepts(HeaderMask[..|w|], w) <==> IsHeaderPrefix(w)
  {
    MaskAcceptsPointwise(HeaderMask[..|w|], w);
    SignatureAtPointwise(w, 0, 0);
    forall k | 0 <= k < |w| ensures IsMatched(HeaderMask[..|w|][k], w[k]) <==> HeaderByteOk(k, w[k]) {
      HeaderMaskMeaning(w[k]);
      assert HeaderMask[..|w|][k] == HeaderMask[k];
    }
  }

  /** A full header signature starts at index `i` of `data`. */
  predicate IsHeaderAt(data: seq<byte>, i: int) {
    0 <= i && i + HeaderLength <= |data| && SignatureAt(data, i, 0)
  }

  /** `data` ends with the first `p` bytes of a header. */
  predicate EndsWithHeaderPart(data: seq<byte>, p: int) {
    0 <= p <= |data| && p <= HeaderLength && IsHeaderPrefix(data[|data| - p..])
  }

  lemma MatchesAtIsHeaderAt(data: seq<byte>, i: int)
    ensures MatchesAt(data, i, HeaderMask) <==> IsHeaderAt(data, i)
  {
    if 0 <= i && i + HeaderLength <= |data| {
      var w := data[i..i + HeaderLength];
      HeaderMaskAccepts(w);
      assert HeaderMask[..HeaderLength] == HeaderMask;
      SignatureAtPointwise(w, 0, 0);
      SignatureAtPointwise(data, i, 0);
      assert forall m :: i <= m < i + HeaderLength ==> w[m - i] == data[m];
    }
  }

  lemma SuffixMatchIsHeaderPart(data: seq<byte>, p: int)
    ensures SuffixMatchesPrefix(data, HeaderMask, p) <==> EndsWithHeaderPart(data, p)
  {
    if 0 <= p <= |data| && p <= HeaderLength {
      HeaderMaskAccepts(data[|data| - p..]);
    }
  }

  /** `IsHeader`: exactly ten bytes forming a header. */
  function IsHeader(s: Segment): (r: bool)
    requires Valid(s)
    reads ObjectsOf(s.arr)
    ensures r ==> IsPrefixFor(s)
    ensures r <==> !s.arr.Null? && |Bytes(s)| == 10 && IsHeaderAt(Bytes(s), 0)
  {
    if s.arr.Null? then false else s.count == HeaderLength && IsHeaderAt(Bytes(s), 0)
  }

  /** `IsPrefixFor`: at least ten bytes of which the first ten form a header. */
  function IsPrefixFor(s: Segment): (r: bool)
    requires Valid(s)
    reads ObjectsOf(s.arr)
    ensures r <==> !s.arr.Null? && |Bytes(s)| >= 10 && IsHeaderAt(Bytes(s), 0)
  {
    if s.arr.Null? then false else IsHeaderAt(Bytes(s), 0)
  }

  /** The smallest index from `i` on at which a header starts. */
  function FirstHeaderFrom(data: seq<byte>, i: nat): (r: Option<nat>)
    decreases |data| - i
    ensures r.Some? ==> i <= r.value && IsHeaderAt(data, r.value)
  {
    if i + HeaderLength > |data| then None
    else if IsHeaderAt(data, i) then Some(i)
    else FirstHeaderFrom(data, i + 1)
  }

  /** No header starts between `i` and the one the search finds, nor anywhere from `i` when it finds none. */
  lemma {:induction false} FirstHeaderIsFirst(data: seq<byte>, i: nat)
    ensures var r := FirstHeaderFrom(data, i);
      (r.Some? ==> forall j :: i <= j < r.value ==> !IsHeaderAt(data, j))
      && (r.None? ==> forall j :: i <= j ==> !IsHeaderAt(data, j))
    decreases |data| - i
  {
    if i + HeaderLength <= |data| && !IsHeaderAt(data, i) {
      FirstHeaderIsFirst(data, i + 1);
    }
  }

  function Shift(o: Option<nat>, d: nat): Option<nat> {
    if o.None? then None else Some(o.value + d)
  }

  lemma MatchesInSuffix(data: seq<byte>, cur: nat, j: nat)
    requires cur <= |data|
    ensures IsHeaderAt(data[cur..], j) <==> IsHeaderAt(data, cur + j)
  {
    SignatureAtPointwise(data[cur..], j, 0);
    SignatureAtPointwise(data, cur + j, 0);
    assert forall m :: cur + j <= m < |data| ==> data[cur..][m - cur] == data[m];
  }

  /** A header at index `i` is a header at the start of its own ten bytes. */
  lemma HeaderAtWindow(data: seq<byte>, i: nat)
    requires i + HeaderLength <= |data|
    ensures IsHeaderAt(data, i) <==> IsHeaderAt(data[i..i + HeaderLength], 0)
  {
    SignatureAtPointwise(data[i..i + HeaderLength], 0, 0);
    SignatureAtPointwise(data, i, 0);
    assert forall m :: i <= m < i + HeaderLength ==> data[i..i + HeaderLength][m - i] == data[m];
  }

  /** Searching the suffix from `cur` finds the same header, relative to `cur`. */
  lemma {:induction false} FirstHeaderOfSuffix(data: seq<byte>, cur: nat, j: nat)
    requires cur <= |data|
    ensures Shift(FirstHeaderFrom(data[cur..], j), cur) == FirstHeaderFrom(data, cur + j)
    decreases |data| - cur - j
  {
    MatchesInSuffix(data, cur, j);
    if j + HeaderLength <= |data| - cur && !IsHeaderAt(data, cur + j) {
      FirstHeaderOfSuffix(data, cur, j + 1);
    }
  }

  /**
   * `FindFirst`: the header at the smallest index of the segment where the signature
   * matches, as an absolute position in the array; none for a null or empty segment,
   * one shorter than a header, or one without a match.
   */
  method FindFirst(s: Segment) returns (r: Option<GzipHeader>)
    requires Valid(s)
    ensures r.None? <==> FirstHeaderFrom(Bytes(s), 0).None?
    ensures r.Some? ==> r.value.bytes == Segment(s.arr, s.offset + FirstHeaderFrom(Bytes(s), 0).value, HeaderLength)
    ensures r.Some? ==> Valid(r.value.bytes) && IsHeader(r.value.bytes)
  {
    if s.arr.Null? || s.count == 0 {
      return None;
    }
    ghost var data := Bytes(s);
    var i := 0;
    while i < s.count - HeaderLength + 1
      invariant 0 <= i <= if s.count >= HeaderLength then s.count - HeaderLength + 1 else 0
      invariant FirstHeaderFrom(data, 0) == FirstHeaderFrom(data, i)
    {
      var matched := IsMatchToMask(s, i, HeaderMask);
      MatchesAtIsHeaderAt(data, i);
      if matched {
        var h := Segment(s.arr, i + s.offset, HeaderLength);
        BytesOfSubSegment(s, i, HeaderLength);
        HeaderAtWindow(data, i);
        return Some(GzipHeader(h));
      }
      i := i + 1;
    }
    return None;
  }

  /** The greedy scan: a header at `i` is taken and the scan resumes after its ten bytes. */
  function AllHeadersFrom(data: seq<byte>, i: nat): seq<nat>
    decreases |data| - i
  {
    if i + HeaderLength > |data| then []
    else if IsHeaderAt(data, i) then [i] + AllHeadersFrom(data, i + HeaderLength)
    else AllHeadersFrom(data, i + 1)
  }

  /** Every position in `r` is at least `i` and starts a header, and consecutive headers do not overlap. */
  predicate HeadersInOrder(data: seq<byte>, i: nat, r: seq<nat>) {
    (forall k :: 0 <= k < |r| ==> i <= r[k] && IsHeaderAt(data, r[k]))
    && (forall k :: 0 <= k < |r| - 1 ==> r[k] + HeaderLength <= r[k + 1])
  }

  /** Every position the scan reports starts a header, and consecutive headers do not overlap. */
  lemma {:induction false} AllHeadersAreHeaders(data: seq<byte>, i: nat)
    ensures HeadersInOrder(data, i, AllHeadersFrom(data, i))
    decreases |data| - i
  {
    var first := FirstHeaderFrom(data, i);
    ScanStep(data, i);
    if first.Some? {
      var p := first.value;
      assert IsHeaderAt(data, p);
      AllHeadersAreHeaders(data, p + HeaderLength);
      var rest := AllHeadersFrom(data, p + HeaderLength);
      var r := [p] + rest;
      assert AllHeadersFrom(data, i) == r;
      forall k | 0 <= k < |r| ensures i <= r[k] && IsHeaderAt(data, r[k]) {
        if k > 0 {
          assert r[k] == rest[k - 1];
        }
      }
      forall k | 0 <= k < |r| - 1 ensures r[k] + HeaderLength <= r[k + 1] {
        assert r[k + 1] == rest[k];
        if k > 0 {
          assert r[k] == rest[k - 1];
        }
      }
    }
  }

  /** The scan skips no header: none before the first, none between two, none after the last. */
  lemma {:induction false} AllHeadersSkipNothing(data: seq<byte>, i: nat)
    ensures var r := AllHeadersFrom(data, i);
      (r == [] ==> forall j :: i <= j ==> !IsHeaderAt(data, j))
      && (r != [] ==> forall j :: i <= j < r[0] ==> !IsHeaderAt(data, j))
      && (r != [] ==> forall j :: r[|r| - 1] + HeaderLength <= j ==> !IsHeaderAt(data, j))
      && (forall k, j :: 0 <= k < |r| - 1 && r[k] + HeaderLength <= j < r[k + 1] ==> !IsHeaderAt(data, j))
    decreases |data| - i
  {
    var first := FirstHeaderFrom(data, i);
    ScanStep(data, i);
    FirstHeaderIsFirst(data, i);
    if first.Some? {
      var p := first.value;
      AllHeadersSkipNothing(data, p + HeaderLength);
      var rest := AllHeadersFrom(data, p + HeaderLength);
      var r := [p] + rest;
      assert AllHeadersFrom(data, i) == r;
      forall k, j | 0 <= k < |r| - 1 && r[k] + HeaderLength <= j < r[k + 1]
        ensures !IsHeaderAt(data, j)
      {
        if k > 0 {
          assert r[k] == rest[k - 1] && r[k + 1] == rest[k];
        }
      }
    }
  }

  /** What `FindAllHeaders` yields for the bytes of a segment. */
  function AllHeaders(data: seq<byte>): (r: seq<nat>)
  {
    AllHeadersFrom(data, 0)
  }

  /**
   * `FindAllHeaders`: the headers of the greedy left-to-right scan, each as an absolute
   * position; the scan resumes right after each header and stops once fewer than ten
   * bytes are left.
   */
  method FindAllHeaders(s: Segment) returns (hs: seq<GzipHeader>)
    requires Valid(s)
    ensures hs == HeadersAt(s, AllHeaders(Bytes(s)))
  {
    hs := [];
    if s.arr.Null? {
      return;
    }
    ghost var data := Bytes(s);
    ghost var found: seq<nat> := [];
    ghost var cur: nat := 0;
    var segment := s;
    while segment.count > 0
      invariant cur <= |data| && segment.arr == s.arr
      invariant segment.offset == s.offset + cur && segment.count == s.count - cur
      invariant AllHeaders(data) == found + AllHeadersFrom(data, cur)
      invariant hs == HeadersAt(s, found)
      decreases segment.count
    {
      var gzipHeader := FindNext(s, segment, data, cur);
      if gzipHeader.None? {
        return;
      }
      ghost var p: nat := gzipHeader.value.bytes.offset - s.offset;
      FoundOneMore(s, data, found, cur, p, hs, gzipHeader.value);
      hs := hs + [gzipHeader.value];
      found := found + [p];
      var newOffset := gzipHeader.value.bytes.offset + HeaderLength;
      var count := segment.count - (newOffset - segment.offset);
      if count < HeaderLength {
        ScanAtEnd(data, p + HeaderLength);
        return;
      }
      segment := Segment(s.arr, newOffset, count);
      cur := p + HeaderLength;
    }
  }

  /** One more header found at `p`: the invariants of `FindAllHeaders` carry over to the scan after it. */
  lemma FoundOneMore(s: Segment, data: seq<byte>, found: seq<nat>, cur: nat, p: nat, hs: seq<GzipHeader>, h: GzipHeader)
    requires AllHeaders(data) == found + AllHeadersFrom(data, cur)
    requires AllHeadersFrom(data, cur) == [p] + AllHeadersFrom(data, p + HeaderLength)
    requires hs == HeadersAt(s, found) && h == HeaderAt(s, p)
    ensures AllHeaders(data) == (found + [p]) + AllHeadersFrom(data, p + HeaderLength)
    ensures hs + [h] == HeadersAt(s, found + [p])
  {
    assert found + ([p] + AllHeadersFrom(data, p + HeaderLength)) == (found + [p]) + AllHeadersFrom(data, p + HeaderLength);
    assert (found + [p])[..|found|] == found;
  }

  /** Fewer than ten bytes from `i` on: the scan finds nothing more. */
  lemma ScanAtEnd(data: seq<byte>, i: nat)
    requires i + HeaderLength > |data|
    ensures AllHeadersFrom(data, i) == []
  {
  }

  /** The header over the ten bytes at position `p` of `s`. */
  function HeaderAt(s: Segment, p: int): GzipHeader {
    GzipHeader(Segment(s.arr, s.offset + p, HeaderLength))
  }

  /** The headers at the positions `ps` of `s`, in order. */
  function HeadersAt(s: Segment, ps: seq<nat>): (r: seq<GzipHeader>)
    ensures |r| == |ps| && forall k :: 0 <= k < |ps| ==> r[k] == HeaderAt(s, ps[k])
  {
    if ps == [] then [] else HeadersAt(s, ps[..|ps| - 1]) + [HeaderAt(s, ps[|ps| - 1])]
  }

  /** The scan from `cur`: the first header found there, followed by the scan after it. */
  lemma {:induction false} ScanStep(data: seq<byte>, cur: nat)
    ensures FirstHeaderFrom(data, cur).None? ==> AllHeadersFrom(data, cur) == []
    ensures FirstHeaderFrom(data, cur).Some? ==> var p := FirstHeaderFrom(data, cur).value;
      AllHeadersFrom(data, cur) == [p] + AllHeadersFrom(data, p + HeaderLength)
    decreases |data| - cur
  {
    if cur + HeaderLength <= |data| && !IsHeaderAt(data, cur) {
      ScanStep(data, cur + 1);
    }
  }

  /**
   * One round of `FindAllHeaders`: `FindFirst` on the rest of the segment, which starts
   * `cur` bytes into `s`, in terms of the scan over the bytes of `s`.
   */
  method FindNext(s: Segment, segment: Segment, ghost data: seq<byte>, ghost cur: nat) returns (h: Option<GzipHeader>)
    requires Valid(s) && !s.arr.Null? && data == Bytes(s)
    requires cur <= s.count && segment.arr == s.arr
    requires segment.offset == s.offset + cur && segment.count == s.count - cur
    ensures h.None? ==> AllHeadersFrom(data, cur) == []
    ensures h.Some? ==> var p := h.value.bytes.offset - s.offset;
      cur <= p && p + HeaderLength <= |data|
      && h.value == HeaderAt(s, p)
      && AllHeadersFrom(data, cur) == [p] + AllHeadersFrom(data, p + HeaderLength)
  {
    BytesOfSuffix(s, segment, cur);
    h := FindFirst(segment);
    ScanOfSuffix(data, cur);
  }

  /** The scan from `cur`, in terms of the first header of the suffix from `cur`. */
  lemma ScanOfSuffix(data: seq<byte>, cur: nat)
    requires cur <= |data|
    ensures var first := FirstHeaderFrom(data[cur..], 0);
      (first.None? ==> AllHeadersFrom(data, cur) == [])
      && (first.Some? ==>
            cur + first.value + HeaderLength <= |data|
            && AllHeadersFrom(data, cur) == [cur + first.value] + AllHeadersFrom(data, cur + first.value + HeaderLength))
  {
    FirstHeaderOfSuffix(data, cur, 0);
    ScanStep(data, cur);
  }

  /** The longest header prefix of at most `p` bytes that the data ends with (0 when none). */
  function PartialHeaderFrom(data: seq<byte>, p: nat): (r: nat)
    requires p <= |data| && p <= HeaderLength
    ensures r <= p
    ensures r > 0 ==> EndsWithHeaderPart(data, r)
    ensures forall q :: r < q <= p ==> !EndsWithHeaderPart(data, q)
  {
    if p == 0 then 0
    else if EndsWithHeaderPart(data, p) then p
    else PartialHeaderFrom(data, p - 1)
  }

  /** The longest proper header prefix (at most nine bytes) the data ends with. */
  function PartialHeaderLength(data: seq<byte>): (r: nat)
    ensures r < HeaderLength && r <= |data|
  {
    PartialHeaderFrom(data, if |data| < HeaderLength - 1 then |data| else HeaderLength - 1)
  }

  /**
   * `GetOffsetOfMatchedPartFromEnd`: the array index where the longest proper header
   * prefix at the end of the segment starts, or -1 when the segment does not end with one.
   */
  method GetOffsetOfMatchedPartFromEnd(s: Segment) returns (r: int)
    requires Valid(s)
    ensures s.arr.Null? || PartialHeaderLength(Bytes(s)) == 0 ==> r == -1
    ensures !s.arr.Null? && PartialHeaderLength(Bytes(s)) > 0 ==> r == s.offset + s.count - PartialHeaderLength(Bytes(s))
  {
    if s.arr.Null? {
      return -1;
    }
    ghost var data := Bytes(s);
    var biggestPartSize := if s.count < HeaderLength - 1 then s.count else HeaderLength - 1;
    var partSize := biggestPartSize;
    while partSize > 0
      invariant 0 <= partSize <= biggestPartSize
      invariant PartialHeaderLength(data) == PartialHeaderFrom(data, partSize)
    {
      var matched := IsMatchedPartiallyFromEnd(s, HeaderMask, partSize);
      SuffixMatchIsHeaderPart(data, partSize);
      if matched == Success(true) {
        return s.offset + s.count - partSize;
      }
      partSize := partSize - 1;
    }
    return -1;
  }

  /** `AfterHeader`: the segment without its first ten bytes. */
  function AfterHeader(s: Segment): (r: Result<Segment, Exception>)
    requires Valid(s)
    reads ObjectsOf(s.arr)
    ensures !s.arr.Null? && HeaderLength <= s.count ==> r.Success? && Valid(r.value) && Bytes(r.value) == Bytes(s)[HeaderLength..]
    ensures s.count < HeaderLength ==> r.Failure?
  {
    ShiftOffsetRight(s, HeaderLength)
  }

  /** A header built by the scanner: ten bytes inside its array, or the default header. */
  predicate WellFormed(h: GzipHeader) {
    Valid(h.bytes) && (h.bytes.arr.Null? || h.bytes.count == HeaderLength)
  }

  /** `Position`: the array index of the header's first byte. */
  function Position(h: GzipHeader): (r: int)
    requires WellFormed(h)
    reads ObjectsOf(h.bytes.arr)
    ensures !h.bytes.arr.Null? ==> 0 <= r < Length(h.bytes.arr) && Elements(h.bytes.arr)[r] == Bytes(h.bytes)[0]
  {
    h.bytes.offset
  }

  /** `EndPosition`: the array index of the header's last byte, `Position + Length - 1`. */
  function EndPosition(h: GzipHeader): (r: int)
    requires WellFormed(h)
    reads ObjectsOf(h.bytes.arr)
    ensures !h.bytes.arr.Null? ==>
      (r == Position(h) + HeaderLength - 1 && r < Length(h.bytes.arr) && Elements(h.bytes.arr)[r] == Bytes(h.bytes)[HeaderLength - 1])
  {
    h.bytes.offset + h.bytes.count - 1
  }

  /** `MimetypeBytes`: the four MTIME bytes, header bytes 4..7; the default segment for a default header. */
  function MimetypeBytes(h: GzipHeader): (r: Segment)
    requires WellFormed(h)
    reads ObjectsOf(h.bytes.arr)
    ensures Valid(r) && r.arr == h.bytes.arr
    ensures !h.bytes.arr.Null? ==> Bytes(r) == Bytes(h.bytes)[4..8]
    ensures h.bytes.arr.Null? ==> r == Default
  {
    if h.bytes.arr.Null? then Default
    else
      BytesOfSubSegment(h.bytes, 4, 4);
      Segment(h.bytes.arr, h.bytes.offset + 4, 4)
  }

  /** `GetMimetypeAsInt`: the MTIME bytes as a little-endian signed 32-bit value; 0 for a default header. */
  function GetMimetypeAsInt(h: GzipHeader): (r: int)
    requires WellFormed(h)
    reads ObjectsOf(h.bytes.arr)
    ensures IsInt32(r)
    ensures h.bytes.arr.Null? ==> r == 0
    ensures !h.bytes.arr.Null? ==> Int32Bytes(r) == Bytes(h.bytes)[4..8]
  {
    var mimetypes := MimetypeBytes(h);
    if mimetypes.arr.Null? then 0
    else
      Int32BytesOfValue(Bytes(mimetypes));
      ToInt32(Bytes(mimetypes))
  }

  /**
   * `SetMimetypeBytes`: writes four bytes over the MTIME field in the shared array and
   * changes nothing else; a default header, a null or a wrong-length argument throw.
   */
  method SetMimetypeBytes(h: GzipHeader, mimetype: ByteArray) returns (r: Result<(), Exception>)
    requires WellFormed(h)
    modifies ObjectsOf(h.bytes.arr)
    ensures h.bytes.arr.Null? ==> r == Failure(InvalidOperationException)
    ensures !h.bytes.arr.Null? && mimetype.Null? ==> r == Failure(ArgumentNullException)
    ensures !h.bytes.arr.Null? && !mimetype.Null? && Length(mimetype) != 4 ==> r == Failure(ArgumentException)
    ensures r.Failure? ==> unchanged(ObjectsOf(h.bytes.arr))
    ensures r.Success? <==> !h.bytes.arr.Null? && !mimetype.Null? && Length(mimetype) == 4
    ensures r.Success? ==>
      (Elements(h.bytes.arr) == old(Elements(h.bytes.arr))[..h.bytes.offset + 4] + old(Elements(mimetype)) + old(Elements(h.bytes.arr))[h.bytes.offset + 8..])
  {
    if h.bytes.arr.Null? {
      return Failure(InvalidOperationException);
    }
    if mimetype.Null? {
      return Failure(ArgumentNullException);
    }
    if Length(mimetype) != 4 {
      return Failure(ArgumentException);
    }
    var target, source, at := h.bytes.arr.a, mimetype, h.bytes.offset + 4;
    ghost var before, written := target[..], Elements(source);
    forall i | 0 <= i < 4 {
      target[at + i] := source.a[i];
    }
    assert target[..] == before[..at] + written + before[at + 4..];
    return Success(());
  }

  /** Writing a 32-bit value with `SetMimetypeBytes` and reading it back gives the value: the size-hint round trip. */
  lemma MimetypeRoundTrip(h: GzipHeader, value: int)
    requires WellFormed(h) && !h.bytes.arr.Null? && IsInt32(value)
    requires Bytes(h.bytes)[4..8] == Int32Bytes(value)
    ensures GetMimetypeAsInt(h) == value
  {
    Int32RoundTrip(value);
  }

  /** `b` lists the positions of `a` counted `k` bytes later. */
  predicate Shifted(a: seq<nat>, b: seq<nat>, k: int) {
    |a| == |b| && forall j :: 0 <= j < |a| ==> a[j] + k == b[j]
  }

  /** Scanning the bytes from `k` on finds the headers the scan of the whole data finds from `k`, `k` bytes earlier. */
  lemma {:induction false} ScanOfDrop(data: seq<byte>, k: nat, i: nat)
    requires k <= |data|
    ensures Shifted(AllHeadersFrom(data[k..], i), AllHeadersFrom(data, k + i), k)
    decreases |data| - k - i
  {
    if i + HeaderLength <= |data| - k {
      MatchesInSuffix(data, k, i);
      if IsHeaderAt(data, k + i) {
        ScanOfDrop(data, k, i + HeaderLength);
        var a, b := AllHeadersFrom(data[k..], i + HeaderLength), AllHeadersFrom(data, k + i + HeaderLength);
        assert AllHeadersFrom(data[k..], i) == [i] + a;
        assert AllHeadersFrom(data, k + i) == [k + i] + b;
      } else {
        ScanOfDrop(data, k, i + 1);
      }
    }
  }

  /** Resuming the scan at any header it found gives the rest of its result from that header on. */
  lemma {:induction false} ScanFromMember(data: seq<byte>, i: nat, j: nat)
    requires j < |AllHeadersFrom(data, i)|
    ensures AllHeadersFrom(data, AllHeadersFrom(data, i)[j]) == AllHeadersFrom(data, i)[j..]
    decreases |data| - i
  {
    var r := AllHeadersFrom(data, i);
    ScanStep(data, i);
    var p := FirstHeaderFrom(data, i).value;
    var rest := AllHeadersFrom(data, p + HeaderLength);
    if j > 0 {
      ScanFromMember(data, p + HeaderLength, j - 1);
      assert r[j] == rest[j - 1] && r[j..] == rest[j - 1..];
    }
  }

  /** The headers at positions `a` of `t` are those at positions `b` of `s` when `t` starts `k` bytes into `s`. */
  lemma HeadersAtShifted(s: Segment, t: Segment, a: seq<nat>, b: seq<nat>, k: int)
    requires t.arr == s.arr && t.offset == s.offset + k && Shifted(a, b, k)
    ensures HeadersAt(t, a) == HeadersAt(s, b)
  {
  }

  /** Whether the data ends with a header prefix of `p` bytes depends only on its last `p` bytes. */
  lemma {:induction false} PartialOfDrop(data: seq<byte>, k: nat, p: nat)
    requires k <= |data| && p <= |data| - k && p <= HeaderLength
    ensures PartialHeaderFrom(data[k..], p) == PartialHeaderFrom(data, p)
  {
    if p > 0 {
      var d := data[k..];
      assert d[|d| - p..] == data[|data| - p..];
      assert EndsWithHeaderPart(d, p) == EndsWithHeaderPart(data, p);
      PartialOfDrop(data, k, p - 1);
    }
  }
}
