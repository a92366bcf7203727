/** Bytes and the fixed-width integers of the C# code: `byte`, 32-bit and 64-bit two's complement, little-endian encodings. */
module Binary {

  newtype byte = x: int | 0 <= x < 256

  const TwoPow32: int := 0x1_0000_0000
  const TwoPow64: int := 0x1_0000_0000_0000_0000

  predicate IsInt32(x: int) { -0x8000_0000 <= x < 0x8000_0000 }
  predicate IsInt64(x: int) { -0x8000_0000_0000_0000 <= x < 0x8000_0000_0000_0000 }

  /** Adding a multiple of 2^32 does not change a remainder modulo 2^32. */
  lemma ModAddMultiple32(x: int, m: int)
    ensures (x + m * TwoPow32) % TwoPow32 == x % TwoPow32
  {
  }

  /** Adding a multiple of 2^64 does not change a remainder modulo 2^64. */
  lemma ModAddMultiple64(x: int, m: int)
    ensures (x + m * TwoPow64) % TwoPow64 == x % TwoPow64
  {
  }

  /** The value an unchecked C# `int` operation leaves behind: `x` reduced into the 32-bit range. */
  function WrapInt32(x: int): (r: int)
    ensures IsInt32(r)
    ensures r % TwoPow32 == x % TwoPow32
    ensures IsInt32(x) ==> r == x
  {
    var m := x % TwoPow32;
    if m >= 0x8000_0000 then m - TwoPow32 else m
  }

  /** The value an unchecked C# `long` operation leaves behind. */
  function WrapInt64(x: int): (r: int)
    ensures IsInt64(r)
    ensures r % TwoPow64 == x % TwoPow64
    ensures IsInt64(x) ==> r == x
  {
    var m := x % TwoPow64;
    if m >= 0x8000_0000_0000_0000 then m - TwoPow64 else m
  }

  /** Wrapping an intermediate result does not change a wrapped product: `(int)((int)(a) * k)` is `(int)(a * k)`. */
  lemma WrapInt32OfProduct(a: int, k: int)
    ensures WrapInt32(WrapInt32(a) * k) == WrapInt32(a * k)
  {
    var w := WrapInt32(a);
    var q := (w - a) / TwoPow32;
    ModAddMultiple32(a, q);
    assert w == a + q * TwoPow32;
    assert w * k == a * k + (q * k) * TwoPow32;
    ModAddMultiple32(a * k, q * k);
  }

  /** Same as WrapInt32OfProduct for 64-bit arithmetic. */
  lemma WrapInt64OfProduct(a: int, k: int)
    ensures WrapInt64(WrapInt64(a) * k) == WrapInt64(a * k)
  {
    var w := WrapInt64(a);
    var q := (w - a) / TwoPow64;
    ModAddMultiple64(a, q);
    assert w == a + q * TwoPow64;
    assert w * k == a * k + (q * k) * TwoPow64;
    ModAddMultiple64(a * k, q * k);
  }

  /** `Math.Min`. */
  function Min(a: int, b: int): (r: int)
    ensures r <= a && r <= b && (r == a || r == b)
  {
    if a <= b then a else b
  }

  /** 256 to the power `n`: the number of values `n` bytes can hold. */
  function Pow256(n: nat): (r: nat)
    ensures r >= 1
  {
    if n == 0 then 1 else 256 * Pow256(n - 1)
  }

  /** The unsigned value of bytes in little-endian order (least significant byte first). */
  function LittleEndianValue(b: seq<byte>): (r: nat)
    ensures r < Pow256(|b|)
  {
    if b == [] then 0 else b[0] as nat + 256 * LittleEndianValue(b[1..])
  }

  /** The `n` low bytes of `u`, least significant first. */
  function LittleEndianBytes(u: nat, n: nat): (r: seq<byte>)
    ensures |r| == n
  {
    if n == 0 then [] else [(u % 256) as byte] + LittleEndianBytes(u / 256, n - 1)
  }

  lemma {:induction false} LittleEndianRoundTrip(u: nat, n: nat)
    requires u < Pow256(n)
    ensures LittleEndianValue(LittleEndianBytes(u, n)) == u
  {
    if n > 0 {
      LittleEndianRoundTrip(u / 256, n - 1);
      assert LittleEndianBytes(u, n)[1..] == LittleEndianBytes(u / 256, n - 1);
    }
  }

  lemma {:induction false} LittleEndianBytesOfValue(b: seq<byte>)
    ensures LittleEndianBytes(LittleEndianValue(b), |b|) == b
  {
    if b != [] {
      var v := LittleEndianValue(b[1..]);
      assert (b[0] as nat + 256 * v) % 256 == b[0] as nat;
      assert (b[0] as nat + 256 * v) / 256 == v;
      LittleEndianBytesOfValue(b[1..]);
    }
  }

  /** `BitConverter.ToInt32` on a little-endian platform: four bytes read as a signed 32-bit value. */
  function ToInt32(b: seq<byte>): (r: int)
    requires |b| == 4
    ensures IsInt32(r)
    ensures r % TwoPow32 == LittleEndianValue(b)
  {
    WrapInt32(LittleEndianValue(b))
  }

  /** `BitConverter.ToInt64` on a little-endian platform. */
  function ToInt64(b: seq<byte>): (r: int)
    requires |b| == 8
    ensures IsInt64(r)
    ensures r % TwoPow64 == LittleEndianValue(b)
  {
    WrapInt64(LittleEndianValue(b))
  }

  /** `BitConverter.GetBytes(long)` on a little-endian platform. */
  function Int64Bytes(x: int): (r: seq<byte>)
    requires IsInt64(x)
    ensures |r| == 8
  {
    LittleEndianBytes(x % TwoPow64, 8)
  }

  /** `BitConverter.GetBytes(int)` on a little-endian platform. */
  function Int32Bytes(x: int): (r: seq<byte>)
    requires IsInt32(x)
    ensures |r| == 4
  {
    LittleEndianBytes(x % TwoPow32, 4)
  }

  lemma Int64RoundTrip(x: int)
    requires IsInt64(x)
    ensures ToInt64(Int64Bytes(x)) == x
  {
    assert Pow256(8) == TwoPow64;
    LittleEndianRoundTrip(x % TwoPow64, 8);
  }

  lemma Int32RoundTrip(x: int)
    requires IsInt32(x)
    ensures ToInt32(Int32Bytes(x)) == x
  {
    assert Pow256(4) == TwoPow32;
    LittleEndianRoundTrip(x % TwoPow32, 4);
  }

  lemma Int32BytesOfValue(b: seq<byte>)
    requires |b| == 4
    ensures Int32Bytes(ToInt32(b)) == b
  {
    assert Pow256(4) == TwoPow32;
    LittleEndianBytesOfValue(b);
  }
}
