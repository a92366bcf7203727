/** Helpers/NumbersToBytesHelpers.cs: sizes in kibibytes and mebibytes, in unchecked C# arithmetic. */
module Sizes {
  import opened Binary

  /** `long.Kilobytes()`. */
  function LongKilobytes(value: int): (r: int)
    requires IsInt64(value)
    ensures IsInt64(r) && r % TwoPow64 == (value * 1024) % TwoPow64
    ensures IsInt64(value * 1024) ==> r == value * 1024
  {
    WrapInt64(value * 1024)
  }

  /** `long.Megabytes()`: `value*1024*1024`, each product wrapped. */
  function LongMegabytes(value: int): (r: int)
    requires IsInt64(value)
    ensures IsInt64(r) && r % TwoPow64 == (value * 1048576) % TwoPow64
  {
    WrapInt64OfProduct(value * 1024, 1024);
    WrapInt64(WrapInt64(value * 1024) * 1024)
  }

  /** `int.Kilobytes()`. */
  function Kilobytes(value: int): (r: int)
    requires IsInt32(value)
    ensures IsInt32(r) && r % TwoPow32 == (value * 1024) % TwoPow32
    ensures IsInt32(value * 1024) ==> r == value * 1024
  {
    WrapInt32(value * 1024)
  }

  /** `int.Megabytes()`. */
  function Megabytes(value: int): (r: int)
    requires IsInt32(value)
    ensures IsInt32(r) && r % TwoPow32 == (value * 1048576) % TwoPow32
  {
    WrapInt32OfProduct(value * 1024, 1024);
    WrapInt32(WrapInt32(value * 1024) * 1024)
  }

  /** The two wrapped products equal one product by 1024·1024 reduced once. */
  lemma MegabytesIsOneProduct(value: int)
    requires IsInt32(value)
    ensures Megabytes(value) == WrapInt32(value * 1048576)
    ensures IsInt32(value * 1048576) ==> Megabytes(value) == value * 1048576
    ensures Megabytes(value) == Kilobytes(Kilobytes(value))
  {
    WrapInt32OfProduct(value * 1024, 1024);
  }

  lemma LongMegabytesIsOneProduct(value: int)
    requires IsInt64(value)
    ensures LongMegabytes(value) == WrapInt64(value * 1048576)
    ensures IsInt64(value * 1048576) ==> LongMegabytes(value) == value * 1048576
    ensures LongMegabytes(value) == LongKilobytes(LongKilobytes(value))
  {
    WrapInt64OfProduct(value * 1024, 1024);
  }

  /** The limit `128.Megabytes()` used by the settings is 134217728 and does not wrap. */
  lemma Megabytes128()
    ensures Megabytes(128) == 134217728
  {
    MegabytesIsOneProduct(128);
  }
}
