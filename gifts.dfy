/** Values shared by the gift-monitoring loop: Go's fixed-width integers and the gift record. */
module Gifts {

  const Two32: int := 0x1_0000_0000
  const Two64: int := 0x1_0000_0000_0000_0000

  newtype Int32 = x: int | -0x8000_0000 <= x < 0x8000_0000
  newtype Int64 = x: int | -0x8000_0000_0000_0000 <= x < 0x8000_0000_0000_0000

  datatype Option<T> = None | Some(value: T)

  /** One gift of the catalogue (a `StarGiftObj`); `total == 0` means unlimited supply. */
  datatype Item = Item(id: Int64, stars: Int64, remains: Int32, total: Int32, canUpgrade: bool)

  /** Go's two's-complement wrap-around of a signed 64-bit result. */
  function Wrap64(x: int): (r: Int64)
    ensures (r as int - x) % Two64 == 0
    ensures -0x8000_0000_0000_0000 <= x < 0x8000_0000_0000_0000 ==> r as int == x
  {
    ((x + 0x8000_0000_0000_0000) % Two64 - 0x8000_0000_0000_0000) as Int64
  }

  /** `c++` on an int64: never a fixed point, even when it wraps. */
  function Inc64(c: Int64): (r: Int64)
    ensures r != c
    ensures c as int < 0x7fff_ffff_ffff_ffff ==> r as int == c as int + 1
    ensures c as int == 0x7fff_ffff_ffff_ffff ==> r as int == -0x8000_0000_0000_0000
  {
    Wrap64(c as int + 1)
  }
}
