/** Rust's fixed-width integer types and the `as` casts between them. */
module Ints {

  const I64_MIN: int := -0x8000_0000_0000_0000
  const I64_MAX: int := 0x7fff_ffff_ffff_ffff
  const U64_MAX: int := 0xffff_ffff_ffff_ffff
  const TWO_TO_64: int := 0x1_0000_0000_0000_0000
  const TWO_TO_32: int := 0x1_0000_0000

  type I64 = x: int | I64_MIN <= x <= I64_MAX
  type U64 = x: int | 0 <= x <= U64_MAX
  type I32 = x: int | -0x8000_0000 <= x < 0x8000_0000
  type U32 = x: int | 0 <= x < TWO_TO_32

  /** Two's-complement wrap of a mathematical integer into `i64`: what an
      unchecked `i64` multiplication leaves behind. */
  function WrapI64(x: int): (r: I64)
    ensures (r - x) % TWO_TO_64 == 0
    ensures I64_MIN <= x <= I64_MAX ==> r == x
  {
    (x - I64_MIN) % TWO_TO_64 + I64_MIN
  }

  /** `x as i64` for `x: u64`. */
  function U64AsI64(x: U64): (r: I64)
    ensures x <= I64_MAX ==> r == x
    ensures x > I64_MAX ==> r < 0 && r == x - TWO_TO_64
  {
    if x <= I64_MAX then x else x - TWO_TO_64
  }

  /** `x as u64` for `x: i64`. */
  function I64AsU64(x: I64): (r: U64)
    ensures x >= 0 ==> r == x
    ensures x < 0 ==> r > I64_MAX && U64AsI64(r) == x
  {
    if x >= 0 then x else x + TWO_TO_64
  }

  /** `x as u32` for `x: i64`: the low 32 bits. */
  function I64AsU32(x: I64): (r: U32)
    ensures 0 <= x < TWO_TO_32 ==> r == x
    ensures (r - x) % TWO_TO_32 == 0
  {
    x % TWO_TO_32
  }
}
