/** Fixed-width integer types of the C code, written out explicitly. */
module CTypes {

  const U32_LIMIT: int := 0x1_0000_0000

  /** `uint32_t`. */
  type U32 = x: int | 0 <= x < U32_LIMIT

  /** `(uint32_t)-1`, the sentinel several C functions use for "no value". */
  const U32_MAX: U32 := 0xFFFF_FFFF

  /** The conversion of a C `int` to `uint32_t` (two's complement wrap). */
  function ToU32(x: int): (r: U32)
    ensures 0 <= x < U32_LIMIT ==> r == x
    ensures r % U32_LIMIT == x % U32_LIMIT
  {
    x % U32_LIMIT
  }
}
