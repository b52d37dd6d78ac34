/**
 * Machine integer widths of the adapter. Inode numbers, block addresses and
 * sizes are Rust `u64`; reply counts are `u32`; file offsets arrive as `i64`.
 */
module Types {

  const U64_LIMIT: int := 0x1_0000_0000_0000_0000
  const U32_LIMIT: int := 0x1_0000_0000
  const I64_MIN: int := -0x8000_0000_0000_0000

  type u64 = x: int | 0 <= x < 0x1_0000_0000_0000_0000
  type u32 = x: int | 0 <= x < 0x1_0000_0000
  type i64 = x: int | -0x8000_0000_0000_0000 <= x < 0x8000_0000_0000_0000
  type byte = bv8

  /** Rust's `x as u64` on an `i64`: the same 64 bits read as unsigned. */
  function I64AsU64(x: i64): (r: u64)
    ensures x >= 0 ==> r == x
    ensures x < 0 ==> r == x + U64_LIMIT
  {
    x % U64_LIMIT
  }

  /** Rust's `n as u32` on a `usize`: keeps the low 32 bits. */
  function UsizeAsU32(n: nat): (r: u32)
    ensures n < U32_LIMIT ==> r == n
  {
    n % U32_LIMIT
  }

}
