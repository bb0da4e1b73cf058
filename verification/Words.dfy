/** Fixed-width machine words, with Go's wrap-around written out. */
module Words {

  const U32_COUNT: nat := 0x1_0000_0000
  const U64_COUNT: nat := 0x1_0000_0000_0000_0000

  type u32 = x: int | 0 <= x < 0x1_0000_0000
  type u64 = x: int | 0 <= x < 0x1_0000_0000_0000_0000

  type i64 = x: int | -0x8000_0000_0000_0000 <= x < 0x8000_0000_0000_0000

  /** `a + b` on uint32. */
  function Add32(a: u32, b: u32): u32 {
    if a + b < U32_COUNT then a + b else a + b - U32_COUNT
  }

  /** `a - b` on uint32. */
  function Sub32(a: u32, b: u32): u32 {
    if a >= b then a - b else a - b + U32_COUNT
  }

  function Min(a: int, b: int): int {
    if a <= b then a else b
  }

  function Max(a: int, b: int): int {
    if a >= b then a else b
  }
}
