/** Fixed-width unsigned integers, the rounding helpers of inc/utils.hpp and the sizes of inc/memory.hpp. */
module Words {
  const TWO16: nat := 0x1_0000
  const TWO32: nat := 0x1_0000_0000
  const TWO64: nat := 0x1_0000_0000_0000_0000

  const PAGE_SIZE: nat := 4096
  const HUGE_PAGE_SIZE: nat := 0x20_0000

  /** The kernel's own memory, and the lower end of the user range. */
  const KERNEL_BREAK: nat := 0x40_0000

  /** No machine has more memory than this (511 GiB). */
  const MAX_MEMORY_SIZE: nat := 0x7F_C000_0000

  type u8 = x: int | 0 <= x < 0x100
  type u16 = x: int | 0 <= x < 0x1_0000
  type u32 = x: int | 0 <= x < 0x1_0000_0000
  type u64 = x: int | 0 <= x < 0x1_0000_0000_0000_0000

  /** The value left in a 64-bit register by an operation whose true result is x. */
  function Wrap64(x: int): u64 {
    x % TWO64
  }

  function Wrap32(x: int): u32 {
    x % TWO32
  }

  /** Rounding without wrap-around. */
  function RoundUp(x: nat, r: nat): nat
    requires r > 0
  {
    (x + r - 1) / r * r
  }

  function RoundDown(x: nat, r: nat): nat
    requires r > 0
  {
    x / r * r
  }

  function Min(a: int, b: int): int {
    if a < b then a else b
  }

  function Max(a: int, b: int): int {
    if a < b then b else a
  }

  /** Quotient and remainder are unique. */
  lemma QuotientIs(n: int, q: int, r: int, d: int)
    requires d > 0 && n == q * d + r && 0 <= r < d
    ensures n / d == q && n % d == r
  {
    var k := n / d;
    assert n == k * d + n % d;
    assert k < q ==> (k + 1) * d <= q * d;
    assert k > q ==> (q + 1) * d <= k * d;
  }
}
