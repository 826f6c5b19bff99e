/** Integers of the machine: 32 bits with and without a sign, and C's division. */
module Integers {

  const TWO_31: int := 0x8000_0000
  const TWO_32: int := 0x1_0000_0000
  const TWO_64: int := 0x1_0000_0000_0000_0000

  type Uint32 = n: int | 0 <= n < 0x1_0000_0000

  type Int32 = n: int | -0x8000_0000 <= n < 0x8000_0000

  /** Unsigned arithmetic wraps around. */
  function Wrap32(x: int): Uint32 {
    x % TWO_32
  }

  /** Conversion of an unsigned 32-bit number to a signed one. */
  function ToInt32(n: Uint32): Int32 {
    if n < TWO_31 then n else n - TWO_32
  }

  /** Division and remainder of C, which truncate towards zero. */
  function TruncDiv(a: int, b: int): int
    requires b > 0
  {
    if a >= 0 then a / b else -(-a / b)
  }

  function TruncMod(a: int, b: int): int
    requires b > 0
  {
    a - TruncDiv(a, b) * b
  }

  // Names for a product and a quotient of variables.

  function Times(a: int, b: int): int {
    a * b
  }

  function Quotient(a: nat, b: nat): nat
    requires b > 0
  {
    a / b
  }
}
