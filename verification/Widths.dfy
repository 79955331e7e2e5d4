/** Powers of two: how many values 32-bit and 64-bit unsigned integers have, and n-bit ones. */
module Widths {
  const TWO_32 := 0x1_0000_0000
  const TWO_64 := 0x1_0000_0000_0000_0000

  function Pow2(n: nat): (p: nat)
    ensures p > 0
  {
    if n == 0 then 1 else 2 * Pow2(n - 1)
  }
}
