/** Bytes, machine word sizes and powers of two. */
module Words {
  type Byte = b: int | 0 <= b < 0x100

  const WORD32 := 0x1_0000_0000
  const WORD64 := 0x1_0000_0000_0000_0000

  function Pow2(n: nat): (p: nat)
    ensures p > 0
  {
    if n == 0 then 1 else 2 * Pow2(n - 1)
  }
}
