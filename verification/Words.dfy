/** Machine integers, and the outcome of a kernel call that may panic. */
module Words {
  const TWO_32 := 0x1_0000_0000
  const TWO_64 := 0x1_0000_0000_0000_0000

  type Byte = x: int | 0 <= x < 256
  type Word = x: int | 0 <= x < 0x1_0000_0000
  type I32 = x: int | -0x8000_0000 <= x < 0x8000_0000

  /** KERNEL_PANIC and a failed KERNEL_ASSERT never return: the caller only ever sees Returned. */
  datatype Outcome<+T> = Returned(value: T) | Panicked

  datatype Option<+T> = None | Some(value: T)

  function Pow2(n: nat): (p: nat)
    ensures p > 0
  {
    if n == 0 then 1 else 2 * Pow2(n - 1)
  }
}
