/** 32-bit unsigned words; arithmetic on them is written out modulo WORD where it wraps. */
module MachineWords {
  const WORD: int := 0x1_0000_0000

  type uint32 = n: int | 0 <= n < WORD
}
