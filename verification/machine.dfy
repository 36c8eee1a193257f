/** Sizes of the 32-bit machine. */
module Machine {
  const WORD_BITS: nat := 32

  /** Where unsigned words wrap around. */
  const WORD_MODULUS: nat := 0x1_0000_0000

  const PAGE_SIZE: nat := 4096
}
