/** Sizes of the machine: 64-bit words wrap at U64, and memory is paged. */
module Machine {
  const U64: nat := 0x1_0000_0000_0000_0000
  const PAGE_SIZE: nat := 4096
}
