/** Widths of the machine's unsigned integers. */
module Machine {
  const U32_LIMIT: nat := 0x1_0000_0000
  const SIZE_LIMIT: nat := 0x1_0000_0000_0000_0000   // std::size_t and std::uintptr_t
}
