/** The program's 64-bit unsigned integers. */
module Machine {
  const U64_MAX: nat := 0xFFFF_FFFF_FFFF_FFFF
  type U64 = n: nat | n <= U64_MAX
}
