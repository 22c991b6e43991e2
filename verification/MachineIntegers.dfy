/** The unsigned integer widths of the code, which wraps at them. */
module MachineIntegers {
  const UINT32_RANGE: nat := 0x1_0000_0000
  const UINT64_RANGE: nat := 0x1_0000_0000_0000_0000
}
