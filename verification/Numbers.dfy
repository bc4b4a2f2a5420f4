/** Powers of two that bound the C integer types. */
module Numbers {
  const TWO_TO_29: nat := 0x2000_0000
  const TWO_TO_32: nat := 0x1_0000_0000
  const TWO_TO_61: nat := 0x2000_0000_0000_0000
  const TWO_TO_63: nat := 0x8000_0000_0000_0000
  const TWO_TO_64: nat := 0x1_0000_0000_0000_0000
}
