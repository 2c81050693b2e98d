/** Unsigned machine integers the program stores, modelled as bounded
    mathematical integers. */
module MachineIntegers {

  /** 2^64. */
  const U64Modulus := 0x1_0000_0000_0000_0000

  /** A `u64`. */
  type U64 = x: int | 0 <= x < U64Modulus
}
