/** Go's fixed-width unsigned integers, as bounded naturals. */
module Words {

  /** 2^32: the number of values of a Go `uint32`. */
  const Uint32Modulus: nat := 0x1_0000_0000

  /** The largest `uint32`, 2^32 - 1. */
  const MaxUint32: nat := 0xFFFF_FFFF

  type Uint32 = x: nat | x < 0x1_0000_0000
}
