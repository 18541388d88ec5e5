/**
 * The Go integer widths the package relies on: `uint32` and `uint64` as bounded
 * naturals, and the powers of two used to write out wrap-around and truncation.
 */
module GoInt {
  const MaxInt32: nat := 0x7FFF_FFFF
  const MaxUint32: nat := 0xFFFF_FFFF
  const Pow32: nat := 0x1_0000_0000
  const Pow63: nat := 0x8000_0000_0000_0000
  const Pow64: nat := 0x1_0000_0000_0000_0000

  /** A Go `uint32`. */
  type u32 = x: nat | x < Pow32

  /** A Go `uint64`. */
  type u64 = x: nat | x < Pow64
}
