/** Fixed-width machine integers used by the batch package, and its reserved constants. */
module Words {

  const TWO64: int := 0x1_0000_0000_0000_0000

  /** Go's uint64. */
  type u64 = x: int | 0 <= x < 0x1_0000_0000_0000_0000

  /** Go's byte. */
  type u8 = x: int | 0 <= x < 0x100

  /** ^uint64(0), the all-ones word. */
  const MaxU64: u64 := 0xFFFF_FFFF_FFFF_FFFF

  /** Largest value of Go's (64-bit) int, hence the largest len() of a Go map. */
  const MaxInt: int := 0x7FFF_FFFF_FFFF_FFFF

  /** nilSentinel: the row id meaning "no value" in a single-value column. */
  const NilSentinel: u64 := MaxU64

  /** Exists: the field id of the existence bitmap (the same word as nilSentinel). */
  const Exists: u64 := NilSentinel
}
