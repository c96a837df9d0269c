/** The machine numbers the geofence checker stores. */
module Numbers {

  /** Rust `u16`: city identifiers. */
  newtype uint16 = x: int | 0 <= x < 0x1_0000

  /** Rust `u64`: user identifiers and JSON's non-negative integers. */
  newtype uint64 = x: int | 0 <= x < 0x1_0000_0000_0000_0000

  /** Rust `i64`: JSON's negative integers. */
  newtype int64 = x: int | -0x8000_0000_0000_0000 <= x < 0x8000_0000_0000_0000

  /**
   * Rust `f64`, carried as its IEEE-754 bit pattern. The checker never does
   * arithmetic on coordinates itself: it parses them, stores them and hands
   * them to the containment test, so no floating-point operation is modelled.
   */
  datatype F64 = F64(bits: bv64)

  /** `0_f64`, the y placeholder of a vertex whose y token has not been read yet. */
  const Zero: F64 := F64(0)
}
