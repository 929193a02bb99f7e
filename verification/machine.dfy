/**
  Fixed-width integer types of the Rust source, as ranges of Dafny's unbounded
  integers. Wrap-around is never implicit: where the source can overflow, the
  member that models it says what happens.
 */
module Machine {

  const U16_LIMIT: int := 0x1_0000
  const U64_LIMIT: int := 0x1_0000_0000_0000_0000

  newtype byte = x: int | 0 <= x < 0x100

  type u16 = x: int | 0 <= x < U16_LIMIT

  type u64 = x: int | 0 <= x < U64_LIMIT

  /** `usize` on the 64-bit targets rource is built for. */
  type usize = x: int | 0 <= x < U64_LIMIT

  type i64 = x: int | -0x8000_0000_0000_0000 <= x < 0x8000_0000_0000_0000

  const USIZE_MAX: usize := U64_LIMIT - 1
}
