/** Fixed-width unsigned integers of the two implementations. Arithmetic on these
    newtypes carries Dafny's range checks, so every `+` and `*` the programs perform
    becomes an explicit no-overflow proof obligation. */
module MachineInts {
  const U32_MAX: int := 0xFFFF_FFFF
  const USIZE_MAX: int := 0xFFFF_FFFF_FFFF_FFFF

  /** C `unsigned int` and Rust `u32` (32 bits). */
  newtype u32 = x: int | 0 <= x <= U32_MAX

  /** Rust `usize` on a 64-bit target. */
  newtype usize = x: int | 0 <= x <= USIZE_MAX
}
