/** The widths of the C++ integer types the modelled code uses (on the usual
    64-bit platforms). Dafny's integers are unbounded, so each model states
    where these bounds matter. */
module MachineWords {

  /** The range of a 32-bit `int`; a signed overflow is undefined
      behaviour. */
  const IntMin: int := -0x8000_0000
  const IntMax: int := 0x7fff_ffff

  /** `x` is a value of a 32-bit `int`. */
  predicate InInt(x: int) {
    IntMin <= x <= IntMax
  }

  /** The largest `long long`. */
  const LongLongMax: int := 0x7fff_ffff_ffff_ffff

  /** `size_t` arithmetic wraps modulo 2^64. */
  const WordModulus: nat := 0x1_0000_0000_0000_0000
}
