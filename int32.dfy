/**
 Signed 32-bit integers as Rust's `i32` behaves in a release build, where
 overflow checks are off and `+`, `-` and `+=` wrap around in two's complement.
 */
module Int32 {

  const Modulus: int := 0x1_0000_0000
  const Min: int := -0x8000_0000
  const Max: int := 0x7fff_ffff

  type i32 = x: int | Min <= x <= Max

  /** The i32 with the low 32 bits of `x`, for `x` at most one whole 2^32 out
      of range, as the sum or difference of two i32 values is. */
  function Wrap(x: int): i32
    requires Min - Modulus <= x <= Max + Modulus
  {
    if x > Max then x - Modulus else if x < Min then x + Modulus else x
  }

  /** `a + b` on i32 (`wrapping_add`). */
  function Add(a: i32, b: i32): i32 {
    Wrap(a + b)
  }

  /** `a - b` on i32 (`wrapping_sub`). */
  function Sub(a: i32, b: i32): i32 {
    Wrap(a - b)
  }

  /** Subtracting what was added gives the original value back, wrap-around or not. */
  lemma AddSubInverse(a: i32, b: i32)
    ensures Sub(Add(a, b), b) == a
    ensures Add(Sub(a, b), b) == a
  {
  }

  /** `c - (c - x) == x` on i32, wrap-around or not. */
  lemma SubSubCancel(c: i32, x: i32)
    ensures Sub(c, Sub(c, x)) == x
  {
  }
}
