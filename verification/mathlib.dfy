/**
  The floating-point library both engines call on their constant leaves.
  `f64` is modelled as `real`; the library functions themselves are not
  modelled, so every operation that needs one receives it through a `Lib`
  value and nothing is assumed about what it computes.
 */
module MathLib {

  /** `f64::sin`, `f64::cos`, `f64::tan`, `f64::exp`, `f64::ln`, `f64::powf`,
      and `divZero(x)`: the non-finite float (an infinity or NaN) that `x / 0.0`
      produces, which no real number represents. */
  datatype Lib = Lib(
    sin: real -> real,
    cos: real -> real,
    tan: real -> real,
    exp: real -> real,
    ln: real -> real,
    powf: (real, real) -> real,
    divZero: real -> real
  )

  /** Float division `x / y`, which never traps: a zero divisor yields the
      library's non-finite value instead of a real quotient. */
  function FloatDiv(lib: Lib, x: real, y: real): (q: real)
    ensures y != 0.0 ==> q * y == x
    ensures y == 0.0 ==> q == lib.divZero(x)
  {
    if y == 0.0 then lib.divZero(x) else x / y
  }
}
