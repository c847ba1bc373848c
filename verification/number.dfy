/**
  The numeric type of the current engine (src/number/number.rs): a number is
  either a real or a complex pair, with case-dispatched arithmetic. The
  representation is not normalised, so `Real(x)` and `Complex(x, 0.0)` are
  different values; `SameValue` compares the complex numbers they denote.

  A Rust `panic!` becomes the `Panic` outcome of a `Result`.
 */
module Numbers {
  import opened MathLib

  datatype Number = Real(x: real) | Complex(re: real, im: real)

  /** Outcome of an operation that may panic. Failure-compatible, so `:-`
      propagates a panic the way Rust unwinds out of the caller. */
  datatype Result<+T> = Ok(value: T) | Panic {
    predicate IsFailure() {
      Panic?
    }

    function PropagateFailure<U>(): Result<U>
      requires Panic?
    {
      Panic
    }

    function Extract(): T
      requires Ok?
    {
      value
    }
  }

  // ---------------------------------------------------------------------
  // Queries and accessors
  // ---------------------------------------------------------------------

  /** `real()`: the real part; a real number is its own real part. */
  function RealPart(n: Number): real {
    match n
    case Real(x) => x
    case Complex(r, _) => r
  }

  /** `imag()`: the imaginary part, 0.0 for a real number. */
  function ImagPart(n: Number): real {
    match n
    case Complex(_, i) => i
    case Real(_) => 0.0
  }

  /** The two numbers denote the same complex value, whatever their tags. */
  predicate SameValue(a: Number, b: Number) {
    RealPart(a) == RealPart(b) && ImagPart(a) == ImagPart(b)
  }

  /** `is_zero`: the number denotes 0, in either representation. */
  function IsZero(n: Number): (b: bool)
    ensures b <==> RealPart(n) == 0.0 && ImagPart(n) == 0.0
    ensures b <==> n == Real(0.0) || n == Complex(0.0, 0.0)
  {
    match n
    case Real(x) => x == 0.0
    case Complex(x, z) => x == 0.0 && z == 0.0
  }

  /** `real_eq(v)`: only a real number can equal the float `v`. */
  function RealEq(n: Number, v: real): (b: bool)
    ensures b <==> n == Real(v)
    ensures n.Complex? ==> !b
  {
    match n
    case Real(x) => x == v
    case Complex(_, _) => false
  }

  /** `complex_eq(v1, v2)`: only a complex number can equal the pair. */
  function ComplexEq(n: Number, v1: real, v2: real): (b: bool)
    ensures b <==> n == Complex(v1, v2)
    ensures n.Real? ==> !b
  {
    match n
    case Complex(x, z) => x == v1 && z == v2
    case Real(_) => false
  }

  /** The free constructor `imag(x)`: the purely imaginary number `x`i. */
  function Imag(x: real): (n: Number)
    ensures RealPart(n) == 0.0 && ImagPart(n) == x
    ensures n.Complex?
  {
    Complex(0.0, x)
  }

  // ---------------------------------------------------------------------
  // Transcendental dispatch: only the real case is implemented
  // ---------------------------------------------------------------------

  function Sin(lib: Lib, n: Number): (r: Number)
    ensures n.Real? ==> r == Real(lib.sin(n.x))
    ensures n.Complex? ==> r == Real(0.0)
  {
    match n
    case Real(x) => Real(lib.sin(x))
    case Complex(_, _) => Real(0.0)
  }

  function Cos(lib: Lib, n: Number): (r: Number)
    ensures n.Real? ==> r == Real(lib.cos(n.x))
    ensures n.Complex? ==> r == Real(0.0)
  {
    match n
    case Real(x) => Real(lib.cos(x))
    case Complex(_, _) => Real(0.0)
  }

  function Ln(lib: Lib, n: Number): (r: Number)
    ensures n.Real? ==> r == Real(lib.ln(n.x))
    ensures n.Complex? ==> r == Real(0.0)
  {
    match n
    case Real(x) => Real(lib.ln(x))
    case Complex(_, _) => Real(0.0)
  }

  function Exp(lib: Lib, n: Number): (r: Number)
    ensures n.Real? ==> r == Real(lib.exp(n.x))
    ensures n.Complex? ==> r == Real(0.0)
  {
    match n
    case Real(x) => Real(lib.exp(x))
    case Complex(_, _) => Real(0.0)
  }

  /** `tan`: for a real argument it is `sin / cos` through Number division,
      so it panics exactly where the library's cosine is 0.0. */
  function Tan(lib: Lib, n: Number): (r: Result<Number>)
    ensures n.Complex? ==> r == Ok(Real(0.0))
    ensures n.Real? ==> (r.Panic? <==> lib.cos(n.x) == 0.0)
    ensures n.Real? && r.Ok? ==> r.value == Real(lib.sin(n.x) / lib.cos(n.x))
  {
    match n
    case Real(_) => Div(Sin(lib, n), Cos(lib, n))
    case Complex(_, _) => Ok(Real(0.0))
  }

  // ---------------------------------------------------------------------
  // Powers and the branch cut for even roots of negative reals
  // ---------------------------------------------------------------------

  /** 2 to the power `k`. */
  function Pow2(k: nat): (n: nat)
    ensures n >= 1
  {
    if k == 0 then 1 else 2 * Pow2(k - 1)
  }

  /** `n` is 2^k for some k. */
  predicate IsPowerOfTwo(n: int)
    decreases n
  {
    n >= 1 && (n == 1 || (n % 2 == 0 && IsPowerOfTwo(n / 2)))
  }

  /** The exponent test of `pow`: the base-2 logarithm of `p` is a negative
      whole number, i.e. 1/p is a power of two of at least 2. */
  predicate IsInverseDyadic(p: real) {
    p > 0.0 &&
    var q := 1.0 / p;
    q == q.Floor as real && q.Floor >= 2 && IsPowerOfTwo(q.Floor)
  }

  lemma {:induction false} PowerOfTwoMeans(n: int)
    ensures IsPowerOfTwo(n) <==> exists k: nat :: n == Pow2(k)
    decreases if n < 0 then 0 else n
  {
    if IsPowerOfTwo(n) {
      if n == 1 {
        assert n == Pow2(0);
      } else {
        PowerOfTwoMeans(n / 2);
        var k: nat :| n / 2 == Pow2(k);
        assert n == Pow2(k + 1);
      }
    }
    if exists k: nat :: n == Pow2(k) {
      var k: nat :| n == Pow2(k);
      if k > 0 {
        assert n / 2 == Pow2(k - 1);
        PowerOfTwoMeans(n / 2);
      }
    }
  }

  lemma Pow2AtLeastTwo(k: nat)
    requires k >= 1
    ensures Pow2(k) >= 2
  {
  }

  /** The branch-cut test holds exactly for p = 1/2^k with k >= 1. */
  lemma InverseDyadicMeans(p: real)
    ensures IsInverseDyadic(p) <==> exists k: nat :: k >= 1 && p * (Pow2(k) as real) == 1.0
  {
    if IsInverseDyadic(p) {
      var n := (1.0 / p).Floor;
      PowerOfTwoMeans(n);
      var k: nat :| n == Pow2(k);
      assert k >= 1;
      assert p * (Pow2(k) as real) == 1.0;
    }
    if exists k: nat :: k >= 1 && p * (Pow2(k) as real) == 1.0 {
      var k: nat :| k >= 1 && p * (Pow2(k) as real) == 1.0;
      Pow2AtLeastTwo(k);
      var q := Pow2(k) as real;
      assert p > 0.0;
      assert 1.0 / p == q;
      assert q.Floor == Pow2(k);
      PowerOfTwoMeans(Pow2(k));
    }
  }

  /** `pow`: real to a real power, except that a negative base raised to
      1/2, 1/4, 1/8, ... lands on the imaginary axis. Complex operands are
      not implemented and give 0.0. */
  function Pow(lib: Lib, a: Number, b: Number): (r: Number)
  {
    match (a, b)
    case (Real(base), Real(power)) =>
      if base < 0.0 && IsInverseDyadic(power) then Complex(0.0, lib.powf(-base, power))
      else Real(lib.powf(base, power))
    case _ => Real(0.0)
  }

  lemma PowBranchCut(lib: Lib, base: real, power: real)
    ensures var r := Pow(lib, Real(base), Real(power));
      && (r.Complex? <==> base < 0.0 && exists k: nat :: k >= 1 && power * (Pow2(k) as real) == 1.0)
      && (r.Complex? ==> r == Complex(0.0, lib.powf(if base < 0.0 then -base else base, power)))
      && (r.Real? ==> r == Real(lib.powf(base, power)))
  {
    InverseDyadicMeans(power);
  }

  lemma PowOfComplex(lib: Lib, a: Number, b: Number)
    requires a.Complex? || b.Complex?
    ensures Pow(lib, a, b) == Real(0.0)
  {
  }

  /** `powf`: raise to a float power, through `pow` for a real base. */
  function Powf(lib: Lib, a: Number, power: real): (r: Number)
    ensures a.Real? ==> r == Pow(lib, a, Real(power))
    ensures a.Complex? ==> r == Real(0.0)
  {
    match a
    case Real(_) => Pow(lib, a, Real(power))
    case Complex(_, _) => Real(0.0)
  }

  // ---------------------------------------------------------------------
  // Conjugate and reciprocal
  // ---------------------------------------------------------------------

  function Conjugate(n: Number): (r: Number)
    ensures RealPart(r) == RealPart(n) && ImagPart(r) == -ImagPart(n)
    ensures r.Real? <==> n.Real?
  {
    match n
    case Real(x) => Real(x)
    case Complex(z, i) => Complex(z, -i)
  }

  lemma ConjugateInvolution(n: Number)
    ensures Conjugate(Conjugate(n)) == n
    ensures n.Real? ==> Conjugate(n) == n
  {
  }

  /** Conjugation distributes over multiplication. */
  lemma ConjugateOfProduct(a: Number, b: Number)
    ensures Conjugate(Mul(a, b)) == Mul(Conjugate(a), Conjugate(b))
  {
  }

  /** `reciprocal`: the complex case panics on a zero modulus; the real case
      is float division, which gives a non-finite value at 0.0. */
  function Reciprocal(lib: Lib, n: Number): (r: Result<Number>)
    ensures r.Panic? <==> n.Complex? && IsZero(n)
    ensures r.Ok? ==> (r.value.Real? <==> n.Real?)
    ensures r.Ok? && !IsZero(n) ==> SameValue(Mul(n, r.value), Real(1.0))
    ensures n == Real(0.0) ==> r == Ok(Real(lib.divZero(1.0)))
  {
    match n
    case Real(x) => Ok(Real(FloatDiv(lib, 1.0, x)))
    case Complex(x, y) =>
      var d := Square(x) + Square(y);
      ModulusZero(x, y);
      if d <= 0.0 then Panic
      else
        ProductOfReciprocal(x, y, d);
        Ok(Complex(x / d, -(y / d)))
  }

  /** `x * y`, named so that facts about a product can be stated without
      the solver rewriting them away. */
  function Product(x: real, y: real): real {
    x * y
  }

  /** `x * x`. */
  function Square(x: real): real {
    Product(x, x)
  }

  /** Two non-zero factors of the same sign have a positive product. */
  lemma ProductPositive(x: real, y: real)
    requires (x > 0.0 && y > 0.0) || (x < 0.0 && y < 0.0)
    ensures Product(x, y) > 0.0
  {
    if x < 0.0 {
      assert x * y == (-x) * (-y);
    }
  }

  /** A square is never negative, and is zero only for zero. */
  lemma SquareZero(x: real)
    ensures !(Square(x) < 0.0)
    ensures Square(x) > 0.0 <==> x != 0.0
  {
    if x != 0.0 {
      ProductPositive(x, x);
    }
  }

  /** A squared modulus is never negative, and is zero only at the origin. */
  lemma ModulusZero(x: real, y: real)
    ensures !(Square(x) + Square(y) < 0.0)
    ensures Square(x) + Square(y) == 0.0 <==> x == 0.0 && y == 0.0
  {
    SquareZero(x);
    SquareZero(y);
  }

  lemma ProductOfReciprocal(x: real, y: real, d: real)
    requires d == x * x + y * y && d > 0.0
    ensures x * (x / d) - y * -(y / d) == 1.0
    ensures x * -(y / d) + y * (x / d) == 0.0
  {
    assert x * (x / d) == (x * x) / d;
    assert y * (y / d) == (y * y) / d;
  }

  // ---------------------------------------------------------------------
  // Arithmetic
  // ---------------------------------------------------------------------

  /** `+`: componentwise on the denoted complex values; real only when both
      operands are real. */
  function Add(a: Number, b: Number): (r: Number)
    ensures RealPart(r) == RealPart(a) + RealPart(b)
    ensures ImagPart(r) == ImagPart(a) + ImagPart(b)
    ensures r.Real? <==> a.Real? && b.Real?
  {
    match (a, b)
    case (Real(x), Real(y)) => Real(x + y)
    case (Real(x), Complex(z, i)) => Complex(x + z, i)
    case (Complex(z, i), Real(x)) => Complex(x + z, i)
    case (Complex(z1, i1), Complex(z2, i2)) => Complex(z1 + z2, i1 + i2)
  }

  lemma AddCommutes(a: Number, b: Number)
    ensures Add(a, b) == Add(b, a)
  {
  }

  lemma AddAssociates(a: Number, b: Number, c: Number)
    ensures Add(Add(a, b), c) == Add(a, Add(b, c))
  {
  }

  /** `-` exactly as the source writes it: with one real and one complex
      operand the result is `Complex(x - z, i)` in both argument orders, where
      `x` is the real operand and `z + i`i the complex one. */
  function SubAsWritten(a: Number, b: Number): (r: Number)
    ensures a.Real? && b.Real? ==> r == Real(a.x - b.x)
    ensures a.Complex? && b.Complex? ==> r == Complex(a.re - b.re, a.im - b.im)
  {
    match (a, b)
    case (Real(x), Real(y)) => Real(x - y)
    case (Real(x), Complex(z, i)) => Complex(x - z, i)
    case (Complex(z, i), Real(x)) => Complex(x - z, i)
    case (Complex(z1, i1), Complex(z2, i2)) => Complex(z1 - z2, i1 - i2)
  }

  /** The mixed cases keep the complex operand's imaginary part unnegated in
      both orders, and subtract the complex real part from the real operand
      even when the complex number is on the left. */
  lemma SubAsWrittenMixed(x: real, z: real, i: real)
    ensures SubAsWritten(Real(x), Complex(z, i)) == Complex(x - z, i)
    ensures SubAsWritten(Complex(z, i), Real(x)) == Complex(x - z, i)
  {
  }

  /** As written, subtraction does not undo addition: (0 - i) + i is 2i. */
  lemma SubAsWrittenIsNotInverseOfAdd()
    ensures var d := SubAsWritten(Real(0.0), Complex(0.0, 1.0));
      !SameValue(Add(d, Complex(0.0, 1.0)), Real(0.0))
    ensures !SameValue(SubAsWritten(Complex(1.0, 0.0), Real(0.0)), Complex(1.0, 0.0))
  {
  }

  /** `-` as evidently intended: componentwise on the denoted values. */
  function Sub(a: Number, b: Number): (r: Number)
    ensures RealPart(r) == RealPart(a) - RealPart(b)
    ensures ImagPart(r) == ImagPart(a) - ImagPart(b)
    ensures r.Real? <==> a.Real? && b.Real?
  {
    match (a, b)
    case (Real(x), Real(y)) => Real(x - y)
    case (Real(x), Complex(z, i)) => Complex(x - z, -i)
    case (Complex(z, i), Real(x)) => Complex(z - x, i)
    case (Complex(z1, i1), Complex(z2, i2)) => Complex(z1 - z2, i1 - i2)
  }

  /** Corrected subtraction undoes addition, in either argument order. */
  lemma SubUndoesAdd(a: Number, b: Number)
    ensures SameValue(Add(Sub(a, b), b), a)
    ensures Sub(Add(a, b), b) == Sub(Add(b, a), b)
    ensures SameValue(Sub(Add(a, b), b), a)
  {
  }

  /** `*`: the complex product (xu - yv, xv + yu); a real factor scales
      both parts of a complex one. */
  function Mul(a: Number, b: Number): (r: Number)
    ensures RealPart(r) == RealPart(a) * RealPart(b) - ImagPart(a) * ImagPart(b)
    ensures ImagPart(r) == RealPart(a) * ImagPart(b) + ImagPart(a) * RealPart(b)
    ensures r.Real? <==> a.Real? && b.Real?
  {
    match (a, b)
    case (Real(x), Real(y)) => Real(x * y)
    case (Real(x), Complex(u, v)) => Complex(x * u, x * v)
    case (Complex(x, y), Real(u)) => Complex(x * u, y * u)
    case (Complex(x, y), Complex(u, v)) => Complex(x * u - y * v, x * v + y * u)
  }

  lemma MulCommutes(a: Number, b: Number)
    ensures Mul(a, b) == Mul(b, a)
  {
  }

  /** `/` exactly as the source writes it. A zero denominator panics; the
      complex-by-real case negates the imaginary part of the quotient. */
  function DivAsWritten(a: Number, b: Number): (r: Result<Number>)
    ensures r.Panic? <==> IsZero(b)
    ensures a.Real? && b.Real? && r.Ok? ==> r.value == Real(a.x / b.x)
  {
    match (a, b)
    case (Real(x), Real(y)) =>
      if y == 0.0 then Panic else Ok(Real(x / y))
    case (Real(u), Complex(x, y)) =>
      var d := Square(x) + Square(y);
      ModulusZero(x, y);
      if d == 0.0 then Panic else Ok(Complex((u * x) / d, -(u * y) / d))
    case (Complex(u, v), Real(x)) =>
      var d := Square(x);
      SquareZero(x);
      if d == 0.0 then Panic else Ok(Complex((u * x) / d, -(v * x) / d))
    case (Complex(u, v), Complex(x, y)) =>
      var d := Square(x) + Square(y);
      ModulusZero(x, y);
      if d == 0.0 then Panic else Ok(Complex((u * x + v * y) / d, (v * x - u * y) / d))
  }

  /** As written, i / 1 is -i, so division does not undo multiplication. */
  lemma DivAsWrittenNegatesImaginary()
    ensures DivAsWritten(Complex(0.0, 1.0), Real(1.0)) == Ok(Complex(0.0, -1.0))
    ensures !SameValue(Mul(DivAsWritten(Complex(0.0, 1.0), Real(1.0)).value, Real(1.0)), Complex(0.0, 1.0))
  {
  }

  /** `/` as evidently intended: panics exactly on a zero denominator, and
      otherwise multiplying the quotient back by the denominator gives the
      numerator. */
  function Div(a: Number, b: Number): (r: Result<Number>)
    ensures r.Panic? <==> IsZero(b)
    ensures r.Ok? ==> (r.value.Real? <==> a.Real? && b.Real?)
  {
    match (a, b)
    case (Real(x), Real(y)) =>
      if y == 0.0 then Panic else Ok(Real(x / y))
    case (Real(u), Complex(x, y)) =>
      var d := Square(x) + Square(y);
      ModulusZero(x, y);
      if d == 0.0 then Panic else Ok(Complex((u * x) / d, -(u * y) / d))
    case (Complex(u, v), Real(x)) =>
      var d := Square(x);
      SquareZero(x);
      if d == 0.0 then Panic else Ok(Complex((u * x) / d, (v * x) / d))
    case (Complex(u, v), Complex(x, y)) =>
      var d := Square(x) + Square(y);
      ModulusZero(x, y);
      if d == 0.0 then Panic else Ok(Complex((u * x + v * y) / d, (v * x - u * y) / d))
  }

  /** ((u + vi)(x - yi) / d)(x + yi) = u + vi when d = x^2 + y^2 > 0. */
  lemma QuotientTimesDenominator(u: real, v: real, x: real, y: real, d: real)
    requires d == Square(x) + Square(y) && d != 0.0
    ensures ((u * x + v * y) / d) * x - ((v * x - u * y) / d) * y == u
    ensures ((u * x + v * y) / d) * y + ((v * x - u * y) / d) * x == v
    ensures (u * x) / d == (u * x + 0.0 * y) / d && -(u * y) / d == (0.0 * x - u * y) / d
  {
    var p := u * x + v * y;
    var q := v * x - u * y;
    assert d == x * x + y * y;
    assert (p / d) * x - (q / d) * y == (p * x - q * y) / d;
    assert p * x - q * y == u * d;
    assert (p / d) * y + (q / d) * x == (p * y + q * x) / d;
    assert p * y + q * x == v * d;
  }

  /** Corrected division undoes multiplication: the quotient times the
      denominator denotes the numerator, whenever the denominator is non-zero. */
  lemma DivUndoesMul(a: Number, b: Number)
    requires !IsZero(b)
    ensures Div(a, b).Ok?
    ensures SameValue(Mul(Div(a, b).value, b), a)
  {
    match b
    case Real(y) =>
      DivByRealUndoesMul(a, y);
    case Complex(x, y) =>
      DivByComplexUndoesMul(a, x, y);
  }

  lemma DivByRealUndoesMul(a: Number, x: real)
    requires x != 0.0
    ensures Div(a, Real(x)).Ok?
    ensures SameValue(Mul(Div(a, Real(x)).value, Real(x)), a)
  {
    SquareZero(x);
    match a
    case Real(u) =>
      assert (u / x) * x == u;
    case Complex(u, v) =>
      QuotientTimesDenominator(u, v, x, 0.0, Square(x));
  }

  lemma DivByComplexUndoesMul(a: Number, x: real, y: real)
    requires x != 0.0 || y != 0.0
    ensures Div(a, Complex(x, y)).Ok?
    ensures SameValue(Mul(Div(a, Complex(x, y)).value, Complex(x, y)), a)
  {
    ModulusZero(x, y);
    var d := Square(x) + Square(y);
    match a
    case Real(u) =>
      assert Div(a, Complex(x, y)).value.re == (u * x) / d;
      assert Div(a, Complex(x, y)).value.im == -(u * y) / d;
      QuotientTimesDenominator(u, 0.0, x, y, d);
    case Complex(u, v) =>
      assert Div(a, Complex(x, y)).value.re == (u * x + v * y) / d;
      assert Div(a, Complex(x, y)).value.im == (v * x - u * y) / d;
      QuotientTimesDenominator(u, v, x, y, d);
  }

  /** The corrected division only differs from the written one in the
      complex-by-real case. */
  lemma DivAgreesWithWritten(a: Number, b: Number)
    requires !(a.Complex? && b.Real?)
    ensures Div(a, b) == DivAsWritten(a, b)
  {
  }

  /** `1 / z` then `* z` is exactly one for every non-zero complex `z`. */
  lemma ReciprocalRoundTrip(z: Number)
    requires z.Complex? && !IsZero(z)
    ensures Div(Real(1.0), z).Ok?
    ensures SameValue(Mul(Div(Real(1.0), z).value, z), Real(1.0))
  {
    DivUndoesMul(Real(1.0), z);
  }

  /** Unary `-`: negates a real, but every complex number becomes 0.0. */
  function Neg(a: Number): (r: Number)
    ensures r.Real?
    ensures a.Real? ==> IsZero(Add(a, r))
    ensures a.Real? ==> r == Real(-a.x)
    ensures a.Complex? ==> r == Real(0.0)
  {
    match a
    case Real(x) => Real(-x)
    case Complex(_, _) => Real(0.0)
  }
}
