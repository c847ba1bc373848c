/**
  What a tree of the current engine means. No such definition exists in the
  program; it is the reference against which the evaluator and the
  constructor library are judged. A tree denotes the `Number` that
  evaluating it under a binding of every variable would produce, with the
  same `Number` operations the evaluator folds with:

  - `Crash`: some division inside it panics;
  - `Unknown`: it holds a node the evaluator cannot fold (the hyperbolic and
    inverse trigonometric nodes, `Factorial`, `Gamma`, `NaN`).

  A crash anywhere wins over an unknown part, because the evaluator folds
  both children of a node before it looks at either.
 */
module Semantics {
  import opened MathLib
  import N = Numbers
  import opened Exprs

  datatype Outcome = Value(n: N.Number) | Crash | Unknown

  /** Which `-` and `/` a fold uses: the operators exactly as the source
      writes them, or as evidently intended. All other operations are the
      same in both. */
  datatype Arith = AsWritten | Corrected

  type Env = char -> N.Number

  /** `env` with `s` bound to `v`. */
  function Bind(env: Env, s: char, v: N.Number): (r: Env)
    ensures r(s) == v
    ensures forall c :: c != s ==> r(c) == env(c)
  {
    c => if c == s then v else env(c)
  }

  /** The outcome of a node whose operands did not both produce values. */
  function Fail(a: Outcome, b: Outcome): Outcome {
    if a.Crash? || b.Crash? then Crash else Unknown
  }

  /** The one-child nodes the evaluator folds: exactly those `has_var`
      descends into. */
  predicate Folds(x: Expr) {
    x.Neg? || x.Sin? || x.Cos? || x.Exp? || x.Ln?
  }

  /** The folding node `x` over the new child `a`. */
  function With1(x: Expr, a: Expr): (r: Expr)
    requires Folds(x)
    ensures Folds(r) && r.e == a
    ensures r.Neg? == x.Neg? && r.Sin? == x.Sin? && r.Cos? == x.Cos? && r.Exp? == x.Exp?
  {
    match x
    case Neg(_) => Neg(a)
    case Sin(_) => Sin(a)
    case Cos(_) => Cos(a)
    case Exp(_) => Exp(a)
    case Ln(_) => Ln(a)
  }

  /** The two-child node `x` over the new children `a` and `b`. */
  function With2(x: Expr, a: Expr, b: Expr): (r: Expr)
    requires IsBinary(x)
    ensures IsBinary(r) && r.l == a && r.r == b
    ensures r.Add? == x.Add? && r.Sub? == x.Sub? && r.Mul? == x.Mul? && r.Div? == x.Div?
  {
    match x
    case Add(_, _) => Add(a, b)
    case Sub(_, _) => Sub(a, b)
    case Mul(_, _) => Mul(a, b)
    case Div(_, _) => Div(a, b)
    case Pow(_, _) => Pow(a, b)
  }

  /** The `Number` operation a folding one-child node names. */
  function Op1(lib: Lib, x: Expr, a: N.Number): (r: N.Number)
    requires Folds(x)
  {
    match x
    case Neg(_) => N.Neg(a)
    case Sin(_) => N.Sin(lib, a)
    case Cos(_) => N.Cos(lib, a)
    case Exp(_) => N.Exp(lib, a)
    case Ln(_) => N.Ln(lib, a)
  }

  /** The `Number` operation a two-child node names, in the arithmetic
      `ar`; only a division can panic, and it does so exactly on a zero
      divisor. */
  function Op2(lib: Lib, ar: Arith, x: Expr, a: N.Number, b: N.Number): (r: N.Result<N.Number>)
    requires IsBinary(x)
    ensures r.Panic? <==> x.Div? && N.IsZero(b)
  {
    match x
    case Add(_, _) => N.Ok(N.Add(a, b))
    case Sub(_, _) => N.Ok(if ar.AsWritten? then N.SubAsWritten(a, b) else N.Sub(a, b))
    case Mul(_, _) => N.Ok(N.Mul(a, b))
    case Div(_, _) => if ar.AsWritten? then N.DivAsWritten(a, b) else N.Div(a, b)
    case Pow(_, _) => N.Ok(N.Pow(lib, a, b))
  }

  /** The two arithmetics part only on a subtraction with one real and one
      complex operand and on a complex number divided by a real one. */
  lemma Op2Agrees(lib: Lib, x: Expr, a: N.Number, b: N.Number)
    requires IsBinary(x)
    requires !(x.Sub? && a.Real? != b.Real?) && !(x.Div? && a.Complex? && b.Real?)
    ensures Op2(lib, AsWritten, x, a, b) == Op2(lib, Corrected, x, a, b)
  {
  }

  /** ... and on those they do part: `i - 1` and `1 - i` are both `1 + i`
      as written, ... */
  lemma Op2SubDiffers(lib: Lib, x: Expr)
    requires x.Sub?
    ensures Op2(lib, AsWritten, x, N.Complex(0.0, 1.0), N.Real(1.0)) == N.Ok(N.Complex(1.0, 1.0))
    ensures Op2(lib, Corrected, x, N.Complex(0.0, 1.0), N.Real(1.0)) == N.Ok(N.Complex(-1.0, 1.0))
    ensures Op2(lib, AsWritten, x, N.Real(1.0), N.Complex(0.0, 1.0)) == N.Ok(N.Complex(1.0, 1.0))
    ensures Op2(lib, Corrected, x, N.Real(1.0), N.Complex(0.0, 1.0)) == N.Ok(N.Complex(1.0, -1.0))
  {
    var i, one := N.Complex(0.0, 1.0), N.Real(1.0);
    assert Op2(lib, AsWritten, x, i, one) == N.Ok(N.SubAsWritten(i, one));
    assert Op2(lib, AsWritten, x, one, i) == N.Ok(N.SubAsWritten(one, i));
    assert Op2(lib, Corrected, x, i, one) == N.Ok(N.Sub(i, one));
    assert Op2(lib, Corrected, x, one, i) == N.Ok(N.Sub(one, i));
    N.SubAsWrittenMixed(1.0, 0.0, 1.0);
  }

  /** ... and `yi / 1` is `-yi` as written. */
  lemma Op2DivDiffers(lib: Lib, x: Expr, y: real)
    requires x.Div?
    ensures Op2(lib, AsWritten, x, N.Complex(0.0, y), N.Real(1.0)) == N.Ok(N.Complex(0.0, -y))
    ensures Op2(lib, Corrected, x, N.Complex(0.0, y), N.Real(1.0)) == N.Ok(N.Complex(0.0, y))
  {
    var i, one := N.Complex(0.0, y), N.Real(1.0);
    assert Op2(lib, AsWritten, x, i, one) == N.DivAsWritten(i, one);
    assert Op2(lib, Corrected, x, i, one) == N.Div(i, one);
    assert N.Square(1.0) == 1.0;
  }

  /** The meaning of `x` under `env`, computed with the arithmetic `ar`. */
  function Denote(lib: Lib, ar: Arith, x: Expr, env: Env): Outcome {
    if x.Const? then Value(x.n)
    else if x.Var? then Value(env(x.name))
    else if Folds(x) then
      var a := Denote(lib, ar, x.e, env);
      if a.Value? then Value(Op1(lib, x, a.n)) else a
    else if IsBinary(x) then
      var a, b := Denote(lib, ar, x.l, env), Denote(lib, ar, x.r, env);
      if a.Value? && b.Value? then
        (match Op2(lib, ar, x, a.n, b.n) case Ok(q) => Value(q) case Panic => Crash)
      else Fail(a, b)
    else Unknown
  }

  /** The nodes the evaluator knows how to fold, all the way down. */
  predicate Foldable(x: Expr) {
    match x
    case Const(_) => true
    case Var(_) => true
    case Neg(i) => Foldable(i)
    case Sin(i) => Foldable(i)
    case Cos(i) => Foldable(i)
    case Exp(i) => Foldable(i)
    case Ln(i) => Foldable(i)
    case Add(l, r) => Foldable(l) && Foldable(r)
    case Sub(l, r) => Foldable(l) && Foldable(r)
    case Mul(l, r) => Foldable(l) && Foldable(r)
    case Div(l, r) => Foldable(l) && Foldable(r)
    case Pow(l, r) => Foldable(l) && Foldable(r)
    case _ => false
  }

  /** The tree has a division node. */
  predicate HasDiv(x: Expr) {
    x.Div? ||
    (IsBinary(x) && (HasDiv(x.l) || HasDiv(x.r))) ||
    (IsUnary(x) && HasDiv(x.e))
  }

  /** The tree has a subtraction or a division node. */
  predicate HasSubOrDiv(x: Expr) {
    x.Sub? || x.Div? ||
    (IsBinary(x) && (HasSubOrDiv(x.l) || HasSubOrDiv(x.r))) ||
    (IsUnary(x) && HasSubOrDiv(x.e))
  }

  /** A tree is `Unknown` exactly when it is not foldable and no division in
      it crashes; it crashes only through a division. */
  lemma {:induction false} DenoteKinds(lib: Lib, ar: Arith, x: Expr, env: Env)
    ensures Foldable(x) ==> !Denote(lib, ar, x, env).Unknown?
    ensures !Foldable(x) && Denote(lib, ar, x, env).Value? ==> false
    ensures Denote(lib, ar, x, env).Crash? ==> HasDiv(x)
  {
    if IsBinary(x) {
      DenoteKinds(lib, ar, x.l, env);
      DenoteKinds(lib, ar, x.r, env);
    } else if Folds(x) {
      DenoteKinds(lib, ar, x.e, env);
    }
  }

  /** `has_var` is sound for the meaning: a tree in which it finds no `s`
      means the same whatever `s` is bound to. */
  lemma {:induction false} HasVarSound(lib: Lib, ar: Arith, x: Expr, env: Env, s: char, w: N.Number)
    requires !HasVar(x, s)
    ensures Denote(lib, ar, x, Bind(env, s, w)) == Denote(lib, ar, x, env)
  {
    if IsBinary(x) {
      HasVarSound(lib, ar, x.l, env, s, w);
      HasVarSound(lib, ar, x.r, env, s, w);
    } else if Folds(x) {
      HasVarSound(lib, ar, x.e, env, s, w);
    }
  }

  // ---------------------------------------------------------------------
  // What the constructor library builds
  // ---------------------------------------------------------------------

  /** `con(v)` means `v` under every binding and has no variable. */
  lemma ConMeans(lib: Lib, ar: Arith, v: real, env: Env)
    ensures Denote(lib, ar, Con(v), env) == Value(N.Real(v))
    ensures forall s :: !HasVar(Con(v), s)
  {
  }

  /** `powf(e, f)` means the `Number` power of the value of `e`: for a real
      value `t` that is `powf(t, f)`, unless `t` is negative and `f` is
      1/2, 1/4, ..., and a complex value gives 0.0. */
  lemma PowfMeans(lib: Lib, ar: Arith, x: Expr, f: real, env: Env, n: N.Number)
    requires Denote(lib, ar, x, env) == Value(n)
    ensures Denote(lib, ar, Powf(x, f), env) == Value(N.Pow(lib, n, N.Real(f)))
    ensures n.Real? && (n.x >= 0.0 || !N.IsInverseDyadic(f)) ==>
      Denote(lib, ar, Powf(x, f), env) == Value(N.Real(lib.powf(n.x, f)))
    ensures n.Complex? ==> Denote(lib, ar, Powf(x, f), env) == Value(N.Real(0.0))
  {
    var y := Powf(x, f);
    assert IsBinary(y) && !Folds(y) && y.l == x;
    assert Denote(lib, ar, y.r, env) == Value(N.Real(f));
    assert Op2(lib, ar, y, n, N.Real(f)) == N.Ok(N.Pow(lib, n, N.Real(f)));
  }

  /** `square(e)` and `cube(e)` of a real value `t` mean `powf(t, 2)` and
      `powf(t, 3)`, negative `t` included: neither 2 nor 3 is 1/2^k. */
  lemma SquareCubeMean(lib: Lib, ar: Arith, x: Expr, env: Env, t: real)
    requires Denote(lib, ar, x, env) == Value(N.Real(t))
    ensures Denote(lib, ar, Square(x), env) == Value(N.Real(lib.powf(t, 2.0)))
    ensures Denote(lib, ar, Cube(x), env) == Value(N.Real(lib.powf(t, 3.0)))
  {
    assert !N.IsInverseDyadic(2.0) by {
      assert 1.0 / 2.0 == 0.5;
    }
    assert !N.IsInverseDyadic(3.0) by {
      assert 0.0 < 1.0 / 3.0 < 1.0;
    }
    PowfMeans(lib, ar, x, 2.0, env, N.Real(t));
    PowfMeans(lib, ar, x, 3.0, env, N.Real(t));
  }

  /** `e + v` and `e * v` mean the `Number` sum and product with `v`. */
  lemma PlusTimesConstMean(lib: Lib, x: Expr, v: real, env: Env, n: N.Number)
    requires Denote(lib, Corrected, x, env) == Value(n)
    ensures Denote(lib, Corrected, PlusConst(x, v), env) == Value(N.Add(n, N.Real(v)))
    ensures Denote(lib, Corrected, TimesConst(x, v), env) == Value(N.Mul(n, N.Real(v)))
  {
    N.AddCommutes(N.Real(v), n);
    N.MulCommutes(N.Real(v), n);
  }

  /** `e - v` as written means `v - e`: for `x` bound to 0.0, `x - 1.0`
      means 1.0 and not -1.0. This holds in both arithmetics, the program's
      own for a real `e`. */
  lemma MinusConstAsWrittenMeans(lib: Lib, x: Expr, v: real, t: real, env: Env, n: N.Number)
    requires Denote(lib, Corrected, x, env) == Value(n)
    ensures Denote(lib, Corrected, MinusConstAsWritten(x, v), env) == Value(N.Sub(N.Real(v), n))
    ensures var w := Bind(env, 'x', N.Real(0.0));
      Denote(lib, Corrected, MinusConstAsWritten(Var('x'), 1.0), w) == Value(N.Real(1.0))
    ensures Denote(lib, AsWritten, x, env) == Value(N.Real(t)) ==>
      Denote(lib, AsWritten, MinusConstAsWritten(x, v), env) == Value(N.Real(v - t))
    ensures var w := Bind(env, 'x', N.Real(0.0));
      Denote(lib, AsWritten, MinusConstAsWritten(Var('x'), 1.0), w) == Value(N.Real(1.0))
  {
  }

  /** `e - v` corrected means `e - v`, and adding `v` back recovers `e`. */
  lemma MinusConstMeans(lib: Lib, x: Expr, v: real, env: Env, n: N.Number)
    requires Denote(lib, Corrected, x, env) == Value(n)
    ensures Denote(lib, Corrected, MinusConst(x, v), env) == Value(N.Sub(n, N.Real(v)))
    ensures N.SameValue(N.Add(Denote(lib, Corrected, MinusConst(x, v), env).n, N.Real(v)), n)
    ensures var w := Bind(env, 'x', N.Real(0.0));
      Denote(lib, Corrected, MinusConst(Var('x'), 1.0), w) == Value(N.Real(-1.0))
  {
    N.SubUndoesAdd(n, N.Real(v));
  }

  /** `v - e` means the constant minus `e`, and adding `e` back recovers
      the constant. */
  lemma ConstMinusMeans(lib: Lib, x: Expr, v: real, env: Env, n: N.Number)
    requires Denote(lib, Corrected, x, env) == Value(n)
    ensures Denote(lib, Corrected, ConstMinus(v, x), env) == Value(N.Sub(N.Real(v), n))
    ensures N.SameValue(N.Add(Denote(lib, Corrected, ConstMinus(v, x), env).n, n), N.Real(v))
  {
    N.SubUndoesAdd(N.Real(v), n);
  }

  /** `e / v` and `v / e` crash exactly when the divisor is zero. */
  lemma OverConstMeans(lib: Lib, x: Expr, v: real, env: Env, n: N.Number)
    requires Denote(lib, Corrected, x, env) == Value(n)
    ensures Denote(lib, Corrected, OverConst(x, v), env).Crash? <==> v == 0.0
    ensures Denote(lib, Corrected, ConstOver(v, x), env).Crash? <==> N.IsZero(n)
    ensures v != 0.0 ==> var o := Denote(lib, Corrected, OverConst(x, v), env);
      o.Value? && N.SameValue(N.Mul(o.n, N.Real(v)), n)
  {
    QuotientDenotes(lib, x, Con(v), env, n, N.Real(v));
    QuotientDenotes(lib, Con(v), x, env, N.Real(v), n);
    if v != 0.0 {
      N.DivUndoesMul(n, N.Real(v));
    }
  }

  /** A quotient of two trees with values crashes on a zero divisor and
      otherwise means the quotient of the values. */
  lemma QuotientDenotes(lib: Lib, l: Expr, r: Expr, env: Env, a: N.Number, b: N.Number)
    requires Denote(lib, Corrected, l, env) == Value(a) && Denote(lib, Corrected, r, env) == Value(b)
    ensures N.IsZero(b) ==> Denote(lib, Corrected, Div(l, r), env) == Crash
    ensures !N.IsZero(b) ==> Denote(lib, Corrected, Div(l, r), env) == Value(N.Div(a, b).value)
  {
    var y := Div(l, r);
    assert !Folds(y) && IsBinary(y);
    assert Op2(lib, Corrected, y, a, b) == N.Div(a, b);
  }

  /** Unary `-e` is multiplication by -1, so it negates complex values too,
      while `Neg(e)` turns every complex value into 0.0. */
  lemma NegateMeans(lib: Lib, x: Expr, env: Env, n: N.Number)
    requires Denote(lib, Corrected, x, env) == Value(n)
    ensures var o := Denote(lib, Corrected, Negate(x), env);
      o.Value? && N.RealPart(o.n) == -N.RealPart(n) && N.ImagPart(o.n) == -N.ImagPart(n)
    ensures n.Real? ==> Denote(lib, Corrected, Negate(x), env) == Denote(lib, Corrected, Neg(x), env)
    ensures n.Complex? ==> Denote(lib, Corrected, Neg(x), env) == Value(N.Real(0.0))
  {
    NegateDenotes(lib, x, env, n);
    NegDenotes(lib, x, env, n);
    MinusOneTimes(n);
  }

  /** The value of `Neg(e)` is `Number::neg` of the value of `e`. */
  lemma NegDenotes(lib: Lib, x: Expr, env: Env, n: N.Number)
    requires Denote(lib, Corrected, x, env) == Value(n)
    ensures Denote(lib, Corrected, Neg(x), env) == Value(N.Neg(n))
  {
    var y := Neg(x);
    assert Folds(y) && y.e == x;
    assert Op1(lib, y, n) == N.Neg(n);
  }

  /** -1 times a number negates both parts; on a real it is `Number::neg`. */
  lemma MinusOneTimes(n: N.Number)
    ensures N.RealPart(N.Mul(N.Real(-1.0), n)) == -N.RealPart(n)
    ensures N.ImagPart(N.Mul(N.Real(-1.0), n)) == -N.ImagPart(n)
    ensures n.Real? ==> N.Mul(N.Real(-1.0), n) == N.Neg(n)
  {
  }

  /** The value of `-e` is the product of -1 and the value of `e`. */
  lemma NegateDenotes(lib: Lib, x: Expr, env: Env, n: N.Number)
    requires Denote(lib, Corrected, x, env) == Value(n)
    ensures Denote(lib, Corrected, Negate(x), env) == Value(N.Mul(N.Real(-1.0), n))
  {
    var m := Mul(Con(-1.0), x);
    assert Negate(x) == m;
    assert Denote(lib, Corrected, m.l, env) == Value(N.Real(-1.0));
    assert Op2(lib, Corrected, m, N.Real(-1.0), n) == N.Ok(N.Mul(N.Real(-1.0), n));
  }

  /** `varf(c, v)` means `v` times the value bound to `c`. */
  lemma VarfMeans(lib: Lib, c: char, v: real, env: Env)
    ensures Denote(lib, Corrected, Varf(c, v), env) == Value(N.Mul(N.Real(v), env(c)))
  {
  }

  /** `sqrt(e)` of a negative real lands on the imaginary axis. */
  lemma SqrtMeans(lib: Lib, x: Expr, env: Env, t: real)
    requires Denote(lib, Corrected, x, env) == Value(N.Real(t))
    ensures t < 0.0 ==> Denote(lib, Corrected, Sqrt(x), env) == Value(N.Complex(0.0, lib.powf(-t, 0.5)))
    ensures t >= 0.0 ==> Denote(lib, Corrected, Sqrt(x), env) == Value(N.Real(lib.powf(t, 0.5)))
  {
    N.PowBranchCut(lib, t, 0.5);
    assert 0.5 * (N.Pow2(1) as real) == 1.0;
  }

  /** `tan(e)` agrees with `Number::tan` on real values. On a complex value
      `Number::tan` gives 0.0, but the tree divides 0.0 by 0.0 and crashes. */
  lemma TanMeans(lib: Lib, x: Expr, env: Env, n: N.Number)
    requires Denote(lib, Corrected, x, env) == Value(n)
    ensures n.Real? ==> match N.Tan(lib, n)
      case Ok(q) => Denote(lib, Corrected, Tan(x), env) == Value(q)
      case Panic => Denote(lib, Corrected, Tan(x), env) == Crash
    ensures n.Complex? ==> Denote(lib, Corrected, Tan(x), env) == Crash && N.Tan(lib, n) == N.Ok(N.Real(0.0))
  {
  }

  /** `log(base, e)` crashes exactly when `ln(base)` is zero, and otherwise
      times `ln(base)` gives back `ln(e)`. */
  lemma LogMeans(lib: Lib, base: real, x: Expr, env: Env, t: real)
    requires Denote(lib, Corrected, x, env) == Value(N.Real(t))
    ensures Denote(lib, Corrected, Log(base, x), env).Crash? <==> lib.ln(base) == 0.0
    ensures lib.ln(base) != 0.0 ==>
      Denote(lib, Corrected, Log(base, x), env) == Value(N.Real(lib.ln(t) / lib.ln(base)))
  {
    assert Denote(lib, Corrected, Ln(x), env) == Value(N.Real(lib.ln(t)));
    assert Denote(lib, Corrected, Ln(Con(base)), env) == Value(N.Real(lib.ln(base)));
  }

  /** `base2(e)` and `base10(e)` are `log` to the bases 2 and 10: each
      crashes exactly when the logarithm of its base is zero, and otherwise
      means `ln(e)` over that logarithm. */
  lemma BaseLogsMean(lib: Lib, x: Expr, env: Env, t: real)
    requires Denote(lib, Corrected, x, env) == Value(N.Real(t))
    ensures Denote(lib, Corrected, Base2(x), env).Crash? <==> lib.ln(2.0) == 0.0
    ensures lib.ln(2.0) != 0.0 ==>
      Denote(lib, Corrected, Base2(x), env) == Value(N.Real(lib.ln(t) / lib.ln(2.0)))
    ensures Denote(lib, Corrected, Base10(x), env).Crash? <==> lib.ln(10.0) == 0.0
    ensures lib.ln(10.0) != 0.0 ==>
      Denote(lib, Corrected, Base10(x), env) == Value(N.Real(lib.ln(t) / lib.ln(10.0)))
  {
    LogMeans(lib, 2.0, x, env, t);
    LogMeans(lib, 10.0, x, env, t);
  }
}
