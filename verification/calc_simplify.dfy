/**
  The legacy engine's simplifier (src/calc/simplify.rs): one structural
  pass over `Neg`, `Add`, `Sub`, `Mul` and `Div` that matches on the
  children as they are, before simplifying them. Every other node is
  returned unchanged, children included. The program calls `zero()` for the
  product with a zero constant, which the legacy tree does not define; the
  model reads it as the constant 0.0, as the test cases do.
 */
module CalcSimplifier {
  import opened MathLib
  import opened CalcExprs
  import opened CalcSemantics

  /** A constant factor `c` times the simplified other side `s`: 0 absorbs,
      1 is the identity, -1 is `neg`, anything else is put on the left. */
  function Scale(c: real, s: Expr): (r: Expr)
    ensures c == 0.0 ==> r == Const(0.0)
    ensures c != 0.0 ==> r == (if c == 1.0 then s else Mul(Const(c), s))
    ensures Vars(r) == if c == 0.0 then {} else Vars(s)
  {
    if c == 0.0 then Const(0.0)
    else if c == 1.0 then s
    else if c == -1.0 then NegOf(s)
    else Mul(Const(c), s)
  }

  /** `simplify(e)`. */
  function Simplify(x: Expr): (r: Expr)
    ensures !r.Neg?
    ensures Vars(r) <= Vars(x)
  {
    match x
    case Neg(i) => NegOf(Simplify(i))
    case Add(l, r) =>
      if l.Const? && r.Const? then Const(l.v + r.v)
      else if l.Const? then (if l.v == 0.0 then Simplify(r) else Add(l, Simplify(r)))
      else if r.Const? then (if r.v == 0.0 then Simplify(l) else Add(r, Simplify(l)))
      else Add(Simplify(l), Simplify(r))
    case Sub(l, r) =>
      if l.Const? && r.Const? then Const(l.v - r.v)
      else if l.Const? then (if l.v == 0.0 then NegOf(Simplify(r)) else Sub(l, Simplify(r)))
      else if r.Const? then (if r.v == 0.0 then Simplify(l) else Sub(Simplify(l), r))
      else if r.Neg? then Add(Simplify(l), Simplify(r.e))
      else Sub(Simplify(l), Simplify(r))
    case Mul(l, r) =>
      if l.Const? && r.Const? then Const(l.v * r.v)
      else if l.Const? then Scale(l.v, Simplify(r))
      else if r.Const? then Scale(r.v, Simplify(l))
      else Mul(Simplify(l), Simplify(r))
    case Div(l, r) =>
      if r.Const? then
        if r.v == 1.0 then Simplify(l)
        else if r.v == 0.0 then NaN
        else Div(Simplify(l), r)
      else Div(Simplify(l), Simplify(r))
    case _ => x
  }

  /** The tree divides by the constant 0.0 somewhere. */
  predicate DividesByZero(x: Expr) {
    (x.Div? && x.r == Const(0.0)) ||
    (IsBinary(x) && (DividesByZero(x.l) || DividesByZero(x.r))) ||
    (IsUnary(x) && DividesByZero(x.e))
  }

  /** On trees without `NaN` and without a division by the constant 0.0,
      simplification keeps the meaning under every binding. */
  lemma {:induction false} SimplifyPreservesMeaning(lib: Lib, x: Expr, env: Env)
    requires !HasNaN(x) && !DividesByZero(x)
    ensures Denote(lib, Simplify(x), env) == Denote(lib, x, env)
  {
    match x
    case Neg(i) =>
      SimplifyPreservesMeaning(lib, i, env);
      NegOfMeans(lib, Simplify(i), env, Denote(lib, Simplify(i), env));
    case Add(l, r) =>
      SimplifyPreservesMeaning(lib, l, env);
      SimplifyPreservesMeaning(lib, r, env);
    case Sub(l, r) =>
      SimplifyPreservesMeaning(lib, l, env);
      SimplifyPreservesMeaning(lib, r, env);
      if r.Neg? {
        SimplifyPreservesMeaning(lib, r.e, env);
      }
      SubStep(lib, x, env);
    case Mul(l, r) =>
      SimplifyPreservesMeaning(lib, l, env);
      SimplifyPreservesMeaning(lib, r, env);
      MulStep(lib, x, env);
    case Div(l, r) =>
      SimplifyPreservesMeaning(lib, l, env);
      SimplifyPreservesMeaning(lib, r, env);
      DivStep(lib, x, env);
    case _ =>
  }

  lemma SubStep(lib: Lib, x: Expr, env: Env)
    requires x.Sub? && !HasNaN(x)
    requires Denote(lib, Simplify(x.l), env) == Denote(lib, x.l, env)
    requires Denote(lib, Simplify(x.r), env) == Denote(lib, x.r, env)
    requires x.r.Neg? ==> Denote(lib, Simplify(x.r.e), env) == Denote(lib, x.r.e, env)
    ensures Denote(lib, Simplify(x), env) == Denote(lib, x, env)
  {
    var l, r := x.l, x.r;
    DenoteDefined(lib, l, env);
    DenoteDefined(lib, r, env);
    if l.Const? && !r.Const? && l.v == 0.0 {
      NegOfMeans(lib, Simplify(r), env, Denote(lib, Simplify(r), env));
    }
  }

  lemma MulStep(lib: Lib, x: Expr, env: Env)
    requires x.Mul? && !HasNaN(x)
    requires Denote(lib, Simplify(x.l), env) == Denote(lib, x.l, env)
    requires Denote(lib, Simplify(x.r), env) == Denote(lib, x.r, env)
    ensures Denote(lib, Simplify(x), env) == Denote(lib, x, env)
  {
    var l, r := x.l, x.r;
    DenoteDefined(lib, l, env);
    DenoteDefined(lib, r, env);
    if l.Const? && !r.Const? {
      NegOfMeans(lib, Simplify(r), env, Denote(lib, Simplify(r), env));
    } else if !l.Const? && r.Const? {
      NegOfMeans(lib, Simplify(l), env, Denote(lib, Simplify(l), env));
      var a := Denote(lib, l, env).value;
      assert Denote(lib, r, env) == Some(r.v);
      assert Apply2(lib, x, a, r.v) == a * r.v;
      var y := Mul(Const(r.v), Simplify(l));
      assert Denote(lib, y.l, env) == Some(r.v);
      assert Apply2(lib, y, r.v, a) == r.v * a;
      assert Simplify(x) == Scale(r.v, Simplify(l));
      assert Denote(lib, x, env) == Some(a * r.v);
      if r.v == 0.0 {
        assert Denote(lib, Simplify(x), env) == Some(0.0);
      } else if r.v == 1.0 {
        assert Denote(lib, Simplify(x), env) == Some(a);
      } else if r.v == -1.0 {
        assert Denote(lib, Simplify(x), env) == Some(-a);
      } else {
        assert Denote(lib, Simplify(x), env) == Some(r.v * a);
      }
    } else if l.Const? && r.Const? {
      assert Simplify(x) == Const(l.v * r.v);
      assert Denote(lib, l, env) == Some(l.v) && Denote(lib, r, env) == Some(r.v);
      assert Apply2(lib, x, l.v, r.v) == l.v * r.v;
      assert Denote(lib, x, env) == Some(l.v * r.v);
    } else {
      assert Simplify(x) == Mul(Simplify(l), Simplify(r));
    }
  }

  lemma DivStep(lib: Lib, x: Expr, env: Env)
    requires x.Div? && !HasNaN(x) && !DividesByZero(x)
    requires Denote(lib, Simplify(x.l), env) == Denote(lib, x.l, env)
    requires Denote(lib, Simplify(x.r), env) == Denote(lib, x.r, env)
    ensures Denote(lib, Simplify(x), env) == Denote(lib, x, env)
  {
    var l, r := x.l, x.r;
    DenoteDefined(lib, l, env);
    if r.Const? && r.v == 1.0 {
      var a := Denote(lib, l, env).value;
      assert FloatDiv(lib, a, 1.0) == a;
    }
  }

  /** Outside that fragment the rules change the meaning: a product with
      zero drops a `NaN`, and a division by the constant zero, which has a
      value, becomes `NaN`. */
  lemma SimplifyDropsAndMakesNaN(lib: Lib, env: Env)
    ensures Simplify(Mul(Const(0.0), NaN)) == Const(0.0)
    ensures Denote(lib, Mul(Const(0.0), NaN), env) == None
    ensures Simplify(Div(Var('x'), Const(0.0))) == NaN
    ensures Denote(lib, Div(Var('x'), Const(0.0)), env) == Some(lib.divZero(env('x')))
  {
  }

  /** The test cases: `0 + 1` and `1 + 0` give 1, `0 + 0` gives 0 and
      `1 + 1` gives 2. */
  lemma AddExamples()
    ensures Simplify(Add(Const(0.0), Const(1.0))) == Const(1.0)
    ensures Simplify(Add(Const(1.0), Const(0.0))) == Const(1.0)
    ensures Simplify(Add(Const(0.0), Const(0.0))) == Const(0.0)
    ensures Simplify(Add(Const(1.0), Const(1.0))) == Const(2.0)
  {
  }

  /** The `Add`, `Sub` and `Mul` rules on a non-constant side `e`: a zero
      constant gives the other side simplified, a constant on the right
      moves left, `0 - e` and `-1 * e` are `neg`, and `0 * e` is 0. */
  lemma ConstantRules(e: Expr, c: real)
    requires !e.Const?
    ensures Simplify(Add(Const(0.0), e)) == Simplify(e)
    ensures Simplify(Add(e, Const(0.0))) == Simplify(e)
    ensures c != 0.0 ==> Simplify(Add(e, Const(c))) == Add(Const(c), Simplify(e))
    ensures Simplify(Sub(Const(0.0), e)) == NegOf(Simplify(e))
    ensures Simplify(Sub(e, Const(0.0))) == Simplify(e)
    ensures c != 0.0 ==> Simplify(Sub(e, Const(c))) == Sub(Simplify(e), Const(c))
    ensures Simplify(Mul(Const(0.0), e)) == Const(0.0)
    ensures Simplify(Mul(e, Const(1.0))) == Simplify(e)
    ensures Simplify(Mul(e, Const(-1.0))) == NegOf(Simplify(e))
  {
  }

  /** `a - (-i)` is `a + i` with both sides simplified and no further pass,
      and `-e` is `neg` of the simplified `e`. */
  lemma NegRules(a: Expr, i: Expr)
    requires !a.Const?
    ensures Simplify(Sub(a, Neg(i))) == Add(Simplify(a), Simplify(i))
    ensures Simplify(Neg(i)) == Mul(Const(-1.0), Simplify(i))
  {
  }

  /** The `Div` rules: `/1` gives the simplified numerator, `/0` gives
      `NaN`, and any other constant divisor is kept. */
  lemma DivRules(a: Expr, c: real)
    ensures Simplify(Div(a, Const(1.0))) == Simplify(a)
    ensures Simplify(Div(a, Const(0.0))) == NaN
    ensures c != 0.0 && c != 1.0 ==> Simplify(Div(a, Const(c))) == Div(Simplify(a), Const(c))
  {
  }

  /** Only the root loses its `Neg`: one below an unhandled node stays, and
      one pass is not enough to reach a fixed point. */
  lemma SimplifyLimits()
    ensures Simplify(Sin(Neg(Var('x')))) == Sin(Neg(Var('x')))
    ensures Simplify(Add(Var('x'), Add(Const(1.0), Const(1.0)))) == Add(Var('x'), Const(2.0))
    ensures Simplify(Add(Var('x'), Const(2.0))) == Add(Const(2.0), Var('x'))
  {
  }
}
