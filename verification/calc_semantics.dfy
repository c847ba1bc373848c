/**
  What a tree of the legacy engine means. No such definition exists in the
  program; it is the reference against which the legacy evaluator,
  simplifier and constructors are judged. Under a binding of every variable
  to a real number a tree denotes the real number its `f64` operations
  compute, or nothing when it holds a `NaN` leaf. Float division by zero
  does not trap: it gives the library's non-finite value.
 */
module CalcSemantics {
  import opened MathLib
  import opened CalcExprs

  datatype Option<T> = None | Some(value: T)

  type Env = char -> real

  /** `env` with `s` bound to `v`. */
  function Bind(env: Env, s: char, v: real): (r: Env)
    ensures r(s) == v
    ensures forall c :: c != s ==> r(c) == env(c)
  {
    c => if c == s then v else env(c)
  }

  /** The meaning of `x` under `env`. */
  function Denote(lib: Lib, x: Expr, env: Env): Option<real> {
    if x.NaN? then None
    else if x.Const? then Some(x.v)
    else if x.Var? then Some(env(x.name))
    else if IsUnary(x) then
      var a := Denote(lib, x.e, env);
      if a.Some? then Some(Apply1(lib, x, a.value)) else None
    else
      var a, b := Denote(lib, x.l, env), Denote(lib, x.r, env);
      if a.Some? && b.Some? then Some(Apply2(lib, x, a.value, b.value)) else None
  }

  /** A tree means a number exactly when it has no `NaN` leaf. */
  lemma {:induction false} DenoteDefined(lib: Lib, x: Expr, env: Env)
    ensures Denote(lib, x, env).Some? <==> !HasNaN(x)
  {
    if IsBinary(x) {
      DenoteDefined(lib, x.l, env);
      DenoteDefined(lib, x.r, env);
    } else if IsUnary(x) {
      DenoteDefined(lib, x.e, env);
    }
  }

  /** A tree in which `has_var` finds no `s` means the same whatever `s` is
      bound to. */
  lemma {:induction false} HasVarSound(lib: Lib, x: Expr, env: Env, s: char, w: real)
    requires !HasVar(x, s)
    ensures Denote(lib, x, Bind(env, s, w)) == Denote(lib, x, env)
  {
    if IsBinary(x) {
      HasVarSound(lib, x.l, env, s, w);
      HasVarSound(lib, x.r, env, s, w);
    } else if IsUnary(x) {
      HasVarSound(lib, x.e, env, s, w);
    }
  }

  /** `neg(e)` means the negation of `e`, as a `Neg` node would: when `e`
      means `o`, both mean its negation, or nothing. */
  lemma NegOfMeans(lib: Lib, x: Expr, env: Env, o: Option<real>)
    requires Denote(lib, x, env) == o
    ensures Denote(lib, NegOf(x), env) == Denote(lib, Neg(x), env)
    ensures o.Some? ==> Denote(lib, NegOf(x), env) == Some(-o.value)
    ensures o.None? ==> Denote(lib, NegOf(x), env) == None
  {
    NegOfDenotes(lib, x, env, o);
    NegDenotes(lib, x, env, o);
  }

  lemma NegOfDenotes(lib: Lib, x: Expr, env: Env, o: Option<real>)
    requires Denote(lib, x, env) == o
    ensures Denote(lib, NegOf(x), env) == if o.Some? then Some(-o.value) else None
  {
    var m := NegOf(x);
    assert m == Mul(Const(-1.0), x) && IsBinary(m) && !IsUnary(m);
    assert Denote(lib, m.l, env) == Some(-1.0);
    if o.Some? {
      assert Apply2(lib, m, -1.0, o.value) == -o.value;
    }
  }

  lemma NegDenotes(lib: Lib, x: Expr, env: Env, o: Option<real>)
    requires Denote(lib, x, env) == o
    ensures Denote(lib, Neg(x), env) == if o.Some? then Some(-o.value) else None
  {
    var n := Neg(x);
    assert IsUnary(n) && n.e == x;
    if o.Some? {
      assert Apply1(lib, n, o.value) == -o.value;
    }
  }

  /** `varf(v, c)` means `v` times the value bound to `c`. */
  lemma VarfMeans(lib: Lib, v: real, c: char, env: Env)
    ensures Denote(lib, Varf(v, c), env) == Some(v * env(c))
  {
    var x := Mul(Const(v), Var(c));
    assert Varf(v, c) == x;
    assert Denote(lib, x.l, env) == Some(v) && Denote(lib, x.r, env) == Some(env(c));
    assert Apply2(lib, x, v, env(c)) == v * env(c);
  }

  /** `log(base, e)` means `ln(e) / ln(base)`; when `ln(base)` is not zero,
      multiplying it back gives `ln(e)`. */
  lemma LogMeans(lib: Lib, base: real, x: Expr, env: Env, t: real)
    requires Denote(lib, x, env) == Some(t)
    ensures Denote(lib, Log(base, x), env) == Some(FloatDiv(lib, lib.ln(t), lib.ln(base)))
    ensures lib.ln(base) != 0.0 ==> Denote(lib, Log(base, x), env).value * lib.ln(base) == lib.ln(t)
  {
    assert Denote(lib, Ln(x), env) == Some(lib.ln(t));
    assert Denote(lib, Ln(Const(base)), env) == Some(lib.ln(base));
  }

  /** `powf(e, f)` means `powf(t, f)` of the value `t` of `e`; `sqrt`,
      `square` and `cube` are the powers 0.5, 2 and 3. Unlike the current
      engine there is no branch cut: the root of a negative value is
      whatever the library's `powf` gives. */
  lemma PowfMeans(lib: Lib, x: Expr, f: real, env: Env, t: real)
    requires Denote(lib, x, env) == Some(t)
    ensures Denote(lib, Powf(x, f), env) == Some(lib.powf(t, f))
    ensures Denote(lib, Sqrt(x), env) == Some(lib.powf(t, 0.5))
    ensures Denote(lib, Square(x), env) == Some(lib.powf(t, 2.0))
    ensures Denote(lib, Cube(x), env) == Some(lib.powf(t, 3.0))
  {
    PowfDenotes(lib, x, f, env, t);
    PowfDenotes(lib, x, 0.5, env, t);
    PowfDenotes(lib, x, 2.0, env, t);
    PowfDenotes(lib, x, 3.0, env, t);
  }

  lemma PowfDenotes(lib: Lib, x: Expr, f: real, env: Env, t: real)
    requires Denote(lib, x, env) == Some(t)
    ensures Denote(lib, Powf(x, f), env) == Some(lib.powf(t, f))
  {
    var y := Pow(x, Const(f));
    assert Powf(x, f) == y && IsBinary(y) && !IsUnary(y) && !y.NaN?;
    assert Denote(lib, y.r, env) == Some(f);
    assert Apply2(lib, y, t, f) == lib.powf(t, f);
  }
}
