/**
  The legacy engine's calculus stubs (src/calc/deriver.rs and
  src/calc/integrator.rs). `derive` knows only the leaves and takes no
  variable; `integrate` knows only constants and names the constant of
  integration `C`. Every other node gives `NaN`.
 */
module CalcCalculus {
  import opened MathLib
  import opened CalcExprs
  import opened CalcSemantics

  /** `derive(e)`. */
  function Derive(x: Expr): (r: Expr)
    ensures r.NaN? <==> !(x.Const? || x.Var?)
    ensures !r.NaN? ==> r.Const? && Vars(r) == {}
  {
    match x
    case NaN => NaN
    case Const(_) => Const(0.0)
    case Var(_) => Const(1.0)
    case _ => NaN
  }

  /** On a constant, and on the variable it is read against, the derivative
      is the exact slope: moving that variable by `h` moves the value by
      the derivative times `h`. */
  lemma DeriveIsSlope(lib: Lib, x: Expr, s: char, env: Env, t: real, h: real)
    requires x.Const? || x == Var(s)
    ensures Denote(lib, x, Bind(env, s, t + h)).value - Denote(lib, x, Bind(env, s, t)).value
      == Derive(x).v * h
  {
  }

  /** `derive` takes no variable: a variable other than `s` does not move
      with `s`, yet its derivative is 1. */
  lemma DeriveIgnoresTheVariable(lib: Lib, c: char, s: char, env: Env, t: real, h: real)
    requires c != s && h != 0.0
    ensures Denote(lib, Var(c), Bind(env, s, t + h)) == Denote(lib, Var(c), Bind(env, s, t))
    ensures Derive(Var(c)) == Const(1.0)
  {
  }

  /** `integrate(e, sym)`. */
  function Integrate(x: Expr, sym: char): (r: Expr)
    ensures r.NaN? <==> !x.Const?
    ensures x.Const? ==> HasVar(r, sym) && HasVar(r, 'C')
    ensures x.Const? ==> Vars(r) == {sym, 'C'}
  {
    match x
    case NaN => NaN
    case Const(c) =>
      var m := Mul(Const(c), Var(sym));
      assert HasVar(m, sym) && Vars(m) == {sym};
      Add(m, Var('C'))
    case _ => NaN
  }

  /** The integral of `c` means `c * sym + C`. */
  lemma IntegralMeans(lib: Lib, c: real, sym: char, env: Env)
    ensures Denote(lib, Integrate(Const(c), sym), env) == Some(c * env(sym) + env('C'))
  {
    var m := Mul(Const(c), Var(sym));
    var i := Add(m, Var('C'));
    assert Integrate(Const(c), sym) == i;
    assert Denote(lib, m.l, env) == Some(c);
    assert Denote(lib, m.r, env) == Some(env(sym));
    assert Apply2(lib, m, c, env(sym)) == c * env(sym);
    assert Denote(lib, m, env) == Some(c * env(sym));
    assert Denote(lib, i.r, env) == Some(env('C'));
    assert Apply2(lib, i, c * env(sym), env('C')) == c * env(sym) + env('C');
  }

  /** The integral of `c` is an antiderivative: moving `sym` by `h` moves
      its value by `c * h`. When `sym` is itself `C`, the constant of
      integration is the same variable and the slope is `c + 1`. */
  lemma IntegralSlope(lib: Lib, c: real, sym: char, env: Env, t: real, h: real)
    ensures var i := Integrate(Const(c), sym);
      Denote(lib, i, Bind(env, sym, t + h)).Some? && Denote(lib, i, Bind(env, sym, t)).Some? &&
      Denote(lib, i, Bind(env, sym, t + h)).value - Denote(lib, i, Bind(env, sym, t)).value
        == if sym == 'C' then (c + 1.0) * h else c * h
  {
    var e1, e0 := Bind(env, sym, t + h), Bind(env, sym, t);
    IntegralMeans(lib, c, sym, e1);
    IntegralMeans(lib, c, sym, e0);
    if sym != 'C' {
      assert e1('C') == e0('C');
    }
  }

  /** The stubs do not invert each other: `derive` of an integral is
      `NaN`. */
  lemma DeriveOfIntegral(c: real, sym: char)
    ensures Derive(Integrate(Const(c), sym)) == NaN
    ensures Derive(Integrate(Var(sym), sym)) == NaN
  {
  }
}
