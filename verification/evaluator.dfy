/**
  One-variable evaluation of a tree of the current engine
  (src/expr/evaluator.rs): every `Var(sym)` becomes the constant `v`, and a
  node whose operands both became constants is folded with the `Number`
  operation it names. A division of two constants by zero panics, and the
  panic ends the evaluation. Nodes without an arm (`Var` of another name,
  the hyperbolic and inverse trigonometric nodes, `Factorial`, `Gamma`,
  `NaN`) are returned as they are, children included.
 */
module Evaluator {
  import opened MathLib
  import N = Numbers
  import opened Exprs
  import opened Semantics

  /** `evaluate(e, sym, v)` with the arithmetic `ar`. A panic is `Panic`. */
  function Evaluate(lib: Lib, ar: Arith, x: Expr, sym: char, v: N.Number): (r: N.Result<Expr>)
    ensures r.Ok? ==> !HasVar(r.value, sym)
    ensures r.Panic? ==> HasDiv(x)
  {
    if x.Var? && x.name == sym then N.Ok(Const(v))
    else if Folds(x) then
      var a :- Evaluate(lib, ar, x.e, sym, v);
      N.Ok(if a.Const? then Const(Op1(lib, x, a.n)) else With1(x, a))
    else if IsBinary(x) then
      var a :- Evaluate(lib, ar, x.l, sym, v);
      var b :- Evaluate(lib, ar, x.r, sym, v);
      if a.Const? && b.Const? then
        var q :- Op2(lib, ar, x, a.n, b.n);
        N.Ok(Const(q))
      else N.Ok(With2(x, a, b))
    else N.Ok(x)
  }

  /** Evaluation keeps the meaning computed in the same arithmetic: a panic
      happens only where the tree, with `sym` bound to `v`, crashes, and
      otherwise the result means under any binding what the tree means with
      `sym` bound to `v`. */
  lemma {:induction false} EvaluatePreservesMeaning(lib: Lib, ar: Arith, x: Expr, sym: char, v: N.Number, env: Env)
    ensures var r := Evaluate(lib, ar, x, sym, v);
      && (r.Panic? ==> Denote(lib, ar, x, Bind(env, sym, v)) == Crash)
      && (r.Ok? ==> Denote(lib, ar, r.value, env) == Denote(lib, ar, x, Bind(env, sym, v)))
  {
    if IsBinary(x) {
      EvaluatePreservesMeaning(lib, ar, x.l, sym, v, env);
      EvaluatePreservesMeaning(lib, ar, x.r, sym, v, env);
      EvaluateBinaryStep(lib, ar, x, sym, v, env);
    } else if Folds(x) {
      EvaluatePreservesMeaning(lib, ar, x.e, sym, v, env);
      EvaluateUnaryStep(lib, ar, x, sym, v, env);
    }
  }

  /** Evaluating `x` panics only where it crashes, and otherwise keeps its
      meaning. */
  predicate KeepsMeaning(lib: Lib, ar: Arith, x: Expr, sym: char, v: N.Number, env: Env) {
    var r := Evaluate(lib, ar, x, sym, v);
    && (r.Panic? ==> Denote(lib, ar, x, Bind(env, sym, v)) == Crash)
    && (r.Ok? ==> Denote(lib, ar, r.value, env) == Denote(lib, ar, x, Bind(env, sym, v)))
  }

  lemma EvaluateUnaryStep(lib: Lib, ar: Arith, x: Expr, sym: char, v: N.Number, env: Env)
    requires Folds(x) && KeepsMeaning(lib, ar, x.e, sym, v, env)
    ensures KeepsMeaning(lib, ar, x, sym, v, env)
  {
    var e := Bind(env, sym, v);
    var ra := Evaluate(lib, ar, x.e, sym, v);
    if ra.Ok? {
      var a := ra.value;
      if a.Const? {
        assert Evaluate(lib, ar, x, sym, v) == N.Ok(Const(Op1(lib, x, a.n)));
        assert Denote(lib, ar, x.e, e) == Value(a.n);
      } else {
        var y := With1(x, a);
        assert Evaluate(lib, ar, x, sym, v) == N.Ok(y);
        assert forall p :: Op1(lib, y, p) == Op1(lib, x, p) by {
          assert y.Neg? == x.Neg? && y.Sin? == x.Sin? && y.Cos? == x.Cos? && y.Exp? == x.Exp?;
        }
        assert Denote(lib, ar, y.e, env) == Denote(lib, ar, x.e, e);
      }
    } else {
      assert Evaluate(lib, ar, x, sym, v).Panic?;
    }
  }

  lemma EvaluateBinaryStep(lib: Lib, ar: Arith, x: Expr, sym: char, v: N.Number, env: Env)
    requires IsBinary(x) && KeepsMeaning(lib, ar, x.l, sym, v, env) && KeepsMeaning(lib, ar, x.r, sym, v, env)
    ensures KeepsMeaning(lib, ar, x, sym, v, env)
  {
    var e := Bind(env, sym, v);
    var ra, rb := Evaluate(lib, ar, x.l, sym, v), Evaluate(lib, ar, x.r, sym, v);
    assert !Folds(x);
    if ra.Panic? {
      assert Evaluate(lib, ar, x, sym, v).Panic?;
      assert Denote(lib, ar, x.l, e) == Crash;
    } else if rb.Panic? {
      assert Evaluate(lib, ar, x, sym, v).Panic?;
      assert Denote(lib, ar, x.r, e) == Crash;
    } else {
      var a, b := ra.value, rb.value;
      if a.Const? && b.Const? {
        assert Denote(lib, ar, x.l, e) == Value(a.n) && Denote(lib, ar, x.r, e) == Value(b.n);
      } else {
        var y := With2(x, a, b);
        assert Evaluate(lib, ar, x, sym, v) == N.Ok(y);
        assert !Folds(y);
        assert forall p, q :: Op2(lib, ar, y, p, q) == Op2(lib, ar, x, p, q);
        assert Denote(lib, ar, y.l, env) == Denote(lib, ar, x.l, e);
        assert Denote(lib, ar, y.r, env) == Denote(lib, ar, x.r, e);
      }
    }
  }

  /** A foldable tree whose only variable is `sym` evaluates to a single
      constant, which is its value with `sym` bound to `v`, or panics, when
      it crashes. */
  lemma ClosedTreeFolds(lib: Lib, ar: Arith, x: Expr, sym: char, v: N.Number, env: Env)
    requires Foldable(x) && Vars(x) <= {sym}
    ensures var r := Evaluate(lib, ar, x, sym, v);
      && (r.Ok? ==> r.value.Const? && Denote(lib, ar, x, Bind(env, sym, v)) == Value(r.value.n))
      && (r.Panic? <==> Denote(lib, ar, x, Bind(env, sym, v)) == Crash)
  {
    ClosedTreeFoldsToConst(lib, ar, x, sym, v);
    EvaluatePreservesMeaning(lib, ar, x, sym, v, env);
  }

  /** The structural half of `ClosedTreeFolds`. */
  lemma {:induction false} ClosedTreeFoldsToConst(lib: Lib, ar: Arith, x: Expr, sym: char, v: N.Number)
    requires Foldable(x) && Vars(x) <= {sym}
    ensures Evaluate(lib, ar, x, sym, v).Ok? ==> Evaluate(lib, ar, x, sym, v).value.Const?
  {
    if IsBinary(x) {
      ClosedTreeFoldsToConst(lib, ar, x.l, sym, v);
      ClosedTreeFoldsToConst(lib, ar, x.r, sym, v);
    } else if Folds(x) {
      ClosedTreeFoldsToConst(lib, ar, x.e, sym, v);
    }
  }

  /** Evaluating a result again for the same variable, at any value,
      changes nothing. */
  lemma {:induction false} EvaluateIsIdempotent(lib: Lib, ar: Arith, x: Expr, sym: char, v: N.Number, w: N.Number)
    requires Evaluate(lib, ar, x, sym, v).Ok?
    ensures Evaluate(lib, ar, Evaluate(lib, ar, x, sym, v).value, sym, w) == Evaluate(lib, ar, x, sym, v)
  {
    if IsBinary(x) {
      EvaluateIsIdempotent(lib, ar, x.l, sym, v, w);
      EvaluateIsIdempotent(lib, ar, x.r, sym, v, w);
    } else if Folds(x) {
      EvaluateIsIdempotent(lib, ar, x.e, sym, v, w);
    }
  }

  /** A tree in which `has_var` finds no `sym` evaluates the same for every
      value of `sym`. */
  lemma {:induction false} EvaluateIgnoresAbsentVar(lib: Lib, ar: Arith, x: Expr, sym: char, v: N.Number, w: N.Number)
    requires !HasVar(x, sym)
    ensures Evaluate(lib, ar, x, sym, v) == Evaluate(lib, ar, x, sym, w)
  {
    if IsBinary(x) {
      EvaluateIgnoresAbsentVar(lib, ar, x.l, sym, v, w);
      EvaluateIgnoresAbsentVar(lib, ar, x.r, sym, v, w);
    } else if Folds(x) {
      EvaluateIgnoresAbsentVar(lib, ar, x.e, sym, v, w);
    }
  }

  /** Nodes without an arm come back as they are: a variable of another
      name, `NaN`, and the hyperbolic, inverse trigonometric, factorial and
      gamma nodes, even when `sym` occurs inside them. */
  lemma EvaluateLeavesUnhandledNodes(lib: Lib, ar: Arith, x: Expr, sym: char, v: N.Number)
    requires IsBlind(x) || x.NaN? || (x.Var? && x.name != sym)
    ensures Evaluate(lib, ar, x, sym, v) == N.Ok(x)
    ensures Evaluate(lib, ar, Sinh(Var(sym)), sym, v) == N.Ok(Sinh(Var(sym)))
  {
  }

  /** Without a subtraction or a division the two arithmetics evaluate
      alike. */
  lemma {:induction false} EvaluateArithmeticsAgree(lib: Lib, x: Expr, sym: char, v: N.Number)
    requires !HasSubOrDiv(x)
    ensures Evaluate(lib, AsWritten, x, sym, v) == Evaluate(lib, Corrected, x, sym, v)
  {
    if IsBinary(x) {
      EvaluateArithmeticsAgree(lib, x.l, sym, v);
      EvaluateArithmeticsAgree(lib, x.r, sym, v);
    } else if Folds(x) {
      EvaluateArithmeticsAgree(lib, x.e, sym, v);
    }
  }

  /** A two-child node whose children evaluate to constants folds to the
      `Number` operation on them, or panics with it. */
  lemma EvaluateFoldsConstants(lib: Lib, ar: Arith, x: Expr, sym: char, v: N.Number, a: N.Number, b: N.Number)
    requires IsBinary(x)
    requires Evaluate(lib, ar, x.l, sym, v) == N.Ok(Const(a)) && Evaluate(lib, ar, x.r, sym, v) == N.Ok(Const(b))
    ensures Op2(lib, ar, x, a, b).Ok? ==> Evaluate(lib, ar, x, sym, v) == N.Ok(Const(Op2(lib, ar, x, a, b).value))
    ensures Op2(lib, ar, x, a, b).Panic? ==> Evaluate(lib, ar, x, sym, v) == N.Panic
  {
    assert !Folds(x) && !x.Var?;
  }

  /** With `x` at `i`, the program evaluates `x - 1` to `1 + i`, where the
      corrected operators give `-1 + i`, ... */
  lemma EvaluateSubDiffers(lib: Lib)
    ensures Evaluate(lib, AsWritten, Sub(Var('x'), Con(1.0)), 'x', N.Complex(0.0, 1.0)) == N.Ok(Const(N.Complex(1.0, 1.0)))
    ensures Evaluate(lib, Corrected, Sub(Var('x'), Con(1.0)), 'x', N.Complex(0.0, 1.0)) == N.Ok(Const(N.Complex(-1.0, 1.0)))
  {
    var x, i := Sub(Var('x'), Con(1.0)), N.Complex(0.0, 1.0);
    Op2SubDiffers(lib, x);
    var one := N.Real(1.0);
    assert Evaluate(lib, AsWritten, x.l, 'x', i) == N.Ok(Const(i)) && Evaluate(lib, AsWritten, x.r, 'x', i) == N.Ok(Const(one));
    assert Evaluate(lib, Corrected, x.l, 'x', i) == N.Ok(Const(i)) && Evaluate(lib, Corrected, x.r, 'x', i) == N.Ok(Const(one));
    EvaluateFoldsConstants(lib, AsWritten, x, 'x', i, i, one);
    EvaluateFoldsConstants(lib, Corrected, x, 'x', i, i, one);
  }

  /** ... and `x / 1` at `yi` to `-yi`, where the corrected operators give
      `yi`. */
  lemma EvaluateDivDiffers(lib: Lib, y: real)
    ensures Evaluate(lib, AsWritten, Div(Var('x'), Con(1.0)), 'x', N.Complex(0.0, y)) == N.Ok(Const(N.Complex(0.0, -y)))
    ensures Evaluate(lib, Corrected, Div(Var('x'), Con(1.0)), 'x', N.Complex(0.0, y)) == N.Ok(Const(N.Complex(0.0, y)))
  {
    var x, i, one := Div(Var('x'), Con(1.0)), N.Complex(0.0, y), N.Real(1.0);
    Op2DivDiffers(lib, x, y);
    assert Evaluate(lib, AsWritten, x.l, 'x', i) == N.Ok(Const(i)) && Evaluate(lib, AsWritten, x.r, 'x', i) == N.Ok(Const(one));
    assert Evaluate(lib, Corrected, x.l, 'x', i) == N.Ok(Const(i)) && Evaluate(lib, Corrected, x.r, 'x', i) == N.Ok(Const(one));
    EvaluateFoldsConstants(lib, AsWritten, x, 'x', i, i, one);
    EvaluateFoldsConstants(lib, Corrected, x, 'x', i, i, one);
  }

  /** A division by a constant zero panics once both sides are constants. */
  lemma DivisionByZeroPanics(lib: Lib, ar: Arith, c: N.Number, sym: char, v: N.Number)
    requires N.IsZero(v)
    ensures Evaluate(lib, ar, Div(Const(c), Var(sym)), sym, v).Panic?
    ensures Evaluate(lib, ar, Div(Var(sym), Const(v)), sym, c) == N.Panic
  {
  }

  /** The test cases `3 + x` at 7 is 10 and `x^2` at 7 is 49, given what
      `powf` returns for 7 and 2. */
  lemma EvaluateExamples(lib: Lib)
    requires lib.powf(7.0, 2.0) == 49.0
    ensures Evaluate(lib, AsWritten, Add(Con(3.0), Var('x')), 'x', N.Real(7.0)) == N.Ok(Con(10.0))
    ensures Evaluate(lib, AsWritten, Square(Var('x')), 'x', N.Real(7.0)) == N.Ok(Con(49.0))
  {
    assert !N.IsInverseDyadic(2.0) by {
      assert 1.0 / 2.0 == 0.5;
    }
  }

  /** The square root of a negative number is imaginary: `sqrt(x)` at `-t`
      is `powf(t, 0.5)` times `i`. */
  lemma SqrtOfNegative(lib: Lib, t: real)
    requires t > 0.0
    ensures Evaluate(lib, AsWritten, Sqrt(Var('x')), 'x', N.Real(-t)) == N.Ok(Const(N.Complex(0.0, lib.powf(t, 0.5))))
  {
    assert N.IsInverseDyadic(0.5) by {
      assert 1.0 / 0.5 == 2.0;
      assert N.IsPowerOfTwo(2);
    }
    assert N.Pow(lib, N.Real(-t), N.Real(0.5)) == N.Complex(0.0, lib.powf(t, 0.5));
  }

  /** The test cases: the square roots of -1, -3 and -4 are `i`,
      `1.7320508075688772 i` and `2i`, given what `powf` returns. */
  lemma SqrtExamples(lib: Lib)
    requires lib.powf(1.0, 0.5) == 1.0
    requires lib.powf(3.0, 0.5) == 1.7320508075688772
    requires lib.powf(4.0, 0.5) == 2.0
    ensures Evaluate(lib, AsWritten, Sqrt(Var('x')), 'x', N.Real(-1.0)) == N.Ok(Const(N.Complex(0.0, 1.0)))
    ensures Evaluate(lib, AsWritten, Sqrt(Var('x')), 'x', N.Real(-3.0)) == N.Ok(Const(N.Complex(0.0, 1.7320508075688772)))
    ensures Evaluate(lib, AsWritten, Sqrt(Var('x')), 'x', N.Real(-4.0)) == N.Ok(Const(N.Complex(0.0, 2.0)))
  {
    SqrtOfNegative(lib, 1.0);
    SqrtOfNegative(lib, 3.0);
    SqrtOfNegative(lib, 4.0);
  }
}
