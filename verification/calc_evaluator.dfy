/**
  The legacy engine's exhaustive one-variable evaluator
  (src/calc/evaluator.rs). Every node has an arm: `Var(sym)` becomes the
  constant `value`, and a node whose evaluated children are all constants
  folds with the `f64` operation it names. A two-child node whose evaluated
  children are a constant and a variable other than `sym` is rebuilt; when
  the variable is on the left and the node is not `Pow`, it is rebuilt with
  the constant first, which reverses a difference or a quotient.
 */
module CalcEvaluator {
  import opened MathLib
  import opened CalcExprs
  import opened CalcSemantics

  /** `evaluate(e, sym, value)` as written. */
  function EvaluateAsWritten(lib: Lib, x: Expr, sym: char, value: real): (r: Expr)
    ensures !HasVar(r, sym)
  {
    if x.NaN? || x.Const? then x
    else if x.Var? then (if x.name == sym then Const(value) else x)
    else if IsUnary(x) then
      var a := EvaluateAsWritten(lib, x.e, sym, value);
      if a.Const? then Const(Apply1(lib, x, a.v))
      else if !x.Neg? && a.Var? && a.name == sym then Const(Apply1(lib, x, value))
      else With1(x, a)
    else
      var a := EvaluateAsWritten(lib, x.l, sym, value);
      var b := EvaluateAsWritten(lib, x.r, sym, value);
      if a.Const? && b.Const? then Const(Apply2(lib, x, a.v, b.v))
      else if a.Const? && b.Var? then
        (if b.name == sym then Const(Apply2(lib, x, a.v, value)) else With2(x, a, b))
      else if a.Var? && b.Const? then
        if x.Pow? then
          (if a.name == sym then Const(Apply2(lib, x, value, b.v)) else With2(x, a, b))
        else
          (if a.name == sym then Const(Apply2(lib, x, b.v, value)) else With2(x, b, a))
      else With2(x, a, b)
  }

  /** `evaluate` as evidently intended: a partial node keeps its operands
      in order. */
  function Evaluate(lib: Lib, x: Expr, sym: char, value: real): (r: Expr)
    ensures !HasVar(r, sym)
  {
    if x.NaN? || x.Const? then x
    else if x.Var? then (if x.name == sym then Const(value) else x)
    else if IsUnary(x) then
      var a := Evaluate(lib, x.e, sym, value);
      if a.Const? then Const(Apply1(lib, x, a.v))
      else if !x.Neg? && a.Var? && a.name == sym then Const(Apply1(lib, x, value))
      else With1(x, a)
    else
      var a := Evaluate(lib, x.l, sym, value);
      var b := Evaluate(lib, x.r, sym, value);
      if a.Const? && b.Const? then Const(Apply2(lib, x, a.v, b.v))
      else if a.Const? && b.Var? then
        (if b.name == sym then Const(Apply2(lib, x, a.v, value)) else With2(x, a, b))
      else if a.Var? && b.Const? then
        (if a.name == sym then Const(Apply2(lib, x, value, b.v)) else With2(x, a, b))
      else With2(x, a, b)
  }

  /** The corrected evaluator keeps the meaning: under any binding, the
      result means what the tree means with `sym` bound to `value`. */
  lemma {:induction false} EvaluatePreservesMeaning(lib: Lib, x: Expr, sym: char, value: real, env: Env)
    ensures Denote(lib, Evaluate(lib, x, sym, value), env) == Denote(lib, x, Bind(env, sym, value))
  {
    if IsBinary(x) {
      EvaluatePreservesMeaning(lib, x.l, sym, value, env);
      EvaluatePreservesMeaning(lib, x.r, sym, value, env);
      EvaluateBinaryStep(lib, x, sym, value, env);
    } else if IsUnary(x) {
      EvaluatePreservesMeaning(lib, x.e, sym, value, env);
      EvaluateUnaryStep(lib, x, sym, value, env);
    }
  }

  lemma EvaluateUnaryStep(lib: Lib, x: Expr, sym: char, value: real, env: Env)
    requires IsUnary(x)
    requires Denote(lib, Evaluate(lib, x.e, sym, value), env) == Denote(lib, x.e, Bind(env, sym, value))
    ensures Denote(lib, Evaluate(lib, x, sym, value), env) == Denote(lib, x, Bind(env, sym, value))
  {
    var a := Evaluate(lib, x.e, sym, value);
    if !a.Const? {
      assert Evaluate(lib, x, sym, value) == With1(x, a);
    }
  }

  lemma EvaluateBinaryStep(lib: Lib, x: Expr, sym: char, value: real, env: Env)
    requires IsBinary(x)
    requires Denote(lib, Evaluate(lib, x.l, sym, value), env) == Denote(lib, x.l, Bind(env, sym, value))
    requires Denote(lib, Evaluate(lib, x.r, sym, value), env) == Denote(lib, x.r, Bind(env, sym, value))
    ensures Denote(lib, Evaluate(lib, x, sym, value), env) == Denote(lib, x, Bind(env, sym, value))
  {
    var a, b := Evaluate(lib, x.l, sym, value), Evaluate(lib, x.r, sym, value);
    if !(a.Const? && b.Const?) {
      assert Evaluate(lib, x, sym, value) == With2(x, a, b);
      With2Denotes(lib, x, a, b, env);
    }
  }

  /** A rebuilt two-child node means the operation of `x` on what its new
      children mean. */
  lemma With2Denotes(lib: Lib, x: Expr, a: Expr, b: Expr, env: Env)
    requires IsBinary(x)
    ensures var p, q := Denote(lib, a, env), Denote(lib, b, env);
      Denote(lib, With2(x, a, b), env)
        == if p.Some? && q.Some? then Some(Apply2(lib, x, p.value, q.value)) else None
  {
    match x
    case Add(_, _) => assert With2(x, a, b) == Add(a, b);
    case Sub(_, _) => assert With2(x, a, b) == Sub(a, b);
    case Mul(_, _) => assert With2(x, a, b) == Mul(a, b);
    case Div(_, _) => assert With2(x, a, b) == Div(a, b);
    case Pow(_, _) => assert With2(x, a, b) == Pow(a, b);
  }

  /** The tree has no difference or quotient node. */
  predicate NoSubDiv(x: Expr) {
    !x.Sub? && !x.Div? &&
    (IsBinary(x) ==> NoSubDiv(x.l) && NoSubDiv(x.r)) &&
    (IsUnary(x) ==> NoSubDiv(x.e))
  }

  /** Where the reversal cannot matter, because every reversed node is a sum
      or a product, the evaluator as written keeps the meaning too. */
  lemma {:induction false} EvaluateAsWrittenWithoutSubDiv(lib: Lib, x: Expr, sym: char, value: real, env: Env)
    requires NoSubDiv(x)
    ensures Denote(lib, EvaluateAsWritten(lib, x, sym, value), env) == Denote(lib, x, Bind(env, sym, value))
  {
    if IsBinary(x) {
      EvaluateAsWrittenWithoutSubDiv(lib, x.l, sym, value, env);
      EvaluateAsWrittenWithoutSubDiv(lib, x.r, sym, value, env);
      var a, b := EvaluateAsWritten(lib, x.l, sym, value), EvaluateAsWritten(lib, x.r, sym, value);
      if a.Const? && b.Const? {
      } else if a.Var? && b.Const? && !x.Pow? {
        assert a.name != sym;
        assert EvaluateAsWritten(lib, x, sym, value) == With2(x, b, a);
        assert x.Add? || x.Mul?;
        assert Apply2(lib, x, b.v, env(a.name)) == Apply2(lib, x, env(a.name), b.v);
      } else {
        assert EvaluateAsWritten(lib, x, sym, value) == With2(x, a, b);
      }
    } else if IsUnary(x) {
      EvaluateAsWrittenWithoutSubDiv(lib, x.e, sym, value, env);
      var a := EvaluateAsWritten(lib, x.e, sym, value);
      if !a.Const? {
        assert EvaluateAsWritten(lib, x, sym, value) == With1(x, a);
      }
    }
  }

  /** The reversal changes the meaning: evaluating `y - 3` for `x` gives
      `3 - y`, and `y / 2` gives `2 / y`; with `y` bound to 1 these mean 2
      and 2 where the originals mean -2 and 0.5. */
  lemma EvaluateAsWrittenReverses(lib: Lib, env: Env)
    requires env('y') == 1.0
    ensures EvaluateAsWritten(lib, Sub(Var('y'), Const(3.0)), 'x', 0.0) == Sub(Const(3.0), Var('y'))
    ensures Denote(lib, Sub(Const(3.0), Var('y')), env) == Some(2.0)
    ensures Denote(lib, Sub(Var('y'), Const(3.0)), Bind(env, 'x', 0.0)) == Some(-2.0)
    ensures EvaluateAsWritten(lib, Div(Var('y'), Const(2.0)), 'x', 0.0) == Div(Const(2.0), Var('y'))
    ensures Denote(lib, Div(Const(2.0), Var('y')), env) == Some(2.0)
    ensures Denote(lib, Div(Var('y'), Const(2.0)), Bind(env, 'x', 0.0)) == Some(0.5)
    ensures Evaluate(lib, Sub(Var('y'), Const(3.0)), 'x', 0.0) == Sub(Var('y'), Const(3.0))
  {
    var w := Bind(env, 'x', 0.0);
    assert Denote(lib, Var('y'), w) == Some(1.0);
    assert Denote(lib, Var('y'), env) == Some(1.0);
  }

  /** A tree with no `NaN` and no variable other than `sym` evaluates to a
      single constant, the same for both evaluators. */
  lemma {:induction false} ClosedTreeFolds(lib: Lib, x: Expr, sym: char, value: real)
    requires !HasNaN(x) && Vars(x) <= {sym}
    ensures Evaluate(lib, x, sym, value).Const?
    ensures EvaluateAsWritten(lib, x, sym, value) == Evaluate(lib, x, sym, value)
  {
    if IsBinary(x) {
      ClosedTreeFolds(lib, x.l, sym, value);
      ClosedTreeFolds(lib, x.r, sym, value);
    } else if IsUnary(x) {
      ClosedTreeFolds(lib, x.e, sym, value);
    }
  }

  /** The constant a closed tree folds to is its value. */
  lemma ClosedTreeValue(lib: Lib, x: Expr, sym: char, value: real, env: Env)
    requires !HasNaN(x) && Vars(x) <= {sym}
    ensures var r := EvaluateAsWritten(lib, x, sym, value);
      r.Const? && Denote(lib, x, Bind(env, sym, value)) == Some(r.v)
  {
    ClosedTreeFolds(lib, x, sym, value);
    EvaluatePreservesMeaning(lib, x, sym, value, env);
  }

  /** A tree in which `has_var` finds no `sym` evaluates the same for every
      value. */
  lemma {:induction false} EvaluateIgnoresAbsentVar(lib: Lib, x: Expr, sym: char, v: real, w: real)
    requires !HasVar(x, sym)
    ensures Evaluate(lib, x, sym, v) == Evaluate(lib, x, sym, w)
  {
    if IsBinary(x) {
      EvaluateIgnoresAbsentVar(lib, x.l, sym, v, w);
      EvaluateIgnoresAbsentVar(lib, x.r, sym, v, w);
    } else if IsUnary(x) {
      EvaluateIgnoresAbsentVar(lib, x.e, sym, v, w);
    }
  }

  /** The same holds of the evaluator as written. */
  lemma {:induction false} EvaluateAsWrittenIgnoresAbsentVar(lib: Lib, x: Expr, sym: char, v: real, w: real)
    requires !HasVar(x, sym)
    ensures EvaluateAsWritten(lib, x, sym, v) == EvaluateAsWritten(lib, x, sym, w)
  {
    if IsBinary(x) {
      EvaluateAsWrittenIgnoresAbsentVar(lib, x.l, sym, v, w);
      EvaluateAsWrittenIgnoresAbsentVar(lib, x.r, sym, v, w);
    } else if IsUnary(x) {
      EvaluateAsWrittenIgnoresAbsentVar(lib, x.e, sym, v, w);
    }
  }

  /** Evaluating a result again for the same variable changes nothing. */
  lemma {:induction false} EvaluateIsIdempotent(lib: Lib, x: Expr, sym: char, v: real, w: real)
    ensures Evaluate(lib, Evaluate(lib, x, sym, v), sym, w) == Evaluate(lib, x, sym, v)
  {
    if IsBinary(x) {
      EvaluateIsIdempotent(lib, x.l, sym, v, w);
      EvaluateIsIdempotent(lib, x.r, sym, v, w);
    } else if IsUnary(x) {
      EvaluateIsIdempotent(lib, x.e, sym, v, w);
    }
  }

  /** The same holds of the evaluator as written. */
  lemma {:induction false} EvaluateAsWrittenIsIdempotent(lib: Lib, x: Expr, sym: char, v: real, w: real)
    ensures EvaluateAsWritten(lib, EvaluateAsWritten(lib, x, sym, v), sym, w) == EvaluateAsWritten(lib, x, sym, v)
  {
    if IsBinary(x) {
      EvaluateAsWrittenIsIdempotent(lib, x.l, sym, v, w);
      EvaluateAsWrittenIsIdempotent(lib, x.r, sym, v, w);
    } else if IsUnary(x) {
      EvaluateAsWrittenIsIdempotent(lib, x.e, sym, v, w);
    }
  }

  /** On the nodes it has arms for, the draft evaluator of src/calc/expr.rs
      computes what the exhaustive one computes, reversal included. */
  lemma {:induction false} DraftAgrees(lib: Lib, x: Expr, sym: char, value: real)
    requires DraftTree(x)
    ensures DraftEvaluateAsWritten(lib, x, sym, value) == EvaluateAsWritten(lib, x, sym, value)
    ensures DraftEvaluate(lib, x, sym, value) == Evaluate(lib, x, sym, value)
  {
    DraftAsWrittenAgrees(lib, x, sym, value);
    DraftCorrectedAgrees(lib, x, sym, value);
  }

  lemma {:induction false} DraftAsWrittenAgrees(lib: Lib, x: Expr, sym: char, value: real)
    requires DraftTree(x)
    ensures DraftEvaluateAsWritten(lib, x, sym, value) == EvaluateAsWritten(lib, x, sym, value)
  {
    if IsBinary(x) {
      DraftAsWrittenAgrees(lib, x.l, sym, value);
      DraftAsWrittenAgrees(lib, x.r, sym, value);
    } else if IsUnary(x) {
      DraftAsWrittenAgrees(lib, x.e, sym, value);
    }
  }

  lemma {:induction false} DraftCorrectedAgrees(lib: Lib, x: Expr, sym: char, value: real)
    requires DraftTree(x)
    ensures DraftEvaluate(lib, x, sym, value) == Evaluate(lib, x, sym, value)
  {
    if IsBinary(x) {
      DraftCorrectedAgrees(lib, x.l, sym, value);
      DraftCorrectedAgrees(lib, x.r, sym, value);
    } else if IsUnary(x) {
      DraftCorrectedAgrees(lib, x.e, sym, value);
    }
  }

  /** The corrected draft evaluator keeps the meaning of the trees it has
      arms for. */
  lemma DraftEvaluatePreservesMeaning(lib: Lib, x: Expr, sym: char, value: real, env: Env)
    requires DraftTree(x)
    ensures Denote(lib, DraftEvaluate(lib, x, sym, value), env) == Denote(lib, x, Bind(env, sym, value))
  {
    DraftAgrees(lib, x, sym, value);
    EvaluatePreservesMeaning(lib, x, sym, value, env);
  }

  /** The test case: `3 + x` at 7 is 10. */
  lemma EvaluateExample(lib: Lib)
    ensures EvaluateAsWritten(lib, Add(Const(3.0), Var('x')), 'x', 7.0) == Const(10.0)
  {
  }
}
