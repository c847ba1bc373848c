/**
  The expression tree of the legacy engine (src/calc/expr.rs): `f64`
  constants, single-character variables, a `NaN` leaf and a `Tan` node. Its
  `has_var` descends into every node. The file also holds the first, draft
  `evaluate`, which folds only sums, differences and the three trigonometric
  nodes and answers `NaN` for every other node.
 */
module CalcExprs {
  import opened MathLib

  datatype Expr =
    | NaN
    | Const(v: real)
    | Var(name: char)
    | Neg(e: Expr)
    | Add(l: Expr, r: Expr)
    | Sub(l: Expr, r: Expr)
    | Mul(l: Expr, r: Expr)
    | Div(l: Expr, r: Expr)
    | Pow(l: Expr, r: Expr)
    | Sin(e: Expr)
    | Cos(e: Expr)
    | Tan(e: Expr)
    | Ln(e: Expr)
    | Exp(e: Expr)

  /** The nodes with one child. */
  predicate IsUnary(x: Expr) {
    x.Neg? || x.Sin? || x.Cos? || x.Tan? || x.Ln? || x.Exp?
  }

  /** The nodes with two children. */
  predicate IsBinary(x: Expr) {
    x.Add? || x.Sub? || x.Mul? || x.Div? || x.Pow?
  }

  /** Number of nodes in the tree. */
  function Size(x: Expr): (n: nat)
    ensures n >= 1
  {
    if IsBinary(x) then 1 + Size(x.l) + Size(x.r)
    else if IsUnary(x) then 1 + Size(x.e)
    else 1
  }

  /** Every variable name that appears in the tree. */
  function Vars(x: Expr): set<char> {
    if x.Var? then {x.name}
    else if IsBinary(x) then Vars(x.l) + Vars(x.r)
    else if IsUnary(x) then Vars(x.e)
    else {}
  }

  /** The tree has a `NaN` leaf. */
  predicate HasNaN(x: Expr) {
    x.NaN? ||
    (IsBinary(x) && (HasNaN(x.l) || HasNaN(x.r))) ||
    (IsUnary(x) && HasNaN(x.e))
  }

  // ---------------------------------------------------------------------
  // Queries
  // ---------------------------------------------------------------------

  /** `is_zero`: only the constant 0.0 is zero. */
  predicate IsZero(x: Expr) {
    match x
    case Const(f) => f == 0.0
    case _ => false
  }

  /** `has_var(s)`. Unlike the current engine's, it descends into every
      node that has children. */
  predicate HasVar(x: Expr, s: char) {
    match x
    case Var(c) => s == c
    case Neg(i) => HasVar(i, s)
    case Exp(i) => HasVar(i, s)
    case Ln(i) => HasVar(i, s)
    case Sin(i) => HasVar(i, s)
    case Cos(i) => HasVar(i, s)
    case Tan(i) => HasVar(i, s)
    case Add(l, r) => HasVar(l, s) || HasVar(r, s)
    case Sub(l, r) => HasVar(l, s) || HasVar(r, s)
    case Mul(l, r) => HasVar(l, s) || HasVar(r, s)
    case Div(l, r) => HasVar(l, s) || HasVar(r, s)
    case Pow(l, r) => HasVar(l, s) || HasVar(r, s)
    case _ => false
  }

  /** `has_var` finds exactly the variables of the tree. */
  lemma {:induction false} HasVarMeans(x: Expr, s: char)
    ensures HasVar(x, s) <==> s in Vars(x)
  {
    if IsBinary(x) {
      HasVarMeans(x.l, s);
      HasVarMeans(x.r, s);
    } else if IsUnary(x) {
      HasVarMeans(x.e, s);
    }
  }

  /** `is_zero` holds of the constant 0.0 and of nothing else. */
  lemma IsZeroMeans(x: Expr)
    ensures IsZero(x) <==> x == Const(0.0)
  {
  }

  // ---------------------------------------------------------------------
  // Constructors
  // ---------------------------------------------------------------------

  // The ensures clauses of the constructors below record only the shape and
  // the variables of the tree each one builds, for the proofs that use them;
  // what each constructed tree means is stated by the lemmas of CalcSemantics.

  /** `neg(e)`: multiplication by -1. No constructor builds a `Neg` node. */
  function NegOf(x: Expr): (r: Expr)
    ensures r.Mul? && r.l == Const(-1.0) && r.r == x
    ensures !r.Neg?
    ensures Vars(r) == Vars(x)
    ensures Size(r) == Size(x) + 2
  {
    Mul(Const(-1.0), x)
  }

  /** `varf(v, c)`: the variable `c` scaled by `v`, constant first. */
  function Varf(v: real, c: char): (r: Expr)
    ensures forall s :: HasVar(r, s) <==> s == c
    ensures Vars(r) == {c}
  {
    Mul(Const(v), Var(c))
  }

  /** `powf(l, f)`: raise to a constant. */
  function Powf(x: Expr, f: real): (r: Expr)
    ensures r.Pow? && r.l == x && r.r == Const(f)
    ensures Vars(r) == Vars(x)
  {
    Pow(x, Const(f))
  }

  /** `sqrt(e)`: `e` to the power 0.5. */
  function Sqrt(x: Expr): (r: Expr)
    ensures r == Powf(x, 0.5)
  {
    Pow(x, Const(0.5))
  }

  /** `square(e)`. */
  function Square(x: Expr): (r: Expr)
    ensures r == Powf(x, 2.0)
  {
    Powf(x, 2.0)
  }

  /** `cube(e)`. */
  function Cube(x: Expr): (r: Expr)
    ensures r == Powf(x, 3.0)
  {
    Powf(x, 3.0)
  }

  /** `log(base, e)`: the change-of-base quotient `ln(e) / ln(base)`. */
  function Log(base: real, x: Expr): (r: Expr)
    ensures r.Div? && r.l == Ln(x) && r.r == Ln(Const(base))
    ensures Vars(r) == Vars(x)
  {
    assert Vars(Ln(Const(base))) == {};
    Div(Ln(x), Ln(Const(base)))
  }

  /** The `has_var` test cases: `varf(3.0, 'x')` has `x`; `varf(3.0, 'y')`
      and `con(3.0)` do not. */
  lemma HasVarExamples()
    ensures HasVar(Varf(3.0, 'x'), 'x')
    ensures !HasVar(Varf(3.0, 'y'), 'x')
    ensures !HasVar(Const(3.0), 'x')
  {
  }

  // ---------------------------------------------------------------------
  // The float operations the nodes name
  // ---------------------------------------------------------------------

  /** The `f64` operation a one-child node names; any other node leaves the
      value as it is. */
  function Apply1(lib: Lib, x: Expr, a: real): real {
    match x
    case Neg(_) => -a
    case Sin(_) => lib.sin(a)
    case Cos(_) => lib.cos(a)
    case Tan(_) => lib.tan(a)
    case Ln(_) => lib.ln(a)
    case Exp(_) => lib.exp(a)
    case _ => a
  }

  /** The `f64` operation a two-child node names, operands in order; any
      other node gives the left operand. */
  function Apply2(lib: Lib, x: Expr, a: real, b: real): real {
    match x
    case Add(_, _) => a + b
    case Sub(_, _) => a - b
    case Mul(_, _) => a * b
    case Div(_, _) => FloatDiv(lib, a, b)
    case Pow(_, _) => lib.powf(a, b)
    case _ => a
  }

  /** The one-child node `x` over the new child `a`. */
  function With1(x: Expr, a: Expr): (r: Expr)
    requires IsUnary(x)
    ensures IsUnary(r) && r.e == a
    ensures r.Neg? == x.Neg? && r.Sin? == x.Sin? && r.Cos? == x.Cos? && r.Tan? == x.Tan? && r.Ln? == x.Ln?
  {
    match x
    case Neg(_) => Neg(a)
    case Sin(_) => Sin(a)
    case Cos(_) => Cos(a)
    case Tan(_) => Tan(a)
    case Ln(_) => Ln(a)
    case Exp(_) => Exp(a)
  }

  /** The two-child node `x` over the new children `a` and `b`. */
  function With2(x: Expr, a: Expr, b: Expr): (r: Expr)
    requires IsBinary(x)
    ensures IsBinary(r) && r.l == a && r.r == b
    ensures r.Add? == x.Add? && r.Sub? == x.Sub? && r.Mul? == x.Mul? && r.Div? == x.Div?
  {
    match x
    case Add(_, _) => Add(a, b)
    case Sub(_, _) => Sub(a, b)
    case Mul(_, _) => Mul(a, b)
    case Div(_, _) => Div(a, b)
    case Pow(_, _) => Pow(a, b)
  }

  // ---------------------------------------------------------------------
  // The draft evaluator
  // ---------------------------------------------------------------------

  /** The nodes the draft evaluator has an arm for. */
  predicate DraftNode(x: Expr) {
    x.NaN? || x.Const? || x.Var? || x.Add? || x.Sub? || x.Sin? || x.Cos? || x.Tan?
  }

  /** Trees made only of those nodes. */
  predicate DraftTree(x: Expr) {
    DraftNode(x) &&
    (IsBinary(x) ==> DraftTree(x.l) && DraftTree(x.r)) &&
    (IsUnary(x) ==> DraftTree(x.e))
  }

  /** The draft `evaluate(e, sym, value)` as written. A sum or difference
      whose evaluated operands are a variable other than `sym` on the left
      and a constant on the right is rebuilt constant first, which reverses
      a difference. `Neg`, `Mul`, `Div`, `Pow`, `Ln` and `Exp` become `NaN`
      whatever they hold. */
  function DraftEvaluateAsWritten(lib: Lib, x: Expr, sym: char, value: real): (r: Expr)
    ensures !HasVar(r, sym)
    ensures !DraftNode(x) ==> r == NaN
  {
    if x.NaN? || x.Const? then x
    else if x.Var? then (if x.name == sym then Const(value) else x)
    else if x.Add? || x.Sub? then
      var a := DraftEvaluateAsWritten(lib, x.l, sym, value);
      var b := DraftEvaluateAsWritten(lib, x.r, sym, value);
      if a.Const? && b.Const? then Const(Apply2(lib, x, a.v, b.v))
      else if a.Const? && b.Var? then
        (if b.name == sym then Const(Apply2(lib, x, a.v, value)) else With2(x, a, b))
      else if a.Var? && b.Const? then
        (if a.name == sym then Const(Apply2(lib, x, b.v, value)) else With2(x, b, a))
      else With2(x, a, b)
    else if x.Sin? || x.Cos? || x.Tan? then
      var a := DraftEvaluateAsWritten(lib, x.e, sym, value);
      if a.Const? then Const(Apply1(lib, x, a.v))
      else if a.Var? && a.name == sym then Const(Apply1(lib, x, value))
      else With1(x, a)
    else NaN
  }

  /** The draft evaluator as evidently intended: a partial difference keeps
      its operands in order. */
  function DraftEvaluate(lib: Lib, x: Expr, sym: char, value: real): (r: Expr)
    ensures !HasVar(r, sym)
    ensures !DraftNode(x) ==> r == NaN
  {
    if x.NaN? || x.Const? then x
    else if x.Var? then (if x.name == sym then Const(value) else x)
    else if x.Add? || x.Sub? then
      var a := DraftEvaluate(lib, x.l, sym, value);
      var b := DraftEvaluate(lib, x.r, sym, value);
      if a.Const? && b.Const? then Const(Apply2(lib, x, a.v, b.v))
      else if a.Const? && b.Var? then
        (if b.name == sym then Const(Apply2(lib, x, a.v, value)) else With2(x, a, b))
      else if a.Var? && b.Const? then
        (if a.name == sym then Const(Apply2(lib, x, value, b.v)) else With2(x, a, b))
      else With2(x, a, b)
    else if x.Sin? || x.Cos? || x.Tan? then
      var a := DraftEvaluate(lib, x.e, sym, value);
      if a.Const? then Const(Apply1(lib, x, a.v))
      else if a.Var? && a.name == sym then Const(Apply1(lib, x, value))
      else With1(x, a)
    else NaN
  }

  /** As written, the draft evaluator turns `y - 3` into `3 - y`; the
      corrected one leaves it as it is. */
  lemma DraftEvaluateAsWrittenReverses(lib: Lib)
    ensures DraftEvaluateAsWritten(lib, Sub(Var('y'), Const(3.0)), 'x', 0.0) == Sub(Const(3.0), Var('y'))
    ensures DraftEvaluate(lib, Sub(Var('y'), Const(3.0)), 'x', 0.0) == Sub(Var('y'), Const(3.0))
  {
  }

  /** The draft test case: `3 + x` at 7 is 10. */
  lemma DraftEvaluateExample(lib: Lib)
    ensures DraftEvaluateAsWritten(lib, Add(Const(3.0), Var('x')), 'x', 7.0) == Const(10.0)
    ensures DraftEvaluate(lib, Add(Const(3.0), Var('x')), 'x', 7.0) == Const(10.0)
  {
  }
}
