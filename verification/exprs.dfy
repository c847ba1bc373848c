/**
  The expression tree of the current engine (src/expr/expr.rs): an immutable
  tree over `Number` constants and single-character variables, its queries,
  variable substitution, and the constructor library.

  `NaN` is not a variant of the Rust enum, yet the simplifier returns it for a
  division by the constant zero; the model adds it as a leaf so that the
  simplifier has a value to return. Every wildcard arm of the source covers it.
 */
module Exprs {
  import N = Numbers

  datatype Expr =
    | Const(n: N.Number)
    | Var(name: char)
    | Neg(e: Expr)
    | Add(l: Expr, r: Expr)
    | Sub(l: Expr, r: Expr)
    | Mul(l: Expr, r: Expr)
    | Div(l: Expr, r: Expr)
    | Pow(l: Expr, r: Expr)
    | Sin(e: Expr)
    | Cos(e: Expr)
    | Sinh(e: Expr)
    | Cosh(e: Expr)
    | Asin(e: Expr)
    | Acos(e: Expr)
    | Asinh(e: Expr)
    | Acosh(e: Expr)
    | Ln(e: Expr)
    | Exp(e: Expr)
    | Factorial(e: Expr)
    | Gamma(e: Expr)
    | NaN

  /** The nodes with one child. */
  predicate IsUnary(x: Expr) {
    x.Neg? || x.Sin? || x.Cos? || x.Sinh? || x.Cosh? || x.Asin? || x.Acos? ||
    x.Asinh? || x.Acosh? || x.Ln? || x.Exp? || x.Factorial? || x.Gamma?
  }

  /** The nodes with two children. */
  predicate IsBinary(x: Expr) {
    x.Add? || x.Sub? || x.Mul? || x.Div? || x.Pow?
  }

  /** Number of nodes in the tree. */
  function Size(x: Expr): (n: nat)
    ensures n >= 1
  {
    if IsBinary(x) then 1 + Size(x.l) + Size(x.r)
    else if IsUnary(x) then 1 + Size(x.e)
    else 1
  }

  /** Every variable name that appears anywhere in the tree, under any node. */
  function Vars(x: Expr): set<char> {
    if x.Var? then {x.name}
    else if IsBinary(x) then Vars(x.l) + Vars(x.r)
    else if IsUnary(x) then Vars(x.e)
    else {}
  }

  // ---------------------------------------------------------------------
  // Queries
  // ---------------------------------------------------------------------

  /** `is_const`: the root is a constant. */
  predicate IsConst(x: Expr) {
    match x
    case Const(_) => true
    case _ => false
  }

  /** `is_var`: the root is a variable. */
  predicate IsVar(x: Expr) {
    match x
    case Var(_) => true
    case _ => false
  }

  /** `is_op`: the root is neither a constant nor a variable. */
  predicate IsOp(x: Expr) {
    match x
    case Const(_) => false
    case Var(_) => false
    case _ => true
  }

  /** Exactly one of the three queries holds of every tree, and an operator
      root is a node with children or the `NaN` leaf. */
  lemma QueriesPartition(x: Expr)
    ensures IsOp(x) <==> !IsConst(x) && !IsVar(x)
    ensures !(IsConst(x) && IsVar(x))
    ensures IsOp(x) <==> IsUnary(x) || IsBinary(x) || x == NaN
  {
  }

  /** `has_var(s)`: looks for `Var(s)` below the nodes it knows how to
      descend into. It does not look under the hyperbolic and inverse
      trigonometric nodes, `Factorial` or `Gamma`, which all answer false. */
  predicate HasVar(x: Expr, s: char) {
    match x
    case Var(c) => s == c
    case Neg(i) => HasVar(i, s)
    case Exp(i) => HasVar(i, s)
    case Ln(i) => HasVar(i, s)
    case Sin(i) => HasVar(i, s)
    case Cos(i) => HasVar(i, s)
    case Add(l, r) => HasVar(l, s) || HasVar(r, s)
    case Sub(l, r) => HasVar(l, s) || HasVar(r, s)
    case Mul(l, r) => HasVar(l, s) || HasVar(r, s)
    case Div(l, r) => HasVar(l, s) || HasVar(r, s)
    case Pow(l, r) => HasVar(l, s) || HasVar(r, s)
    case _ => false
  }

  /** The nodes `has_var` does not descend into. */
  predicate IsBlind(x: Expr) {
    x.Sinh? || x.Cosh? || x.Asin? || x.Acos? || x.Asinh? || x.Acosh? ||
    x.Factorial? || x.Gamma?
  }

  /** The tree has no node that `has_var` would not look under. */
  predicate Transparent(x: Expr) {
    !IsBlind(x) &&
    (IsBinary(x) ==> Transparent(x.l) && Transparent(x.r)) &&
    (IsUnary(x) ==> Transparent(x.e))
  }

  /** `has_var` only finds variables that are there, and on trees without
      blind nodes it finds every one of them. */
  lemma {:induction false} HasVarMeans(x: Expr, s: char)
    ensures HasVar(x, s) ==> s in Vars(x)
    ensures Transparent(x) ==> (HasVar(x, s) <==> s in Vars(x))
  {
    if IsBinary(x) {
      HasVarMeans(x.l, s);
      HasVarMeans(x.r, s);
    } else if IsUnary(x) {
      HasVarMeans(x.e, s);
    }
  }

  /** A variable under a blind node is not found. */
  lemma HasVarIsBlindUnderSinh(s: char)
    ensures s in Vars(Sinh(Var(s)))
    ensures !HasVar(Sinh(Var(s)), s)
    ensures !HasVar(Gamma(Var(s)), s)
  {
  }

  // ---------------------------------------------------------------------
  // Substitution
  // ---------------------------------------------------------------------

  /** `substitute(a, b)`: renames `Var(a)` to `Var(b)`. The fallback arm
      returns `Const`, `Ln`, `Factorial`, `Gamma` (and `NaN`) unchanged, so a
      variable under one of those is not renamed. */
  function Substitute(x: Expr, a: char, b: char): (r: Expr)
    ensures Size(r) == Size(x)
  {
    match x
    case Var(c) => if c == a then Var(b) else Var(c)
    case Neg(i) => Neg(Substitute(i, a, b))
    case Exp(i) => Exp(Substitute(i, a, b))
    case Sin(i) => Sin(Substitute(i, a, b))
    case Cos(i) => Cos(Substitute(i, a, b))
    case Sinh(i) => Sinh(Substitute(i, a, b))
    case Cosh(i) => Cosh(Substitute(i, a, b))
    case Asin(i) => Asin(Substitute(i, a, b))
    case Acos(i) => Acos(Substitute(i, a, b))
    case Asinh(i) => Asinh(Substitute(i, a, b))
    case Acosh(i) => Acosh(Substitute(i, a, b))
    case Add(l, r) => Add(Substitute(l, a, b), Substitute(r, a, b))
    case Sub(l, r) => Sub(Substitute(l, a, b), Substitute(r, a, b))
    case Mul(l, r) => Mul(Substitute(l, a, b), Substitute(r, a, b))
    case Div(l, r) => Div(Substitute(l, a, b), Substitute(r, a, b))
    case Pow(l, r) => Pow(Substitute(l, a, b), Substitute(r, a, b))
    case _ => x
  }

  /** Reference renaming: every `Var(a)` leaf becomes `Var(b)`, under every
      node. */
  function Rename(x: Expr, a: char, b: char): (r: Expr)
    ensures Size(r) == Size(x)
  {
    if x.Var? then (if x.name == a then Var(b) else x)
    else if IsBinary(x) then x.(l := Rename(x.l, a, b), r := Rename(x.r, a, b))
    else if IsUnary(x) then x.(e := Rename(x.e, a, b))
    else x
  }

  /** Renaming removes `a` and adds at most `b`. */
  lemma {:induction false} RenameVars(x: Expr, a: char, b: char)
    ensures Vars(Rename(x, a, b)) == if a in Vars(x) then Vars(x) - {a} + {b} else Vars(x)
  {
    if IsBinary(x) {
      RenameVars(x.l, a, b);
      RenameVars(x.r, a, b);
    } else if IsUnary(x) {
      RenameVars(x.e, a, b);
    }
  }

  /** The tree has no node whose subtree `substitute` leaves alone. */
  predicate Substitutable(x: Expr) {
    !(x.Ln? || x.Factorial? || x.Gamma?) &&
    (IsBinary(x) ==> Substitutable(x.l) && Substitutable(x.r)) &&
    (IsUnary(x) ==> Substitutable(x.e))
  }

  /** Renaming a variable to itself changes nothing. */
  lemma {:induction false} SubstituteSelf(x: Expr, a: char)
    ensures Substitute(x, a, a) == x
  {
    if IsBinary(x) {
      SubstituteSelf(x.l, a);
      SubstituteSelf(x.r, a);
    } else if IsUnary(x) && !(x.Ln? || x.Factorial? || x.Gamma?) {
      SubstituteSelf(x.e, a);
    }
  }

  /** Substitution introduces no variable other than `b`. */
  lemma {:induction false} SubstituteVars(x: Expr, a: char, b: char)
    ensures Vars(Substitute(x, a, b)) <= Vars(x) + {b}
  {
    if IsBinary(x) {
      SubstituteVars(x.l, a, b);
      SubstituteVars(x.r, a, b);
    } else if IsUnary(x) && !(x.Ln? || x.Factorial? || x.Gamma?) {
      SubstituteVars(x.e, a, b);
    }
  }

  /** Without `Ln`, `Factorial` or `Gamma` nodes, `substitute` is the full
      renaming: it keeps every node and renames exactly the `Var(a)` leaves. */
  lemma {:induction false} SubstituteIsRename(x: Expr, a: char, b: char)
    requires Substitutable(x)
    ensures Substitute(x, a, b) == Rename(x, a, b)
  {
    if IsBinary(x) {
      SubstituteIsRename(x.l, a, b);
      SubstituteIsRename(x.r, a, b);
    } else if IsUnary(x) {
      SubstituteIsRename(x.e, a, b);
    }
  }

  /** On those trees, after renaming `a` to a different `b`, `has_var(a)` is
      false and `b` is there whenever `a` was. */
  lemma SubstituteRemoves(x: Expr, a: char, b: char)
    requires Substitutable(x) && a != b
    ensures a !in Vars(Substitute(x, a, b))
    ensures !HasVar(Substitute(x, a, b), a)
    ensures a in Vars(x) ==> b in Vars(Substitute(x, a, b))
  {
    SubstituteIsRename(x, a, b);
    RenameVars(x, a, b);
    HasVarMeans(Substitute(x, a, b), a);
  }

  /** The fallback keeps a variable under `Ln`: `ln(a)` renamed is still
      `ln(a)`. */
  lemma SubstituteSkipsLn(a: char, b: char)
    requires a != b
    ensures Substitute(Ln(Var(a)), a, b) == Ln(Var(a))
    ensures HasVar(Substitute(Ln(Var(a)), a, b), a)
  {
  }

  // ---------------------------------------------------------------------
  // Constructors
  // ---------------------------------------------------------------------

  // The ensures clauses of the constructors below record only the shape and
  // the variables of the tree each one builds, for the proofs that use them;
  // what each constructed tree means is stated by the lemmas of Semantics.

  /** `con(v)`: a real constant. */
  function Con(v: real): (r: Expr)
    ensures r.Const? && r.n.Real? && r.n.x == v
  {
    Const(N.Real(v))
  }

  const Zero: Expr := Con(0.0)
  const One: Expr := Con(1.0)
  const Two: Expr := Con(2.0)
  const Pi: Expr := Con(3.14159265359)
  const E: Expr := Con(2.71828182845)

  /** `varf(c, v)`: the variable `c` scaled by `v`, constant first. */
  function Varf(c: char, v: real): (r: Expr)
    ensures forall s :: HasVar(r, s) <==> s == c
    ensures Vars(r) == {c}
  {
    Mul(Con(v), Var(c))
  }

  /** `powf(l, f)`: raise to a real constant. */
  function Powf(x: Expr, f: real): (r: Expr)
    ensures r.Pow? && r.l == x && r.r == Con(f)
    ensures Size(r) == Size(x) + 2
    ensures Vars(r) == Vars(x)
    ensures forall s :: HasVar(r, s) <==> HasVar(x, s)
  {
    Pow(x, Con(f))
  }

  /** `sqrt(e)`: `e` to the power 0.5. */
  function Sqrt(x: Expr): (r: Expr)
    ensures r == Powf(x, 0.5)
    ensures Size(r) == Size(x) + 2
  {
    Pow(x, Con(0.5))
  }

  /** `square(e)`. */
  function Square(x: Expr): (r: Expr)
    ensures r == Powf(x, 2.0)
  {
    Powf(x, 2.0)
  }

  /** `cube(e)`. */
  function Cube(x: Expr): (r: Expr)
    ensures r == Powf(x, 3.0)
  {
    Powf(x, 3.0)
  }

  /** `tan(e)`: no tangent node exists; it is `sin(e) / cos(e)`. */
  function Tan(x: Expr): (r: Expr)
    ensures r.Div? && r.l.Sin? && r.r.Cos? && r.l.e == x && r.r.e == x
    ensures forall s :: HasVar(r, s) <==> HasVar(x, s)
  {
    Div(Sin(x), Cos(x))
  }

  /** `log(base, e)`: the change-of-base quotient `ln(e) / ln(base)`. */
  function Log(base: real, x: Expr): (r: Expr)
    ensures r == Div(Ln(x), Ln(Con(base)))
    ensures forall s :: HasVar(r, s) <==> HasVar(x, s)
  {
    assert forall s :: !HasVar(Ln(Con(base)), s);
    Div(Ln(x), Ln(Con(base)))
  }

  /** `base2(e)`. */
  function Base2(x: Expr): (r: Expr)
    ensures r == Log(2.0, x)
  {
    Div(Ln(x), Ln(Con(2.0)))
  }

  /** `base10(e)`. */
  function Base10(x: Expr): (r: Expr)
    ensures r == Log(10.0, x)
  {
    Div(Ln(x), Ln(Con(10.0)))
  }

  // Operator impls between an `Expr` and an `f64`. `Expr op Expr` is the
  // corresponding datatype constructor, with the operands in order.

  /** `e + v` and `v + e`: the constant is put on the left. */
  function PlusConst(x: Expr, v: real): (r: Expr)
    ensures r == Add(Con(v), x)
    ensures Size(r) == Size(x) + 2
    ensures Vars(r) == Vars(x)
  {
    Add(Con(v), x)
  }

  /** `e * v` and `v * e`: the constant is put on the left. */
  function TimesConst(x: Expr, v: real): (r: Expr)
    ensures r == Mul(Con(v), x)
  {
    Mul(Con(v), x)
  }

  /** `e - v` as written: builds `v - e`, the operands reversed. */
  function MinusConstAsWritten(x: Expr, v: real): (r: Expr)
    ensures r.Sub? && r.l == Con(v) && r.r == x
  {
    Sub(Con(v), x)
  }

  /** `e - v` as evidently intended: `e` minus the constant. */
  function MinusConst(x: Expr, v: real): (r: Expr)
    ensures r.Sub? && r.l == x && r.r == Con(v)
  {
    Sub(x, Con(v))
  }

  /** `v - e`: the constant minus `e`. */
  function ConstMinus(v: real, x: Expr): (r: Expr)
    ensures r.Sub? && r.l == Con(v) && r.r == x
  {
    Sub(Con(v), x)
  }

  /** `e / v`: keeps the order. */
  function OverConst(x: Expr, v: real): (r: Expr)
    ensures r.Div? && r.l == x && r.r == Con(v)
  {
    Div(x, Con(v))
  }

  /** `v / e`: keeps the order. */
  function ConstOver(v: real, x: Expr): (r: Expr)
    ensures r.Div? && r.l == Con(v) && r.r == x
  {
    Div(Con(v), x)
  }

  /** Unary `-e`: multiplication by -1, unlike `neg(e)`, which is `Neg(e)`. */
  function Negate(x: Expr): (r: Expr)
    ensures r == TimesConst(x, -1.0)
    ensures r != Neg(x)
  {
    Mul(Con(-1.0), x)
  }

  /** The `has_var` test cases: `varf('x', 3.0)` has `x`; `varf('y', 3.0)`
      and `con(3.0)` do not. The equality test cases: two constructions of
      `2 + 2`, and two of `sin(x)`, are equal trees. Beyond the tests,
      equality is structural: `2 + x` and `x + 2` are different trees. */
  lemma HasVarExamples()
    ensures HasVar(Varf('x', 3.0), 'x')
    ensures !HasVar(Varf('y', 3.0), 'x')
    ensures !HasVar(Con(3.0), 'x')
    ensures Add(Con(2.0), Con(2.0)) == Add(Con(2.0), Con(2.0))
    ensures Sin(Var('x')) == Sin(Var('x'))
    ensures Add(Con(2.0), Var('x')) != Add(Var('x'), Con(2.0))
  {
  }
}
