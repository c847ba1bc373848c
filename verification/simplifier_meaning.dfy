/**
  What the current simplifier preserves. On polynomial trees (real
  constants, variables, `Neg`, `+`, `-`, `*`, and powers by whole-number
  exponents) under a binding of every variable to a real number, the
  simplified tree means the same number as the original, provided `powf`
  is exact on whole-number exponents. The subtraction the simplifier folds
  with is the program's, which agrees with the corrected one on real
  constants, and its trigonometric arm never applies to a polynomial.
  Outside that fragment the rules are
  not meaning-preserving in general: `0 * e` drops a crash in `e`, `e / 0`
  becomes `NaN`, and the `Number` operations treat `Real(x)` and
  `Complex(x, 0)` differently.
 */
module SimplifierMeaning {
  import opened MathLib
  import N = Numbers
  import opened Exprs
  import opened Semantics
  import opened Simplifier

  /** `t` to the natural power `k`, by repeated multiplication. */
  function Power(t: real, k: nat): real {
    if k == 0 then 1.0 else t * Power(t, k - 1)
  }

  /** A whole number of at least 1. */
  predicate IsWhole(p: real) {
    p >= 1.0 && p.Floor as real == p
  }

  /** `powf` agrees with repeated multiplication on whole exponents. */
  ghost predicate ExactPowers(lib: Lib) {
    forall t: real, p: real {:trigger lib.powf(t, p)} :: IsWhole(p) ==> lib.powf(t, p) == Power(t, p.Floor as nat)
  }

  /** Every variable is bound to a real number. */
  ghost predicate RealEnv(env: Env) {
    forall c :: env(c).Real?
  }

  /** Exponent trees: sums of whole-number constants. */
  predicate Whole(e: Expr) {
    match e
    case Const(n) => n.Real? && IsWhole(n.x)
    case Add(a, b) => Whole(a) && Whole(b)
    case _ => false
  }

  /** Polynomial trees. */
  predicate Poly(x: Expr) {
    match x
    case Const(n) => n.Real?
    case Var(_) => true
    case Neg(i) => Poly(i)
    case Add(a, b) => Poly(a) && Poly(b)
    case Sub(a, b) => Poly(a) && Poly(b)
    case Mul(a, b) => Poly(a) && Poly(b)
    case Pow(a, p) => Poly(a) && Whole(p)
    case _ => false
  }

  /** The real number a polynomial tree stands for. */
  function Eval(lib: Lib, x: Expr, env: Env): real
    requires Poly(x) || Whole(x)
  {
    match x
    case Const(n) => n.x
    case Var(c) => N.RealPart(env(c))
    case Neg(i) => -Eval(lib, i, env)
    case Add(a, b) => Eval(lib, a, env) + Eval(lib, b, env)
    case Sub(a, b) => Eval(lib, a, env) - Eval(lib, b, env)
    case Mul(a, b) => Eval(lib, a, env) * Eval(lib, b, env)
    case Pow(a, p) => lib.powf(Eval(lib, a, env), Eval(lib, p, env))
  }

  /** The base-2 logarithm of a whole number is never negative, so `pow`
      does not take its branch cut. */
  lemma WholeIsNotInverseDyadic(p: real)
    requires IsWhole(p)
    ensures !N.IsInverseDyadic(p)
  {
    if p > 0.0 {
      var q := 1.0 / p;
      assert q * p == 1.0;
      assert q <= 1.0;
    }
  }

  /** An exponent tree stands for a whole number and simplifies to it. */
  lemma {:induction false} WholeSimplifies(lib: Lib, p: Expr, env: Env)
    requires Whole(p)
    ensures IsWhole(Eval(lib, p, env))
    ensures Simplify(p) == Con(Eval(lib, p, env))
  {
    match p
    case Const(n) =>
    case Add(a, b) =>
      WholeSimplifies(lib, a, env);
      WholeSimplifies(lib, b, env);
      WholeSum(Eval(lib, a, env), Eval(lib, b, env));
      assert Simplify(p) == SimplifyAdd(p);
  }

  lemma WholeSum(a: real, b: real)
    requires IsWhole(a) && IsWhole(b)
    ensures IsWhole(a + b)
  {
    var i, j := a.Floor, b.Floor;
    assert a == i as real && b == j as real;
    var k := i + j;
    assert a + b == k as real;
    assert (k as real).Floor == k;
  }

  /** On polynomial trees under a real binding, the meaning is the real
      number `Eval` computes, in either arithmetic. */
  lemma {:induction false} DenoteOfPoly(lib: Lib, ar: Arith, x: Expr, env: Env)
    requires Poly(x) && RealEnv(env)
    ensures Denote(lib, ar, x, env) == Value(N.Real(Eval(lib, x, env)))
  {
    match x
    case Const(_) =>
    case Var(c) => assert env(c).Real?;
    case Neg(i) => DenoteOfPoly(lib, ar, i, env); DenoteOfNeg(lib, ar, x, env);
    case Add(a, b) => DenoteOfPoly(lib, ar, a, env); DenoteOfPoly(lib, ar, b, env); DenoteOfArith(lib, ar, x, env);
    case Sub(a, b) => DenoteOfPoly(lib, ar, a, env); DenoteOfPoly(lib, ar, b, env); DenoteOfArith(lib, ar, x, env);
    case Mul(a, b) => DenoteOfPoly(lib, ar, a, env); DenoteOfPoly(lib, ar, b, env); DenoteOfArith(lib, ar, x, env);
    case Pow(a, p) =>
      DenoteOfPoly(lib, ar, a, env);
      DenoteOfPower(lib, ar, x, env);
  }

  lemma DenoteOfNeg(lib: Lib, ar: Arith, x: Expr, env: Env)
    requires x.Neg? && Poly(x)
    requires Denote(lib, ar, x.e, env) == Value(N.Real(Eval(lib, x.e, env)))
    ensures Denote(lib, ar, x, env) == Value(N.Real(Eval(lib, x, env)))
  {
  }

  lemma DenoteOfArith(lib: Lib, ar: Arith, x: Expr, env: Env)
    requires (x.Add? || x.Sub? || x.Mul?) && Poly(x)
    requires Denote(lib, ar, x.l, env) == Value(N.Real(Eval(lib, x.l, env)))
    requires Denote(lib, ar, x.r, env) == Value(N.Real(Eval(lib, x.r, env)))
    ensures Denote(lib, ar, x, env) == Value(N.Real(Eval(lib, x, env)))
  {
  }

  lemma DenoteOfPower(lib: Lib, ar: Arith, x: Expr, env: Env)
    requires x.Pow? && Poly(x) && Denote(lib, ar, x.l, env) == Value(N.Real(Eval(lib, x.l, env)))
    ensures Denote(lib, ar, x, env) == Value(N.Real(Eval(lib, x, env)))
  {
    WholeDenotes(lib, ar, x.r, env);
    WholeSimplifies(lib, x.r, env);
    var t, k := Eval(lib, x.l, env), Eval(lib, x.r, env);
    WholeIsNotInverseDyadic(k);
    assert N.Pow(lib, N.Real(t), N.Real(k)) == N.Real(lib.powf(t, k));
  }

  /** An exponent tree means the whole number it stands for. */
  lemma {:induction false} WholeDenotes(lib: Lib, ar: Arith, p: Expr, env: Env)
    requires Whole(p)
    ensures Denote(lib, ar, p, env) == Value(N.Real(Eval(lib, p, env)))
  {
    match p
    case Const(_) =>
    case Add(a, b) => WholeDenotes(lib, ar, a, env); WholeDenotes(lib, ar, b, env);
  }

  /** The facts about `powf` the merging rules rely on. */
  lemma PowerFacts(lib: Lib, t: real, k: real)
    requires ExactPowers(lib) && IsWhole(k)
    ensures lib.powf(t, 1.0) == t
    ensures lib.powf(t, 2.0) == t * t
    ensures lib.powf(t, 1.0 + k) == t * lib.powf(t, k)
  {
    assert IsWhole(1.0) && IsWhole(2.0) && IsWhole(1.0 + k);
    assert lib.powf(t, 1.0) == Power(t, 1);
    assert lib.powf(t, 2.0) == Power(t, 2);
    var n: nat := k.Floor as nat;
    assert (1.0 + k).Floor as nat == n + 1;
    assert lib.powf(t, 1.0 + k) == Power(t, n + 1);
  }

  /** Simplification keeps a polynomial tree polynomial and keeps the
      number it stands for. */
  lemma {:induction false} SimplifyKeepsValue(lib: Lib, x: Expr, env: Env)
    requires Poly(x) && ExactPowers(lib)
    ensures Poly(Simplify(x)) && Eval(lib, Simplify(x), env) == Eval(lib, x, env)
    decreases Size(x), 2
  {
    match x
    case Const(_) =>
    case Var(_) =>
    case Neg(i) => SimplifyKeepsValue(lib, i, env);
    case Add(_, _) => AddKeepsValue(lib, x, env);
    case Sub(_, _) => SubKeepsValue(lib, x, env);
    case Mul(_, _) => MulKeepsValue(lib, x, env);
    case Pow(l, r) =>
      SimplifyKeepsValue(lib, l, env);
      WholeSimplifies(lib, r, env);
      if r.Const? && N.RealEq(r.n, 1.0) {
        PowerFacts(lib, Eval(lib, l, env), 1.0);
      }
  }

  lemma {:induction false} AddKeepsValue(lib: Lib, x: Expr, env: Env)
    requires x.Add? && Poly(x) && ExactPowers(lib)
    ensures Poly(Simplify(x)) && Eval(lib, Simplify(x), env) == Eval(lib, x, env)
    decreases Size(x), 1
  {
    assert Simplify(x) == SimplifyAdd(x);
    var a, b := Simplify(x.l), Simplify(x.r);
    SimplifyKeepsValue(lib, x.l, env);
    SimplifyKeepsValue(lib, x.r, env);
    if a.Const? && b.Const? {
    } else if a.Const? {
      SimplifyKeepsValue(lib, b, env);
    } else if b.Const? {
      SimplifyKeepsValue(lib, a, env);
    } else if a.Pow? && b.Pow? {
      // A polynomial has no `cos` or `sin`, so the trigonometric arm
      // rebuilds the sum.
      assert TrigArmAsWritten(a.l, a.r, b.l, b.r) == Add(a, b);
    }
  }

  lemma {:induction false} SubKeepsValue(lib: Lib, x: Expr, env: Env)
    requires x.Sub? && Poly(x) && ExactPowers(lib)
    ensures Poly(Simplify(x)) && Eval(lib, Simplify(x), env) == Eval(lib, x, env)
    decreases Size(x), 1
  {
    assert Simplify(x) == SimplifySub(x);
    var a, b := Simplify(x.l), Simplify(x.r);
    SimplifyKeepsValue(lib, x.l, env);
    SimplifyKeepsValue(lib, x.r, env);
    if a.Const? || b.Const? {
      SubConstantKeepsValue(lib, x, env);
    } else if b.Neg? {
      SubNegKeepsValue(lib, x, env);
    } else {
      SimplifyKeepsValue(lib, a, env);
      SimplifyKeepsValue(lib, b, env);
      assert SimplifySub(x) == Sub(Simplify(a), Simplify(b));
      DifferenceOfEqualValues(lib, x.l, x.r, Simplify(a), Simplify(b), env);
    }
  }

  /** The constant rules of `Sub`: `c - d` folds, `0 - b` is `-b` and
      `a - 0` is `a`. */
  lemma {:induction false} SubConstantKeepsValue(lib: Lib, x: Expr, env: Env)
    requires x.Sub? && Poly(x) && ExactPowers(lib)
    requires Simplify(x.l).Const? || Simplify(x.r).Const?
    ensures Poly(SimplifySub(x)) && Eval(lib, SimplifySub(x), env) == Eval(lib, x, env)
    decreases Size(x), 0
  {
    var l, r := x.l, x.r;
    assert x == Sub(l, r);
    var a, b := Simplify(l), Simplify(r);
    SimplifyKeepsValue(lib, l, env);
    SimplifyKeepsValue(lib, r, env);
    if a.Const? && b.Const? {
      assert SimplifySub(x) == Con(a.n.x - b.n.x);
    } else if a.Const? {
      SimplifyKeepsValue(lib, b, env);
      if N.IsZero(a.n) {
        assert SimplifySub(x) == Neg(Simplify(b));
        assert Eval(lib, l, env) == 0.0;
      } else {
        assert SimplifySub(x) == Sub(a, Simplify(b));
        DifferenceOfEqualValues(lib, l, r, a, Simplify(b), env);
      }
    } else {
      SimplifyKeepsValue(lib, a, env);
      if N.IsZero(b.n) {
        assert SimplifySub(x) == Simplify(a);
        assert Eval(lib, r, env) == 0.0;
      } else {
        assert SimplifySub(x) == Sub(Simplify(a), b);
        DifferenceOfEqualValues(lib, l, r, Simplify(a), b, env);
      }
    }
  }

  /** `a - (-i)` is the simplified `a + i`. */
  lemma {:induction false} SubNegKeepsValue(lib: Lib, x: Expr, env: Env)
    requires x.Sub? && Poly(x) && ExactPowers(lib)
    requires !Simplify(x.l).Const? && !Simplify(x.r).Const? && Simplify(x.r).Neg?
    ensures Poly(SimplifySub(x)) && Eval(lib, SimplifySub(x), env) == Eval(lib, x, env)
    decreases Size(x), 0
  {
    var l, r := x.l, x.r;
    assert x == Sub(l, r);
    var a, b := Simplify(l), Simplify(r);
    SimplifyKeepsValue(lib, l, env);
    SimplifyKeepsValue(lib, r, env);
    assert Size(b) == 1 + Size(b.e);
    SimplifyKeepsValue(lib, a, env);
    SimplifyKeepsValue(lib, b.e, env);
    var y := Add(Simplify(a), Simplify(b.e));
    SimplifyKeepsValue(lib, y, env);
    assert SimplifySub(x) == Simplify(y);
    assert Eval(lib, y, env) == Eval(lib, l, env) + Eval(lib, b.e, env);
    assert Eval(lib, r, env) == -Eval(lib, b.e, env);
  }

  lemma DifferenceOfEqualValues(lib: Lib, a: Expr, b: Expr, c: Expr, d: Expr, env: Env)
    requires Poly(a) && Poly(b) && Poly(c) && Poly(d)
    requires Eval(lib, c, env) == Eval(lib, a, env) && Eval(lib, d, env) == Eval(lib, b, env)
    ensures Eval(lib, Sub(c, d), env) == Eval(lib, Sub(a, b), env)
  {
    var ea, eb := Eval(lib, a, env), Eval(lib, b, env);
    assert Eval(lib, Sub(c, d), env) == Eval(lib, c, env) - Eval(lib, d, env);
    assert Eval(lib, Sub(a, b), env) == ea - eb;
  }

  lemma {:induction false} MulKeepsValue(lib: Lib, x: Expr, env: Env)
    requires x.Mul? && Poly(x) && ExactPowers(lib)
    ensures Poly(Simplify(x)) && Eval(lib, Simplify(x), env) == Eval(lib, x, env)
    decreases Size(x), 1
  {
    assert Simplify(x) == SimplifyMul(x);
    SimplifyKeepsValue(lib, x.l, env);
    SimplifyKeepsValue(lib, x.r, env);
    if x.l.Const? || x.r.Const? {
      MulByConstantKeepsValue(lib, x, env);
    } else {
      MulMergeKeepsValue(lib, x, env);
    }
  }

  /** The constant-factor rules of `Mul`, given that simplifying either
      side keeps its value. */
  lemma MulByConstantKeepsValue(lib: Lib, x: Expr, env: Env)
    requires x.Mul? && Poly(x) && (x.l.Const? || x.r.Const?)
    requires Poly(Simplify(x.l)) && Eval(lib, Simplify(x.l), env) == Eval(lib, x.l, env)
    requires Poly(Simplify(x.r)) && Eval(lib, Simplify(x.r), env) == Eval(lib, x.r, env)
    ensures Poly(SimplifyMul(x)) && Eval(lib, SimplifyMul(x), env) == Eval(lib, x, env)
  {
    var l, r := x.l, x.r;
    if l.Const? && r.Const? {
      assert SimplifyMul(x) == Con(l.n.x * r.n.x);
    } else if l.Const? {
      var c, t := l.n.x, Eval(lib, r, env);
      assert SimplifyMul(x) == Scale(N.Real(c), Simplify(r));
      ScaleKeepsValue(lib, c, r, Simplify(r), env);
      assert x == Mul(Con(c), r);
    } else {
      var c, t := r.n.x, Eval(lib, l, env);
      assert SimplifyMul(x) == Scale(N.Real(c), Simplify(l));
      ScaleKeepsValue(lib, c, l, Simplify(l), env);
      assert x == Mul(l, Con(c));
    }
  }

  /** A real factor `c` times the simplified `s` of `e` has the value of
      `c * e`. */
  lemma ScaleKeepsValue(lib: Lib, c: real, e: Expr, s: Expr, env: Env)
    requires Poly(e) && Poly(s) && Eval(lib, s, env) == Eval(lib, e, env)
    ensures Poly(Scale(N.Real(c), s))
    ensures Eval(lib, Scale(N.Real(c), s), env) == Eval(lib, Mul(Con(c), e), env)
    ensures Eval(lib, Scale(N.Real(c), s), env) == Eval(lib, Mul(e, Con(c)), env)
  {
    var t := Eval(lib, e, env);
    assert Eval(lib, Mul(Con(c), e), env) == c * t;
    assert Eval(lib, Mul(e, Con(c)), env) == t * c;
    if c == 0.0 {
      assert Scale(N.Real(c), s) == Zero;
    } else if c == 1.0 {
      assert Scale(N.Real(c), s) == s;
    } else if c == -1.0 {
      assert Scale(N.Real(c), s) == Neg(s);
    } else {
      assert Scale(N.Real(c), s) == Mul(Con(c), s);
    }
  }

  /** The merging rules of `Mul`, given that simplifying either side keeps
      its value. */
  lemma MulMergeKeepsValue(lib: Lib, x: Expr, env: Env)
    requires x.Mul? && Poly(x) && ExactPowers(lib) && !x.l.Const? && !x.r.Const?
    requires Poly(Simplify(x.l)) && Eval(lib, Simplify(x.l), env) == Eval(lib, x.l, env)
    requires Poly(Simplify(x.r)) && Eval(lib, Simplify(x.r), env) == Eval(lib, x.r, env)
    ensures Poly(SimplifyMul(x)) && Eval(lib, SimplifyMul(x), env) == Eval(lib, x, env)
  {
    var l, r := x.l, x.r;
    assert x == Mul(l, r);
    if r.Neg? {
      if l == r.e {
        assert SimplifyMul(x) == Neg(Powf(l, 2.0));
        SquareKeepsValue(lib, l, env);
      } else {
        assert SimplifyMul(x) == x;
      }
    } else if l.Neg? {
      if l.e == r {
        assert SimplifyMul(x) == Neg(Powf(r, 2.0));
        SquareKeepsValue(lib, r, env);
      } else {
        assert SimplifyMul(x) == x;
      }
    } else if l.Var? && r.Var? {
      if l == r {
        assert SimplifyMul(x) == Powf(l, 2.0);
        SquareKeepsValue(lib, l, env);
      } else {
        assert SimplifyMul(x) == x;
      }
    } else if r.Pow? {
      if l == r.l {
        assert SimplifyMul(x) == Pow(l, PlusConst(r.r, 1.0));
        assert r == Pow(l, r.r);
        PowerMergeKeepsValue(lib, l, r.r, env);
      } else {
        assert SimplifyMul(x) == x;
      }
    } else if l.Pow? {
      if l.l == r {
        assert SimplifyMul(x) == Pow(r, PlusConst(l.r, 1.0));
        assert l == Pow(r, l.r);
        PowerMergeKeepsValue(lib, r, l.r, env);
      } else {
        assert SimplifyMul(x) == Mul(r, l);
        ProductCommutes(lib, l, r, env);
      }
    } else if l == r {
      assert SimplifyMul(x) == Powf(l, 2.0);
      SquareKeepsValue(lib, l, env);
    } else {
      assert SimplifyMul(x) == Mul(Simplify(l), Simplify(r));
      ProductOfEqualValues(lib, l, r, Simplify(l), Simplify(r), env);
    }
  }

  lemma ProductCommutes(lib: Lib, a: Expr, b: Expr, env: Env)
    requires Poly(a) && Poly(b)
    ensures Eval(lib, Mul(b, a), env) == Eval(lib, Mul(a, b), env)
  {
  }

  lemma ProductOfEqualValues(lib: Lib, a: Expr, b: Expr, c: Expr, d: Expr, env: Env)
    requires Poly(a) && Poly(b) && Poly(c) && Poly(d)
    requires Eval(lib, c, env) == Eval(lib, a, env) && Eval(lib, d, env) == Eval(lib, b, env)
    ensures Eval(lib, Mul(c, d), env) == Eval(lib, Mul(a, b), env)
  {
    var ea, eb := Eval(lib, a, env), Eval(lib, b, env);
    assert Eval(lib, Mul(c, d), env) == Eval(lib, c, env) * Eval(lib, d, env);
    assert Eval(lib, Mul(a, b), env) == ea * eb;
  }

  /** `e * e` merged into `e^2`, and `e * -e` into `-(e^2)`, keep the
      value. */
  lemma SquareKeepsValue(lib: Lib, e: Expr, env: Env)
    requires Poly(e) && ExactPowers(lib)
    ensures Poly(Powf(e, 2.0)) && Eval(lib, Powf(e, 2.0), env) == Eval(lib, Mul(e, e), env)
    ensures Eval(lib, Neg(Powf(e, 2.0)), env) == Eval(lib, Mul(e, Neg(e)), env)
    ensures Eval(lib, Neg(Powf(e, 2.0)), env) == Eval(lib, Mul(Neg(e), e), env)
  {
    PowerFacts(lib, Eval(lib, e, env), 1.0);
  }

  /** `e * e^p` and `e^p * e` merged into `e^(1 + p)` keep the value. */
  lemma PowerMergeKeepsValue(lib: Lib, e: Expr, p: Expr, env: Env)
    requires Poly(e) && Whole(p) && ExactPowers(lib)
    ensures Poly(Pow(e, PlusConst(p, 1.0)))
    ensures Eval(lib, Pow(e, PlusConst(p, 1.0)), env) == Eval(lib, Mul(e, Pow(e, p)), env)
    ensures Eval(lib, Pow(e, PlusConst(p, 1.0)), env) == Eval(lib, Mul(Pow(e, p), e), env)
  {
    WholeSimplifies(lib, p, env);
    var t, k := Eval(lib, e, env), Eval(lib, p, env);
    PowerFacts(lib, t, k);
    var q := PlusConst(p, 1.0);
    assert IsWhole(1.0) && q == Add(Con(1.0), p) && Whole(q);
    assert Eval(lib, q, env) == 1.0 + k;
    assert Eval(lib, Pow(e, q), env) == lib.powf(t, 1.0 + k);
    var m := lib.powf(t, k);
    assert Eval(lib, Pow(e, p), env) == m;
    assert Eval(lib, Mul(e, Pow(e, p)), env) == t * m;
    assert Eval(lib, Mul(Pow(e, p), e), env) == m * t;
  }

  /** The simplifier keeps the meaning of every polynomial tree under every
      real binding. */
  lemma SimplifyPreservesMeaning(lib: Lib, x: Expr, env: Env)
    requires Poly(x) && RealEnv(env) && ExactPowers(lib)
    ensures Denote(lib, AsWritten, Simplify(x), env) == Denote(lib, AsWritten, x, env)
    ensures Denote(lib, Corrected, Simplify(x), env) == Denote(lib, Corrected, x, env)
  {
    SimplifyKeepsValue(lib, x, env);
    DenoteOfPoly(lib, AsWritten, x, env);
    DenoteOfPoly(lib, AsWritten, Simplify(x), env);
    DenoteOfPoly(lib, Corrected, x, env);
    DenoteOfPoly(lib, Corrected, Simplify(x), env);
  }
}
