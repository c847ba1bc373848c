/**
  The one-pass algebraic simplifier of the current engine
  (src/expr/simplify.rs). `Add` and `Sub` simplify both children before
  matching; `Mul`, `Div` and `Pow` match on the children as they are and
  simplify only what they keep. Every shape without an arm is returned
  unchanged, children included.
 */
module Simplifier {
  import N = Numbers
  import opened Exprs

  /** The `cos^2 + sin^2` arm as written: on two squares of a cosine and a
      sine of the same argument it gives 1, but on different arguments it
      rebuilds the squares from the arguments, dropping `cos` and `sin`. */
  function TrigArmAsWritten(left: Expr, p1: Expr, right: Expr, p2: Expr): (r: Expr)
    ensures p1 != Two || p2 != Two ==> r == Add(Pow(left, p1), Pow(right, p2))
    ensures !((left.Cos? && right.Sin?) || (left.Sin? && right.Cos?)) ==> r == Add(Pow(left, p1), Pow(right, p2))
    ensures IsPythagorean(left, p1, right, p2) ==> r == One
    ensures Size(r) <= Size(Add(Pow(left, p1), Pow(right, p2)))
    ensures p1 == Two && p2 == Two && ((left.Cos? && right.Sin?) || (left.Sin? && right.Cos?)) && left.e != right.e ==>
      r == Add(Pow(left.e, p1), Pow(right.e, p2))
  {
    if p1 == Two && p2 == Two then
      if (left.Cos? && right.Sin?) || (left.Sin? && right.Cos?) then
        if left.e == right.e then One
        else
          assert Size(left) == 1 + Size(left.e) && Size(right) == 1 + Size(right.e);
          Add(Pow(left.e, p1), Pow(right.e, p2))
      else Add(Pow(left, p1), Pow(right, p2))
    else Add(Pow(left, p1), Pow(right, p2))
  }

  /** The arm as evidently intended: only the identity itself collapses;
      anything else is the sum of the two powers it started from. */
  function TrigArm(left: Expr, p1: Expr, right: Expr, p2: Expr): (r: Expr)
    ensures r == One || r == Add(Pow(left, p1), Pow(right, p2))
    ensures r == One <==> IsPythagorean(left, p1, right, p2)
  {
    if p1 == Two && p2 == Two &&
       ((left.Cos? && right.Sin?) || (left.Sin? && right.Cos?)) &&
       left.e == right.e
    then One
    else Add(Pow(left, p1), Pow(right, p2))
  }

  /** `cos(a)^2` and `sin(a)^2`, in either order. */
  ghost predicate IsPythagorean(left: Expr, p1: Expr, right: Expr, p2: Expr) {
    exists a :: p1 == Two && p2 == Two &&
      ((left == Cos(a) && right == Sin(a)) || (left == Sin(a) && right == Cos(a)))
  }

  /** A constant factor `c` times the simplified other side `s`: 0 absorbs,
      1 is the identity, -1 negates, anything else is put on the left. */
  function Scale(c: N.Number, s: Expr): (r: Expr)
    ensures N.IsZero(c) ==> r == Zero
    ensures !N.IsZero(c) && c == N.Real(1.0) ==> r == s
    ensures Vars(r) == if N.IsZero(c) then {} else Vars(s)
  {
    if N.IsZero(c) then Zero
    else if N.RealEq(c, 1.0) then s
    else if N.RealEq(c, -1.0) then Neg(s)
    else Mul(Const(c), s)
  }

  /** `simplify(e)`. It never makes the tree larger, which is also why the
      nested calls on already simplified trees terminate. */
  function Simplify(x: Expr): (r: Expr)
    ensures Size(r) <= Size(x)
    decreases Size(x), 1
  {
    match x
    case Neg(i) => Neg(Simplify(i))
    case Add(_, _) => SimplifyAdd(x)
    case Sub(_, _) => SimplifySub(x)
    case Mul(_, _) => SimplifyMul(x)
    case Div(l, r) =>
      if r.Const? then
        if N.RealEq(r.n, 1.0) then Simplify(l)
        else if N.RealEq(r.n, 0.0) then NaN
        else Div(Simplify(l), r)
      else Div(Simplify(l), Simplify(r))
    case Pow(l, r) =>
      if r.Const? && N.RealEq(r.n, 1.0) then Simplify(l)
      else Pow(Simplify(l), Simplify(r))
    case _ => x
  }

  /** The `Add` arm: both sides are simplified first; a zero constant on
      either side gives the other side, simplified once more, and a constant
      on the right moves to the left. */
  function SimplifyAdd(x: Expr): (r: Expr)
    requires x.Add?
    ensures Size(r) <= Size(x)
    decreases Size(x), 0
  {
    var a, b := Simplify(x.l), Simplify(x.r);
    if a.Const? && b.Const? then Const(N.Add(a.n, b.n))
    else if a.Const? then (if N.IsZero(a.n) then Simplify(b) else Add(a, Simplify(b)))
    else if b.Const? then (if N.IsZero(b.n) then Simplify(a) else Add(b, Simplify(a)))
    else if a.Pow? && b.Pow? then TrigArmAsWritten(a.l, a.r, b.l, b.r)
    else Add(a, b)
  }

  /** The `Sub` arm: both sides are simplified first; `0 - b` is `Neg(b)`,
      `a - 0` is `a`, and `a - Neg(i)` is the simplified `a + i`. */
  function SimplifySub(x: Expr): (r: Expr)
    requires x.Sub?
    ensures Size(r) <= Size(x)
    decreases Size(x), 0
  {
    var a, b := Simplify(x.l), Simplify(x.r);
    if a.Const? && b.Const? then Const(N.SubAsWritten(a.n, b.n))
    else if a.Const? then (if N.IsZero(a.n) then Neg(Simplify(b)) else Sub(a, Simplify(b)))
    else if b.Const? then (if N.IsZero(b.n) then Simplify(a) else Sub(Simplify(a), b))
    else if b.Neg? then Simplify(Add(Simplify(a), Simplify(b.e)))
    else Sub(Simplify(a), Simplify(b))
  }

  /** The `Mul` arm, on the children as they are: constant factors, then
      repeated factors merged into powers. */
  function SimplifyMul(x: Expr): (r: Expr)
    requires x.Mul?
    ensures Size(r) <= Size(x)
    decreases Size(x), 0
  {
    var l, r := x.l, x.r;
    if l.Const? && r.Const? then Const(N.Mul(l.n, r.n))
    else if l.Const? then Scale(l.n, Simplify(r))
    else if r.Const? then Scale(r.n, Simplify(l))
    else if r.Neg? then
      if l == r.e then assert Size(r) == 1 + Size(l); Neg(Powf(l, 2.0)) else x
    else if l.Neg? then
      if l.e == r then assert Size(l) == 1 + Size(r); Neg(Powf(r, 2.0)) else x
    else if l.Var? && r.Var? then (if l == r then Powf(l, 2.0) else x)
    else if r.Pow? then
      if l == r.l then assert Size(r) == 1 + Size(l) + Size(r.r); Pow(l, PlusConst(r.r, 1.0)) else x
    else if l.Pow? then
      if l.l == r then assert Size(l) == 1 + Size(r) + Size(l.r); Pow(r, PlusConst(l.r, 1.0)) else Mul(r, l)
    else if l == r then Powf(l, 2.0)
    else Mul(Simplify(l), Simplify(r))
  }

  // ---------------------------------------------------------------------
  // Variables
  // ---------------------------------------------------------------------

  /** Simplification introduces no variable. */
  lemma {:induction false} SimplifyVars(x: Expr)
    ensures Vars(Simplify(x)) <= Vars(x)
    decreases Size(x), 1
  {
    match x
    case Neg(i) => SimplifyVars(i);
    case Add(_, _) => SimplifyAddVars(x);
    case Sub(_, _) => SimplifySubVars(x);
    case Mul(_, _) => SimplifyMulVars(x);
    case Div(l, r) => SimplifyVars(l); SimplifyVars(r);
    case Pow(l, r) => SimplifyVars(l); SimplifyVars(r);
    case _ =>
  }

  lemma {:induction false} SimplifyAddVars(x: Expr)
    requires x.Add?
    ensures Vars(Simplify(x)) <= Vars(x)
    decreases Size(x), 0
  {
    var a, b := Simplify(x.l), Simplify(x.r);
    SimplifyVars(x.l);
    SimplifyVars(x.r);
    SimplifyVars(a);
    SimplifyVars(b);
  }

  lemma {:induction false} SimplifySubVars(x: Expr)
    requires x.Sub?
    ensures Vars(Simplify(x)) <= Vars(x)
    decreases Size(x), 0
  {
    var a, b := Simplify(x.l), Simplify(x.r);
    SimplifyVars(x.l);
    SimplifyVars(x.r);
    SimplifyVars(a);
    SimplifyVars(b);
    if !a.Const? && !b.Const? && b.Neg? {
      SimplifyVars(b.e);
      assert Size(b) == 1 + Size(b.e);
      SimplifyVars(Add(Simplify(a), Simplify(b.e)));
    }
  }

  lemma {:induction false} SimplifyMulVars(x: Expr)
    requires x.Mul?
    ensures Vars(Simplify(x)) <= Vars(x)
    decreases Size(x), 0
  {
    assert Simplify(x) == SimplifyMul(x);
    var l, r := x.l, x.r;
    SimplifyVars(l);
    SimplifyVars(r);
    if l.Const? || r.Const? {
    } else if r.Neg? {
      assert Vars(r) == Vars(r.e);
    } else if l.Neg? {
      assert Vars(l) == Vars(l.e);
    } else if r.Pow? {
      assert Vars(r) == Vars(r.l) + Vars(r.r);
    } else if l.Pow? {
      assert Vars(l) == Vars(l.l) + Vars(l.r);
    }
  }

  // ---------------------------------------------------------------------
  // The rules, one shape at a time
  // ---------------------------------------------------------------------

  /** The test cases `0 + 1` and `1 + 0`. */
  lemma AddOneExamples()
    ensures Simplify(Add(Zero, One)) == One
    ensures Simplify(Add(One, Zero)) == One
  {
    assert Simplify(Zero) == Zero && Simplify(One) == One;
    assert N.IsZero(Zero.n) && !N.IsZero(One.n);
    var x, y := Add(Zero, One), Add(One, Zero);
    assert SimplifyAdd(x) == Simplify(One);
    assert Simplify(x) == SimplifyAdd(x);
    assert SimplifyAdd(y) == Simplify(One);
    assert Simplify(y) == SimplifyAdd(y);
  }

  /** The test case `0 + 0`. */
  lemma AddZeroZeroExample()
    ensures Simplify(Add(Zero, Zero)) == Zero
  {
    var x := Add(Zero, Zero);
    assert Simplify(x.l) == Zero && Simplify(x.r) == Zero;
    assert N.Add(Zero.n, Zero.n) == Zero.n;
    assert SimplifyAdd(x) == Zero;
    assert Simplify(x) == SimplifyAdd(x);
  }

  /** The test case `1 + 1`. */
  lemma AddOneOneExample()
    ensures Simplify(Add(One, One)) == Two
  {
    var y := Add(One, One);
    assert Simplify(y.l) == One && Simplify(y.r) == One;
    assert N.Add(One.n, One.n) == Two.n;
    assert SimplifyAdd(y) == Two;
    assert Simplify(y) == SimplifyAdd(y);
  }

  /** A zero on either side of `+` gives the other side, simplified twice;
      a non-zero constant on the right moves to the left. */
  lemma AddConstantRules(e: Expr, c: N.Number)
    requires !Simplify(e).Const?
    ensures Simplify(Add(Zero, e)) == Simplify(Simplify(e))
    ensures Simplify(Add(e, Zero)) == Simplify(Simplify(e))
    ensures !N.IsZero(c) ==> Simplify(Add(e, Const(c))) == Add(Const(c), Simplify(Simplify(e)))
    ensures !N.IsZero(c) ==> Simplify(Add(Const(c), e)) == Add(Const(c), Simplify(Simplify(e)))
  {
    assert Simplify(Zero) == Zero && Simplify(Const(c)) == Const(c);
    assert Simplify(Add(Zero, e)) == SimplifyAdd(Add(Zero, e));
    assert Simplify(Add(e, Zero)) == SimplifyAdd(Add(e, Zero));
    assert Simplify(Add(e, Const(c))) == SimplifyAdd(Add(e, Const(c)));
    assert Simplify(Add(Const(c), e)) == SimplifyAdd(Add(Const(c), e));
  }

  /** `cos(a)^2 + sin(a)^2`, in either order, is 1 for every `a`. */
  lemma PythagoreanIdentity(a: Expr)
    ensures Simplify(Add(Pow(Cos(a), Two), Pow(Sin(a), Two))) == One
    ensures Simplify(Add(Pow(Sin(a), Two), Pow(Cos(a), Two))) == One
  {
    assert Simplify(Pow(Cos(a), Two)) == Pow(Cos(a), Two);
    assert Simplify(Pow(Sin(a), Two)) == Pow(Sin(a), Two);
    assert Simplify(Add(Pow(Cos(a), Two), Pow(Sin(a), Two))) == SimplifyAdd(Add(Pow(Cos(a), Two), Pow(Sin(a), Two)));
    assert Simplify(Add(Pow(Sin(a), Two), Pow(Cos(a), Two))) == SimplifyAdd(Add(Pow(Sin(a), Two), Pow(Cos(a), Two)));
  }

  /** With different arguments the program turns `cos(a)^2 + sin(b)^2`
      into `a^2 + b^2`, dropping `cos` and `sin`; the corrected arm keeps
      the sum as it is. */
  lemma PythagoreanMismatch(a: Expr, b: Expr)
    requires a != b
    ensures Simplify(Add(Pow(Cos(a), Two), Pow(Sin(b), Two))) == Add(Pow(a, Two), Pow(b, Two))
    ensures TrigArm(Cos(a), Two, Sin(b), Two) == Add(Pow(Cos(a), Two), Pow(Sin(b), Two))
  {
    assert Simplify(Pow(Cos(a), Two)) == Pow(Cos(a), Two);
    assert Simplify(Pow(Sin(b), Two)) == Pow(Sin(b), Two);
    assert Simplify(Add(Pow(Cos(a), Two), Pow(Sin(b), Two))) == SimplifyAdd(Add(Pow(Cos(a), Two), Pow(Sin(b), Two)));
  }

  /** The program's arm and the corrected one agree everywhere except on
      squares of a cosine and a sine of different arguments. */
  lemma TrigArmsAgree(left: Expr, p1: Expr, right: Expr, p2: Expr)
    requires !(p1 == Two && p2 == Two && ((left.Cos? && right.Sin?) || (left.Sin? && right.Cos?)) && left.e != right.e)
    ensures TrigArmAsWritten(left, p1, right, p2) == TrigArm(left, p1, right, p2)
  {
  }

  /** `0 - e` is `Neg(e)` and `e - 0` is `e`, simplified twice. */
  lemma SubConstantRules(e: Expr)
    requires !Simplify(e).Const?
    ensures Simplify(Sub(Zero, e)) == Neg(Simplify(Simplify(e)))
    ensures Simplify(Sub(e, Zero)) == Simplify(Simplify(e))
  {
    assert Simplify(Zero) == Zero;
    assert Simplify(Sub(Zero, e)) == SimplifySub(Sub(Zero, e));
    assert Simplify(Sub(e, Zero)) == SimplifySub(Sub(e, Zero));
  }

  /** `a - Neg(i)` is the simplified sum `a + i`. */
  lemma SubNegIsAdd(l: Expr, r: Expr)
    requires !Simplify(l).Const? && Simplify(r).Neg?
    ensures Simplify(Sub(l, r)) == Simplify(Add(Simplify(Simplify(l)), Simplify(Simplify(r).e)))
  {
  }

  /** A constant 0, 1 or -1 on either side of `*`. */
  lemma MulConstantRules(e: Expr)
    requires !e.Const?
    ensures Simplify(Mul(Zero, e)) == Zero && Simplify(Mul(e, Zero)) == Zero
    ensures Simplify(Mul(One, e)) == Simplify(e) && Simplify(Mul(e, One)) == Simplify(e)
    ensures Simplify(Mul(Con(-1.0), e)) == Neg(Simplify(e))
    ensures Simplify(Mul(e, Con(-1.0))) == Neg(Simplify(e))
  {
    assert Simplify(Mul(Zero, e)) == SimplifyMul(Mul(Zero, e));
    assert Simplify(Mul(e, Zero)) == SimplifyMul(Mul(e, Zero));
    assert Simplify(Mul(One, e)) == SimplifyMul(Mul(One, e));
    assert Simplify(Mul(e, One)) == SimplifyMul(Mul(e, One));
    assert Simplify(Mul(Con(-1.0), e)) == SimplifyMul(Mul(Con(-1.0), e));
    assert Simplify(Mul(e, Con(-1.0))) == SimplifyMul(Mul(e, Con(-1.0)));
  }

  /** Repeated factors merge into powers. */
  lemma MulMergeRules(c: char, e: Expr, p: Expr)
    requires !e.Const? && !e.Neg?
    ensures Simplify(Mul(Var(c), Var(c))) == Pow(Var(c), Two)
    ensures Simplify(Mul(e, Neg(e))) == Neg(Pow(e, Two))
    ensures Simplify(Mul(Neg(e), e)) == Neg(Pow(e, Two))
    ensures Simplify(Mul(e, Pow(e, p))) == Pow(e, Add(One, p))
    ensures !e.Pow? ==> Simplify(Mul(Pow(e, p), e)) == Pow(e, Add(One, p))
    ensures !e.Var? && !e.Pow? ==> Simplify(Mul(e, e)) == Pow(e, Two)
  {
  }

  /** Division by the constants 1 and 0, the power 1, and the unfolded
      constant power. */
  lemma DivPowRules(e: Expr, a: N.Number, b: N.Number)
    ensures Simplify(Div(e, One)) == Simplify(e)
    ensures Simplify(Div(e, Zero)) == NaN
    ensures Simplify(Pow(e, One)) == Simplify(e)
    ensures b != N.Real(1.0) ==> Simplify(Pow(Const(a), Const(b))) == Pow(Const(a), Const(b))
  {
  }

  /** Shapes without an arm come back unchanged, even when their child could
      be simplified. */
  lemma OtherShapesUnchanged(e: Expr)
    ensures Simplify(Sin(e)) == Sin(e) && Simplify(Cos(e)) == Cos(e)
    ensures Simplify(Exp(e)) == Exp(e) && Simplify(Ln(e)) == Ln(e)
    ensures Simplify(Sin(Add(Zero, Var('x')))) != Sin(Simplify(Add(Zero, Var('x'))))
  {
  }

  /** One pass is not always enough: the repeated factor `0 + x` is merged
      into a square before it is simplified, and only a second pass
      removes the zero. */
  lemma SimplifyIsNotIdempotent()
    ensures var x := Mul(Add(Zero, Var('x')), Add(Zero, Var('x')));
      && Simplify(x) == Pow(Add(Zero, Var('x')), Two)
      && Simplify(Simplify(x)) == Pow(Var('x'), Two)
  {
  }
}
