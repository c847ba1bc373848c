# mathy, modelled in Dafny

This project models the pure core of `mathy`, a small symbolic-algebra
kernel written in Rust, and proves properties of it. The repository has two
engines.

**The current engine** consists of `src/number` and `src/expr`:

- `Number`, a two-variant numeric type (`Real | Complex`). It has
  case-dispatched arithmetic, a branch-cut rule in `pow` and
  transcendental functions that handle only reals.
- An immutable `Expr` tree with queries (`is_const`, `is_var`,
  `is_op`, `has_var`), `substitute`, operator constructors and
  smart constructors.
- `evaluate`, a bottom-up evaluator that substitutes a variable and
  folds constants.
- `simplify`, a one-pass algebraic rewriter. It applies identity and
  absorption laws, merges repeated factors and applies the
  `cos² + sin²` rule.

**The legacy engine** is `src/calc`:

- an `Expr` with `f64` constants and `NaN` and `Tan` nodes;
- its own `is_zero`, `has_var` and constructors;
- an in-file draft `evaluate` and a later exhaustive `evaluate`;
- a simpler `simplify`;
- the `derive` and `integrate` stubs.

The files and modules are:

| file | module | models |
|---|---|---|
| `mathlib.dfy` | `MathLib` | the `f64` library: `sin`, `cos`, `tan`, `exp`, `ln`, `powf` and division by zero, as uninterpreted fields of a record `Lib` that every operation takes as a parameter |
| `number.dfy` | `Numbers` | `Number`, its methods and its `Add/Sub/Mul/Div/Neg` impls; a Rust panic is the `Panic` case of `Result` |
| `exprs.dfy` | `Exprs` | the current `Expr`, its queries, `substitute` and all constructors |
| `semantics.dfy` | `Semantics` | a reference meaning for current trees: the `Number` a tree denotes under a binding of its variables, a crash where a division panics, or unknown where no `Number` operation exists. It is computed in one of two arithmetics: `AsWritten` uses the program's `-` and `/`, and `Corrected` uses the corrected ones |
| `evaluator.dfy` | `Evaluator` | the current `evaluate`, with the arithmetic as a parameter: `AsWritten` is the program's evaluator, and `Corrected` is the same evaluator over the corrected `-` and `/` |
| `simplifier.dfy` | `Simplifier` | the current `simplify` as written, including the program's `-` on constants and its `cos² + sin²` arm, with the corrected arm alongside |
| `simplifier_meaning.dfy` | `SimplifierMeaning` | a value-preservation proof for the current `simplify` on polynomial trees |
| `calc_expr.dfy` | `CalcExprs` | the legacy `Expr`, its queries, its constructors and the draft `evaluate` in the same file |
| `calc_semantics.dfy` | `CalcSemantics` | a reference meaning for legacy trees: the real number a tree denotes, or none where it holds `NaN` |
| `calc_evaluator.dfy` | `CalcEvaluator` | the legacy `evaluate` |
| `calc_simplify.dfy` | `CalcSimplifier` | the legacy `simplify` |
| `calc_calculus.dfy` | `CalcCalculus` | `derive` and `integrate` |

The reference meanings (`Semantics.Denote`, `CalcSemantics.Denote`) are the
partners of the rewriters:

- The current evaluator keeps the meaning computed in its own arithmetic.
  With the program's arithmetic, that meaning differs from the corrected
  one on complex values; lemmas show where.
- The legacy evaluators keep the meaning once corrected. As written, they
  are shown by a counterexample not to.
- Both simplifiers keep the meaning only on a fragment, which "## Left out"
  names. Outside it they are shown by counterexamples not to.

The constructors are checked against the same meanings.

Some behaviour of the code is easy to miss; the model keeps it:

- **Division by zero.** Dividing a `Number` by a zero `Number` panics
  (src/number/number.rs:188-219), and so does the reciprocal of a zero
  complex (src/number/number.rs:137-148). The model returns `Panic` in
  those cases.
- **Functions of a complex.** `sin`, `cos`, `tan`, `ln`, `pow`, `powf`
  and `exp` of a complex return `Real(0.0)` (src/number/number.rs:67-127),
  and so does negating a complex `Number` (src/number/number.rs:223-230).
- **Two negations.** In the current engine `neg(e)` builds `Neg(e)`
  (src/expr/expr.rs:407), while the unary `-` operator builds
  `Mul(Const(-1), e)` (src/expr/expr.rs:380-385). The legacy `neg` builds
  `Mul(Const(-1), e)` (src/calc/expr.rs:64). The model keeps both forms.
- **Derivatives.** The legacy `derive` takes no variable: every variable
  derives to 1, a constant to 0, and every other node to `NaN`
  (src/calc/deriver.rs:6-13).
- **Evaluation.** Both `evaluate` functions return a tree, not a number.
  The current one returns the hyperbolic, inverse trigonometric,
  factorial and gamma nodes untouched (src/expr/evaluator.rs:108).
- **`Pow` in the simplifier.** The `Const ^ Const` arm
  (src/expr/simplify.rs:209) comes after an arm that matches any
  constant exponent, so it never fires.
- **`tan`.** Only the legacy tree has a tangent node
  (src/calc/expr.rs:23).

## Model

| member | source | states |
|---|---|---|
| MathLib.FloatDiv | src/calc/evaluator.rs:99-102 | `f64` division: with a non-zero divisor the quotient times the divisor gives back the dividend; a zero divisor gives the library's non-finite value instead of a panic |
| Numbers.IsZero | src/number/number.rs:15-20 | `is_zero` holds exactly for `Real(0)` and `Complex(0, 0)`, that is, when both the real and imaginary parts are zero |
| Numbers.RealEq | src/number/number.rs:49-54 | `real_eq(v)` holds exactly for `Real(v)` and never for a complex number |
| Numbers.ComplexEq | src/number/number.rs:56-61 | `complex_eq(v1, v2)` holds exactly for `Complex(v1, v2)` and never for a real number |
| Numbers.Imag | src/number/number.rs:235 | `imag(x)` is a complex number with real part 0 and imaginary part `x` |
| Numbers.Sin | src/number/number.rs:67-72 | a real argument gives the library sine; every complex argument gives `Real(0.0)` |
| Numbers.Cos | src/number/number.rs:76-81 | a real argument gives the library cosine; every complex argument gives `Real(0.0)` |
| Numbers.Tan | src/number/number.rs:83-88 | for a real argument, `sin / cos` through `Number` division, which panics exactly when the cosine is zero; a complex argument gives `Real(0.0)` |
| Numbers.Ln | src/number/number.rs:90-95 | a real argument gives the library logarithm; every complex argument gives `Real(0.0)` |
| Numbers.Exp | src/number/number.rs:123-128 | a real argument gives the library exponential; every complex argument gives `Real(0.0)` |
| Numbers.PowerOfTwoMeans | src/number/number.rs:100-105 | the decision procedure for "is a power of two" agrees with "equals 2^k for some k" |
| Numbers.InverseDyadicMeans | src/number/number.rs:100-105 | the branch test (base-2 logarithm of `p` is a negative whole number) holds exactly when `p = 1/2^k` for some `k >= 1` |
| Numbers.PowBranchCut | src/number/number.rs:97-114 | for two reals, `pow` is complex exactly when the base is negative and `p = 1/2^k` with `k >= 1`, and is then `Complex(0, powf(abs(base), p))`; otherwise it is `Real(powf(base, p))` |
| Numbers.PowOfComplex | src/number/number.rs:112 | `pow` with a complex operand on either side is `Real(0.0)` |
| Numbers.Powf | src/number/number.rs:116-121 | `powf` on a real base is `pow` with a real exponent; on a complex base it is `Real(0.0)` |
| Numbers.Conjugate | src/number/number.rs:130-135 | the conjugate keeps the real part, negates the imaginary part and keeps the variant |
| Numbers.ConjugateInvolution | src/number/number.rs:130-135 | conjugating twice gives the number back, and a real number is its own conjugate |
| Numbers.ConjugateOfProduct | src/number/number.rs:130-135 | conjugation distributes over `Number` multiplication |
| Numbers.ModulusZero | src/number/number.rs:141-142 | `x*x + y*y` is never negative and is zero only at the origin, so the `d <= 0` guard is exactly the zero test |
| Numbers.Reciprocal | src/number/number.rs:137-148 | panics exactly for a zero complex; a non-zero number times its reciprocal has value 1; the variant is kept; `Real(0)` gives the non-finite `1/0.0` |
| Numbers.Add | src/number/number.rs:152-161 | adds the real and imaginary parts componentwise; the result is real exactly when both operands are |
| Numbers.AddCommutes | src/number/number.rs:152-161 | `+` is commutative, including across the mixed arms |
| Numbers.AddAssociates | src/number/number.rs:152-161 | `+` is associative |
| Numbers.SubAsWritten | src/number/number.rs:164-174 | `-` as written: two reals or two complexes subtract componentwise |
| Numbers.SubAsWrittenMixed | src/number/number.rs:169-170 | with one real and one complex operand, in either order, `-` gives `Complex(x - z, i)`, so the imaginary part is never negated |
| Numbers.SubAsWrittenIsNotInverseOfAdd | src/number/number.rs:169-170 | as written, `-` does not undo `+`: `(0 - i) + i` has value `2i`, and `Complex(1, 0) - Real(0)` does not have value 1 |
| Numbers.Sub | src/number/number.rs:164-174 | corrected `-`: subtracts the real and imaginary parts componentwise; the result is real exactly when both operands are |
| Numbers.SubUndoesAdd | src/number/number.rs:164-174 | corrected `-` undoes `+`: `(a - b) + b` and `(a + b) - b` both have the value of `a` |
| Numbers.Mul | src/number/number.rs:176-185 | the complex product `(xu - yv, xv + yu)` on the parts, so a real factor scales both parts; real exactly when both factors are |
| Numbers.MulCommutes | src/number/number.rs:176-185 | `*` is commutative |
| Numbers.DivAsWritten | src/number/number.rs:188-219 | `/` as written panics exactly when the denominator is zero, and divides two reals as `x / y` |
| Numbers.DivAsWrittenNegatesImaginary | src/number/number.rs:205-211 | as written, `Complex(0, 1) / Real(1)` is `Complex(0, -1)`, so the quotient times the divisor is not the dividend |
| Numbers.Div | src/number/number.rs:188-219 | corrected `/`: it panics exactly when the denominator is zero, and the quotient is real exactly when both operands are |
| Numbers.DivUndoesMul | src/number/number.rs:188-219 | for every non-zero denominator, corrected `/` succeeds and the quotient times the denominator has the value of the numerator |
| Numbers.DivByRealUndoesMul | src/number/number.rs:205-211 | the same round trip for a non-zero real denominator, covering the arm that was corrected |
| Numbers.DivByComplexUndoesMul | src/number/number.rs:212-218 | the same round trip for a non-zero complex denominator |
| Numbers.DivAgreesWithWritten | src/number/number.rs:188-219 | the corrected and as-written `/` agree everywhere except on a complex divided by a real |
| Numbers.ReciprocalRoundTrip | src/number/number.rs:198-204 | for every non-zero complex `z`, `(Real(1) / z) * z` has value exactly 1 |
| Numbers.Neg | src/number/number.rs:223-231 | `-` on a real gives its additive inverse; every complex number becomes `Real(0.0)` |
| Exprs.QueriesPartition | src/expr/expr.rs:50-74 | `is_op` holds exactly when the node is neither `Const` nor `Var`, no node is both, and the operators are exactly the unary nodes, the binary nodes and `NaN` |
| Exprs.HasVarMeans | src/expr/expr.rs:78-93 | if `has_var(s)` holds, `s` occurs in the tree; the converse holds on trees without hyperbolic, inverse trigonometric, factorial or gamma nodes |
| Exprs.HasVarIsBlindUnderSinh | src/expr/expr.rs:91 | `has_var` does not look below `Sinh` or `Gamma`: `sinh(s)` contains `s`, yet `has_var(s)` is false |
| Exprs.Substitute | src/expr/expr.rs:96-124 | `substitute` keeps the size of the tree |
| Exprs.SubstituteSelf | src/expr/expr.rs:96-124 | `substitute(a, a)` is the identity |
| Exprs.SubstituteVars | src/expr/expr.rs:96-124 | the variables after `substitute(a, b)` are among the original ones plus `b` |
| Exprs.SubstituteIsRename | src/expr/expr.rs:96-124 | on trees without `Ln`, `Factorial` or `Gamma`, `substitute` equals a full renaming of the variable, which keeps every node's shape |
| Exprs.SubstituteRemoves | src/expr/expr.rs:96-124 | on such trees with `a != b`, `a` no longer occurs and `has_var(a)` is false; `b` occurs if `a` did |
| Exprs.SubstituteSkipsLn | src/expr/expr.rs:121-122 | the fallback returns `Ln` unchanged, so `ln(a)` still has `a` after substituting `b` for `a` |
| Exprs.Varf | src/expr/expr.rs:409 | `varf(c, v)` has `c` as its only variable, as `has_var` sees it |
| Exprs.Powf | src/expr/expr.rs:415 | `powf(e, f)` raises `e` to the constant `f`; it has the same variables as `e` |
| Exprs.Tan | src/expr/expr.rs:427-430 | `tan(e)` is the division of `sin(e)` by `cos(e)` and has the variables of `e` |
| Exprs.Log | src/expr/expr.rs:432-434 | `log(b, e)` divides `ln(e)` by `ln(b)` and has the variables of `e` |
| Exprs.PlusConst | src/expr/expr.rs:300-305 | `e + c` puts the constant on the left and keeps the variables of `e` |
| Exprs.Negate | src/expr/expr.rs:380-385 | unary `-e` is `e` times the constant -1, which is not the `Neg` node that `neg(e)` builds |
| Exprs.HasVarExamples | src/expr/expr.rs:458-476 | the test cases: `3x` has `x`, `3y` and `3` do not; two constructions of `2 + 2`, and of `sin(x)`, are equal; beyond the tests, equality is structural, so `2 + x` differs from `x + 2` |
| Semantics.Op2Agrees | src/number/number.rs:164-219 | the program's and the corrected arithmetic agree on every operation except a subtraction with one real and one complex operand and a complex divided by a real |
| Semantics.Op2SubDiffers | src/number/number.rs:169-170 | on those subtractions they part: `i - 1` and `1 - i` are both `1 + i` in the program's arithmetic, and `-1 + i` and `1 - i` corrected |
| Semantics.Op2DivDiffers | src/number/number.rs:205-211 | and on that division: `yi / 1` is `-yi` in the program's arithmetic and `yi` corrected |
| Semantics.HasVarSound | src/expr/expr.rs:78-93 | a tree in which `has_var` finds no `s` means the same whatever `s` is bound to, in either arithmetic |
| Semantics.ConMeans | src/expr/expr.rs:405 | `con(v)` means the real `v` under every binding and has no variable |
| Semantics.PowfMeans | src/expr/expr.rs:415 | `powf(e, f)` means the `Number` power of the value of `e`: `powf(t, f)` for a real `t`, unless `t` is negative and `f` is `1/2^k`; 0 for a complex value |
| Semantics.SquareCubeMean | src/expr/expr.rs:417-418 | `square(e)` and `cube(e)` of a real `t` mean `powf(t, 2)` and `powf(t, 3)`, negative `t` included |
| Semantics.PlusTimesConstMean | src/expr/expr.rs:300-305 | `e + c` means the `Number` sum of `e` and `c`, and `e * c` their product |
| Semantics.MinusConstAsWrittenMeans | src/expr/expr.rs:324-329 | as written, `e - c` means `c - e`, in the corrected arithmetic and, for a real `e`, in the program's own; `x - 1` at `x = 0` means 1 in both |
| Semantics.ConstMinusMeans | src/expr/expr.rs:316-321 | `c - e` means the constant minus the value of `e`, and adding that value back gives `c` |
| Semantics.MinusConstMeans | src/expr/expr.rs:324-329 | corrected `e - c` means `e - c`, and adding `c` back gives the value of `e`; `x - 1` at `x = 0` means -1 |
| Semantics.OverConstMeans | src/expr/expr.rs:364-377 | `e / c` crashes exactly when `c` is 0; otherwise its value times `c` is the value of `e`; `c / e` crashes exactly when `e` means zero |
| Semantics.NegateMeans | src/expr/expr.rs:380-385 | unary `-e` negates both parts of the value of `e`; it agrees with the `Neg` node on reals and not on complexes, which `Neg` maps to 0 |
| Semantics.VarfMeans | src/expr/expr.rs:409 | `varf(c, v)` means `v` times the value bound to `c` |
| Semantics.SqrtMeans | src/expr/expr.rs:416 | `sqrt` of a negative real `t` means `powf(-t, 0.5)` times `i`; of a non-negative real, `powf(t, 0.5)` |
| Semantics.TanMeans | src/expr/expr.rs:427-430 | `tan(e)` means `Number` `tan` of the value of `e`, crashing where the cosine is zero; on a complex it crashes, whereas `Number::tan` gives 0 |
| Semantics.LogMeans | src/expr/expr.rs:432-434 | `log(b, e)` crashes exactly when `ln(b)` is zero, and otherwise means `ln(e) / ln(b)` |
| Semantics.BaseLogsMean | src/expr/expr.rs:436-442 | `base2(e)` and `base10(e)` crash exactly when `ln(2)` or `ln(10)` is zero, and otherwise mean `ln(e) / ln(2)` and `ln(e) / ln(10)` |
| Evaluator.Evaluate | src/expr/evaluator.rs:9-110 | after `evaluate(e, sym, v)`, in either arithmetic, `has_var(sym)` is false; a panic happens only in a tree that holds a division |
| Evaluator.EvaluatePreservesMeaning | src/expr/evaluator.rs:9-110 | `evaluate` keeps the meaning computed in its own arithmetic. A panic happens only where the tree with `sym` bound to `v` crashes. Otherwise, under every binding, the result means what the tree means with `sym` bound to `v` |
| Evaluator.ClosedTreeFolds | src/expr/evaluator.rs:9-110 | a tree built from handled nodes whose only variable is `sym` evaluates to a constant holding its value, or panics exactly when its meaning crashes |
| Evaluator.ClosedTreeFoldsToConst | src/expr/evaluator.rs:9-110 | such a tree evaluates to a constant unless a division by zero panics |
| Evaluator.EvaluateIsIdempotent | src/expr/evaluator.rs:9-110 | evaluating a result again, at any value, changes nothing |
| Evaluator.EvaluateIgnoresAbsentVar | src/expr/evaluator.rs:9-110 | if `has_var(sym)` is false, the result does not depend on the value given for `sym` |
| Evaluator.EvaluateLeavesUnhandledNodes | src/expr/evaluator.rs:108 | a variable of another name, `NaN` and the hyperbolic, inverse trigonometric, factorial and gamma nodes come back unchanged, even when `sym` occurs inside them |
| Evaluator.EvaluateFoldsConstants | src/expr/evaluator.rs:22-88 | a two-child node whose children evaluate to constants folds to the `Number` operation on them, or panics with it |
| Evaluator.EvaluateArithmeticsAgree | src/expr/evaluator.rs:9-110 | on a tree without `-` or `/`, the program's evaluator and the corrected one give the same result |
| Evaluator.EvaluateSubDiffers | src/expr/evaluator.rs:37 | the program evaluates `x - 1` at `x = i` to `1 + i`; the corrected operators give `-1 + i` |
| Evaluator.EvaluateDivDiffers | src/expr/evaluator.rs:57 | the program evaluates `x / 1` at `x = yi` to `-yi`; the corrected operators give `yi` |
| Evaluator.DivisionByZeroPanics | src/expr/evaluator.rs:52-60 | a division whose sides have become constants panics when the divisor is zero |
| Evaluator.EvaluateExamples | src/expr/evaluator.rs:117-129 | the test cases: `3 + x` at 7 is `con(10)`, and `x^2` at 7 is `con(49)` when `powf(7, 2)` is 49 |
| Evaluator.SqrtOfNegative | src/expr/evaluator.rs:80-88 | `sqrt(x)` at a negative `-t` is the constant `Complex(0, powf(t, 0.5))` |
| Evaluator.SqrtExamples | src/expr/evaluator.rs:131-144 | the test cases: the square roots of -1, -3 and -4 are `i`, `1.7320508075688772 i` and `2i`, given the library's roots |
| Simplifier.TrigArmAsWritten | src/expr/simplify.rs:36-67 | the `cos² + sin²` arm as written. It gives 1 for `cos(a)² + sin(a)²` in either order. It rebuilds every pair that is not two squares of a `cos` and a `sin` unchanged. When the arguments differ it rebuilds the squares from the bare arguments |
| Simplifier.TrigArm | src/expr/simplify.rs:36-67 | the corrected arm gives 1 exactly for `cos(a)² + sin(a)²` or `sin(a)² + cos(a)²` with the same `a`, and otherwise rebuilds the sum unchanged |
| Simplifier.TrigArmsAgree | src/expr/simplify.rs:44-61 | the two arms agree except on squares of a `cos` and a `sin` of different arguments |
| Simplifier.Scale | src/expr/simplify.rs:104-126 | a constant factor: zero absorbs the product and removes every variable, and `Real(1)` is the identity |
| Simplifier.Simplify | src/expr/simplify.rs:9-216 | `simplify`, with the program's `-` on constants and its trigonometric arm, never increases the number of nodes |
| Simplifier.SimplifyAdd | src/expr/simplify.rs:14-70 | the `Add` arm never increases the number of nodes |
| Simplifier.SimplifySub | src/expr/simplify.rs:72-97 | the `Sub` arm never increases the number of nodes |
| Simplifier.SimplifyMul | src/expr/simplify.rs:99-176 | the `Mul` arm never increases the number of nodes |
| Simplifier.SimplifyVars | src/expr/simplify.rs:9-216 | `simplify` introduces no variable |
| Simplifier.AddOneExamples | src/expr/simplify.rs:226-245 | the test cases `0 + 1` and `1 + 0` give 1 |
| Simplifier.AddZeroZeroExample | src/expr/simplify.rs:226-245 | the test case `0 + 0` gives 0 |
| Simplifier.AddOneOneExample | src/expr/simplify.rs:226-245 | the test case `1 + 1` gives 2 |
| Simplifier.AddConstantRules | src/expr/simplify.rs:19-33 | a zero constant on either side gives the other side, simplified again; a non-zero constant on the right moves to the left |
| Simplifier.PythagoreanIdentity | src/expr/simplify.rs:36-67 | `cos(a)² + sin(a)²` and `sin(a)² + cos(a)²` simplify to 1 |
| Simplifier.PythagoreanMismatch | src/expr/simplify.rs:44-61 | with different arguments, `simplify` turns `cos(a)² + sin(b)²` into `a² + b²`; the corrected arm keeps the sum |
| Simplifier.SubConstantRules | src/expr/simplify.rs:76-90 | `0 - e` gives `Neg` of `e`, and `e - 0` gives `e` |
| Simplifier.SubNegIsAdd | src/expr/simplify.rs:91-94 | `a - Neg(i)` gives the simplified sum of `a` and `i` |
| Simplifier.MulConstantRules | src/expr/simplify.rs:104-126 | a constant 0, 1 or -1 on either side gives 0, the other side, or `Neg` of the other side |
| Simplifier.MulMergeRules | src/expr/simplify.rs:127-174 | `x*x` gives `x^2`, `e*(-e)` and `(-e)*e` give `-(e^2)`, and `e * e^p` and `e^p * e` give `e^(1 + p)` |
| Simplifier.DivPowRules | src/expr/simplify.rs:178-212 | `e/1` gives `e` and `e/0` gives `NaN`; `e^1` gives `e`; `Const^Const` is not folded |
| Simplifier.OtherShapesUnchanged | src/expr/simplify.rs:214 | `sin`, `cos`, `exp` and `ln` nodes are returned as they are, children unsimplified |
| Simplifier.SimplifyIsNotIdempotent | src/expr/simplify.rs:9-216 | one pass does not reach a fixed point: a second `simplify` changes `(0 + x)(0 + x)` further |
| SimplifierMeaning.WholeIsNotInverseDyadic | src/number/number.rs:105 | a whole exponent of at least 1 never takes the branch cut of `pow` |
| SimplifierMeaning.WholeSimplifies | src/expr/simplify.rs:14-19 | a sum of whole constants simplifies to the constant holding its value |
| SimplifierMeaning.ScaleKeepsValue | src/expr/simplify.rs:104-126 | the constant-factor rules keep the value of a product with the constant on either side |
| SimplifierMeaning.SquareKeepsValue | src/expr/simplify.rs:127-149 | `e^2` has the value of `e*e`, and `-(e^2)` the value of `e*(-e)` and `(-e)*e` |
| SimplifierMeaning.PowerMergeKeepsValue | src/expr/simplify.rs:150-167 | `e^(1 + p)` has the value of `e * e^p` and `e^p * e` |
| SimplifierMeaning.AddKeepsValue | src/expr/simplify.rs:14-70 | the `Add` arm keeps the value of a polynomial tree |
| SimplifierMeaning.SubKeepsValue | src/expr/simplify.rs:72-97 | the `Sub` arm keeps the value of a polynomial tree |
| SimplifierMeaning.MulKeepsValue | src/expr/simplify.rs:99-176 | the `Mul` arm keeps the value of a polynomial tree |
| SimplifierMeaning.SimplifyKeepsValue | src/expr/simplify.rs:9-216 | `simplify` keeps the value of a polynomial tree and its result is again one |
| SimplifierMeaning.SimplifyPreservesMeaning | src/expr/simplify.rs:9-216 | on polynomial trees under real bindings, `simplify` as written keeps the meaning, both in the program's own arithmetic and in the corrected one |
| CalcExprs.IsZeroMeans | src/calc/expr.rs:33-38 | `is_zero` holds exactly for `Const(0.0)` |
| CalcExprs.HasVarMeans | src/calc/expr.rs:39-55 | `has_var(s)` holds exactly when `s` occurs in the tree |
| CalcExprs.NegOf | src/calc/expr.rs:64 | `neg(e)` is -1 times `e`, never a `Neg` node, with the variables of `e` |
| CalcExprs.Varf | src/calc/expr.rs:65 | `varf(v, c)` has `c` as its only variable |
| CalcExprs.Powf | src/calc/expr.rs:71 | `powf(e, f)` raises `e` to the constant `f` and has the variables of `e` |
| CalcExprs.Log | src/calc/expr.rs:79-81 | `log(b, e)` divides `ln(e)` by `ln(b)` and has the variables of `e` |
| CalcExprs.HasVarExamples | src/calc/expr.rs:202-209 | the test cases: `3x` has `x`, `3y` and `3` do not |
| CalcExprs.DraftEvaluateAsWritten | src/calc/expr.rs:84-193 | the draft `evaluate` as written removes `sym`, and maps every node outside `NaN`, `Const`, `Var`, `+`, `-`, `sin`, `cos` and `tan` to `NaN` |
| CalcExprs.DraftEvaluate | src/calc/expr.rs:84-193 | the corrected draft `evaluate` does the same |
| CalcExprs.DraftEvaluateAsWrittenReverses | src/calc/expr.rs:127-133 | as written, the draft `evaluate` turns `y - 3` into `3 - y`; the corrected one keeps it |
| CalcExprs.DraftEvaluateExample | src/calc/expr.rs:212-216 | the test case: `3 + x` at 7 is `Const(10)` |
| CalcSemantics.HasVarSound | src/calc/expr.rs:39-55 | a tree in which `has_var` finds no `s` means the same whatever `s` is bound to |
| CalcSemantics.NegOfMeans | src/calc/expr.rs:64 | `neg(e)` means what a `Neg` node would: the negation of `e`'s value, or nothing |
| CalcSemantics.VarfMeans | src/calc/expr.rs:65 | `varf(v, c)` means `v` times the value bound to `c` |
| CalcSemantics.PowfMeans | src/calc/expr.rs:71-74 | `powf(e, f)` means `powf(t, f)` of the value `t` of `e`; `sqrt`, `square` and `cube` mean the powers 0.5, 2 and 3, with no branch cut |
| CalcSemantics.LogMeans | src/calc/expr.rs:79-81 | `log(b, e)` means `ln(e) / ln(b)`, and multiplying by a non-zero `ln(b)` gives `ln(e)` back |
| CalcEvaluator.EvaluateAsWritten | src/calc/evaluator.rs:7-222 | `evaluate` as written leaves no `sym` in its result |
| CalcEvaluator.Evaluate | src/calc/evaluator.rs:7-222 | corrected `evaluate` leaves no `sym` in its result |
| CalcEvaluator.EvaluatePreservesMeaning | src/calc/evaluator.rs:7-222 | corrected `evaluate` keeps the meaning: under every binding the result means what the tree means with `sym` bound to `value` |
| CalcEvaluator.EvaluateAsWrittenWithoutSubDiv | src/calc/evaluator.rs:7-222 | on trees without `-` or `/`, `evaluate` as written already keeps the meaning |
| CalcEvaluator.EvaluateAsWrittenReverses | src/calc/evaluator.rs:59-113 | as written, `y - 3` becomes `3 - y` and `y / 2` becomes `2 / y`, which mean 2 and 2 rather than -2 and 0.5 at `y = 1` |
| CalcEvaluator.ClosedTreeFolds | src/calc/evaluator.rs:7-222 | a tree without `NaN` whose only variable is `sym` evaluates to a constant, and there the two evaluators agree |
| CalcEvaluator.ClosedTreeValue | src/calc/evaluator.rs:7-222 | that constant is the tree's value with `sym` bound to `value` |
| CalcEvaluator.EvaluateIgnoresAbsentVar | src/calc/evaluator.rs:7-222 | if `has_var(sym)` is false, the corrected result does not depend on `value` |
| CalcEvaluator.EvaluateAsWrittenIgnoresAbsentVar | src/calc/evaluator.rs:7-222 | the same holds of `evaluate` as written |
| CalcEvaluator.EvaluateIsIdempotent | src/calc/evaluator.rs:7-222 | evaluating a corrected result again, at any value, changes nothing |
| CalcEvaluator.EvaluateAsWrittenIsIdempotent | src/calc/evaluator.rs:7-222 | evaluating a result of the evaluator as written again, at any value, changes nothing |
| CalcEvaluator.DraftAgrees | src/calc/expr.rs:84-193 | on trees made only of the nodes the draft handles, the draft and exhaustive evaluators agree, both as written and corrected |
| CalcEvaluator.DraftEvaluatePreservesMeaning | src/calc/expr.rs:84-193 | on those trees the corrected draft keeps the meaning |
| CalcEvaluator.EvaluateExample | src/calc/evaluator.rs:228-233 | the test case: `3 + x` at 7 is `Const(10)` |
| CalcSimplifier.Scale | src/calc/simplify.rs:70-91 | a constant factor: 0 absorbs the product and removes every variable, and 1 is the identity |
| CalcSimplifier.Simplify | src/calc/simplify.rs:7-117 | the result is never a `Neg` node and introduces no variable |
| CalcSimplifier.SimplifyPreservesMeaning | src/calc/simplify.rs:7-117 | on trees without `NaN` and without a division by the constant 0, `simplify` keeps the meaning under every binding |
| CalcSimplifier.SimplifyDropsAndMakesNaN | src/calc/simplify.rs:64-113 | outside that fragment the rules change the meaning: `0 * NaN` gives 0, and `x / 0` becomes `NaN` |
| CalcSimplifier.AddExamples | src/calc/simplify.rs:126-142 | the test cases: `0 + 1` and `1 + 0` give 1, `0 + 0` gives 0, and `1 + 1` gives 2 |
| CalcSimplifier.ConstantRules | src/calc/simplify.rs:12-91 | a zero constant in a sum or difference gives the other side; a constant on the right of a sum moves to the left; `0 - e` and `-1 * e` give `neg`; `0 * e` gives 0 |
| CalcSimplifier.NegRules | src/calc/simplify.rs:9-59 | `a - (-i)` gives the sum of the simplified sides without a further pass, and `-e` gives `neg` of `e` simplified |
| CalcSimplifier.DivRules | src/calc/simplify.rs:96-113 | `e/1` gives `e` simplified, `e/0` gives `NaN`, and any other constant divisor is kept |
| CalcSimplifier.SimplifyLimits | src/calc/simplify.rs:115 | a `Neg` below an unhandled node stays, and one pass does not reach a fixed point |
| CalcCalculus.Derive | src/calc/deriver.rs:6-14 | `derive` is a constant without variables for a constant or a variable, and `NaN` for every other node |
| CalcCalculus.DeriveIsSlope | src/calc/deriver.rs:9-10 | for a constant, or for the variable being moved, the derivative is the exact slope |
| CalcCalculus.DeriveIgnoresTheVariable | src/calc/deriver.rs:10 | `derive` takes no variable: a different variable does not move, yet derives to 1 |
| CalcCalculus.Integrate | src/calc/integrator.rs:7-13 | `integrate` is `NaN` exactly for non-constants; the integral of a constant has `sym` and `C` as its only variables, as `has_var` sees them |
| CalcCalculus.IntegralMeans | src/calc/integrator.rs:10 | the integral of `c` means `c * sym + C` |
| CalcCalculus.IntegralSlope | src/calc/integrator.rs:10 | the integral of `c` is an antiderivative: moving `sym` by `h` moves its value by `c * h`, or by `(c + 1) * h` when `sym` is `C` itself |
| CalcCalculus.DeriveOfIntegral | src/calc/deriver.rs:11 | the stubs are not inverse: `derive` of an integral is `NaN` |

## Left out

- `to_string` in both engines: decimal formatting of `f64` is presentation and cannot be stated over reals.
- `pack` and `unpack`: these box values in Rust, and Dafny datatypes need no boxing.
- The values of `sin`, `cos`, `tan`, `exp`, `ln`, `powf` and `log2`, and `inf`/`NaN` arithmetic, are not modelled. They are uninterpreted fields of `MathLib.Lib`. The model works over exact reals, so rounding is not modelled.
- Evaluator.EvaluateExamples, Evaluator.SqrtExamples: these take the library results they need (`powf(7, 2) = 49`, the square roots) as preconditions, because the library is uninterpreted.
- `log2` in `pow` is replaced by the exact condition it tests: `p = 1/2^k` for some `k >= 1`.
- The real reciprocal of zero is `1.0 / 0.0` in the code. It is modelled as the library's value for a division by zero, not as infinity.
- The current `simplify` returns `NaN` for `x / 0`, but the current `Expr` has no such variant, so the code does not compile as shown. The model adds a `NaN` leaf to the current tree. Every fall-through arm of the code covers it.
- The legacy `simplify` returns `zero()` for a product with 0, and its test uses `zero()` and `+`. None of these is defined for the legacy tree. The model reads them as `Const(0.0)` and `Add`.
- The `c == sym` arms that follow evaluation of a child in both legacy evaluators cannot fire, because the child has already replaced `Var(sym)`. They are modelled as written, including the operand swap in their differences and quotients.
- SimplifierMeaning.SimplifyPreservesMeaning: proved only for polynomial trees (constants, variables, `Neg`, `+`, `-`, `*` and powers by whole constants) under bindings of variables to reals. It also assumes `powf` is exact on whole exponents. Nothing is proved about the meaning of `simplify` outside that fragment.
- CalcSimplifier.SimplifyPreservesMeaning: stated only for trees without `NaN` and without a division by the constant 0, because the code changes the meaning outside them (CalcSimplifier.SimplifyDropsAndMakesNaN).
- Simplifier.Simplify: there is no corrected simplifier. On the fragment where its meaning is proved, the program's `-` and arm coincide with the corrected ones. The corrected arm is Simplifier.TrigArm, related to the program's by Simplifier.TrigArmsAgree.
- Semantics.MinusConstMeans, Semantics.ConstMinusMeans, Semantics.OverConstMeans, Semantics.TanMeans and Semantics.LogMeans are stated in the corrected arithmetic, and Semantics.MinusConstAsWrittenMeans in the program's arithmetic only for a real `e`. In the program's arithmetic they hold for real values (Semantics.Op2Agrees) but not for complex values.
- Exprs.Substitute: its contract states only the size. What it computes is stated through Exprs.SubstituteIsRename and the other `Substitute` lemmas.
- `Factorial` and `Gamma` are kept as nodes with no evaluation, because no shown code evaluates them. Any differentiator beyond the legacy stub is left out for the same reason.
- `src/analysis`, `src/bin`, `src/main.rs` and both `prelude.rs` files are left out. They are driver loops, printing and re-exports.
- Rust `panic!` messages are left out. A panic is modelled as the single outcome `Panic`.

## Findings

| source | as written | input that shows it | evidently intended | confidence | as-written member | corrected member |
|---|---|---|---|---|---|---|
| src/number/number.rs:169-170 | `Real(x) - Complex(z, i)` and `Complex(z, i) - Real(x)` both give `Complex(x - z, i)` | `Real(0) - Complex(0, 1)` gives `Complex(0, 1)`, and adding `i` back gives `2i`; `Complex(1, 0) - Real(0)` gives `Complex(-1, 0)` | componentwise subtraction: `Complex(x - z, -i)` and `Complex(z - x, i)` | not executed; high | Numbers.SubAsWritten, used by Evaluator.Evaluate and Simplifier.SimplifySub, shown by Numbers.SubAsWrittenIsNotInverseOfAdd and Evaluator.EvaluateSubDiffers | Numbers.Sub, with Numbers.SubUndoesAdd; used by Evaluator.Evaluate in the corrected arithmetic |
| src/number/number.rs:205-211 | `Complex(u, v) / Real(x)` gives `Complex(u*x/x², -(v*x)/x²)`, which negates the imaginary part | `Complex(0, 1) / Real(1)` gives `Complex(0, -1)` | `Complex(u/x, v/x)` | not executed; high | Numbers.DivAsWritten, used by Evaluator.Evaluate, shown by Numbers.DivAsWrittenNegatesImaginary and Evaluator.EvaluateDivDiffers | Numbers.Div, with Numbers.DivUndoesMul; used by Evaluator.Evaluate in the corrected arithmetic |
| src/expr/expr.rs:324-329 | `e - c` builds `Sub(Const c, e)`, which means `c - e` | `var('x') - 1.0` at `x = 0` means 1, not -1 | `Sub(e, Const c)`, as `c - e` at lines 316-321 keeps its order | not executed; high | Exprs.MinusConstAsWritten, shown by Semantics.MinusConstAsWrittenMeans | Exprs.MinusConst, with Semantics.MinusConstMeans |
| src/expr/simplify.rs:44-61 | when the arguments of `cos` and `sin` differ, the sum is rebuilt from the arguments, so the `cos` and `sin` wrappers are dropped | `cos(x)^2 + sin(y)^2` becomes `x^2 + y^2` | rebuild `cos(x)^2 + sin(y)^2` unchanged, as the other power pairs are | not executed; high | Simplifier.TrigArmAsWritten, used by Simplifier.Simplify, shown by Simplifier.PythagoreanMismatch | Simplifier.TrigArm, with Simplifier.TrigArmsAgree |
| src/calc/evaluator.rs:59-65 | a partial `(Var c, Const rv)` with `c != sym` is rebuilt as `Sub(Const rv, Var c)`, and likewise for `Div` at lines 107-113 | `y - 3` evaluated for `x` becomes `3 - y`, which at `y = 1` means 2 instead of -2; `y / 2` becomes `2 / y` | keep the operands in order, as `Pow` at lines 172-178 does | not executed; high | CalcEvaluator.EvaluateAsWritten, shown by CalcEvaluator.EvaluateAsWrittenReverses | CalcEvaluator.Evaluate, with CalcEvaluator.EvaluatePreservesMeaning |
| src/calc/expr.rs:127-133 | the draft `evaluate` rebuilds a partial `(Var c, Const rv)` difference as `Sub(Const rv, Var c)` | `y - 3` evaluated for `x` becomes `3 - y` | keep the operands in order | not executed; high | CalcExprs.DraftEvaluateAsWritten, shown by CalcExprs.DraftEvaluateAsWrittenReverses | CalcExprs.DraftEvaluate, with CalcEvaluator.DraftEvaluatePreservesMeaning |
