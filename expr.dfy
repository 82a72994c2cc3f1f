/** Expression trees of propositional formulas and their evaluation on an
    assignment bitmask (propcheck.cc, the `Expr` hierarchy).

    The source's `BOOL` is `unsigned long`: node values are 64-bit words here,
    and every connective computes its value with the same bit operations as
    its `operator()`. An assignment (`U32`, also `unsigned long`) is a natural
    number; "bit i of x" is the lowest bit of `x` shifted right `i` times. */
module Expressions {

  /** A variable index: the registry never hands out more than 32 of them. */
  type VarIndex = i: nat | i < 32

  /** An assignment: bit `i` is the truth value of variable `i`. */
  type Mask = nat

  function Pow2(n: nat): (p: nat)
    ensures p >= 1
  {
    if n == 0 then 1 else 2 * Pow2(n - 1)
  }

  /** `x >> i`: `x` halved `i` times, rounding down. */
  function Shr(x: Mask, i: nat): Mask {
    if i == 0 then x else Shr(x / 2, i - 1)
  }

  /** Bit `i` of `x`, the value of `(x >> i) & 1`. */
  predicate Bit(x: Mask, i: nat) {
    Shr(x, i) % 2 == 1
  }

  datatype Expr =
    | True
    | False
    | Var(index: VarIndex)
    | Not(operand: Expr)
    | And(left: Expr, right: Expr)
    | Or(left: Expr, right: Expr)
    | Xor(left: Expr, right: Expr)
    | Implies(left: Expr, right: Expr)
    | Iff(left: Expr, right: Expr)

  /** The word 0 or the word 1: the values every node produces. */
  predicate IsBit(v: bv64) {
    v == 0 || v == 1
  }

  /** `Var::operator()`: `(x >> i) & 1`, bit `i` of the assignment. */
  function VarValue(x: Mask, i: VarIndex): (v: bv64)
    ensures v == 1 <==> Bit(x, i)
    ensures IsBit(v)
  {
    if Shr(x, i) % 2 == 1 then 1 else 0
  }

  /** `Not::operator()`: `1 ^ a`. */
  function NotValue(a: bv64): (v: bv64)
    requires IsBit(a)
    ensures IsBit(v)
    ensures v != a
  {
    1 ^ a
  }

  /** `And::operator()`: `a & b`. */
  function AndValue(a: bv64, b: bv64): (v: bv64)
    requires IsBit(a) && IsBit(b)
    ensures IsBit(v)
    ensures v == 1 <==> a == 1 && b == 1
  {
    a & b
  }

  /** `Or::operator()`: `a | b`. */
  function OrValue(a: bv64, b: bv64): (v: bv64)
    requires IsBit(a) && IsBit(b)
    ensures IsBit(v)
    ensures v == 1 <==> a == 1 || b == 1
  {
    a | b
  }

  /** `Xor::operator()`: `a ^ b`. */
  function XorValue(a: bv64, b: bv64): (v: bv64)
    requires IsBit(a) && IsBit(b)
    ensures IsBit(v)
    ensures v == 1 <==> a != b
  {
    assert a == b ==> a ^ b == 0;
    a ^ b
  }

  /** `Implies::operator()`: `1 ^ (a & (1 ^ b))`, that is, not (a and not b). */
  function ImpliesValue(a: bv64, b: bv64): (v: bv64)
    requires IsBit(a) && IsBit(b)
    ensures IsBit(v)
    ensures v == 1 <==> a == 0 || b == 1
  {
    1 ^ (a & (1 ^ b))
  }

  /** `Iff::operator()`: `a == b`, as 1 or 0. */
  function IffValue(a: bv64, b: bv64): (v: bv64)
    requires IsBit(a) && IsBit(b)
    ensures IsBit(v)
    ensures v == 1 <==> a == b
  {
    if a == b then 1 else 0
  }

  /** The value of a node under assignment `x`, as each node's `operator()`
      computes it; it is always the word 0 or the word 1. */
  function Eval(e: Expr, x: Mask): (v: bv64)
    ensures IsBit(v)
  {
    match e
    case True => 1
    case False => 0
    case Var(i) => VarValue(x, i)
    case Not(a) => NotValue(Eval(a, x))
    case And(a, b) => AndValue(Eval(a, x), Eval(b, x))
    case Or(a, b) => OrValue(Eval(a, x), Eval(b, x))
    case Xor(a, b) => XorValue(Eval(a, x), Eval(b, x))
    case Implies(a, b) => ImpliesValue(Eval(a, x), Eval(b, x))
    case Iff(a, b) => IffValue(Eval(a, x), Eval(b, x))
  }

  /** The intended meaning of a formula: the classical truth-functional
      semantics, independent of the bit tricks `Eval` uses. */
  predicate Holds(e: Expr, x: Mask) {
    match e
    case True => true
    case False => false
    case Var(i) => Bit(x, i)
    case Not(a) => !Holds(a, x)
    case And(a, b) => Holds(a, x) && Holds(b, x)
    case Or(a, b) => Holds(a, x) || Holds(b, x)
    case Xor(a, b) => Holds(a, x) != Holds(b, x)
    case Implies(a, b) => !Holds(a, x) || Holds(b, x)
    case Iff(a, b) => Holds(a, x) == Holds(b, x)
  }

  /** Every variable of `e` has an index below `n`. */
  predicate VarsBelow(e: Expr, n: nat) {
    match e
    case True => true
    case False => true
    case Var(i) => i < n
    case Not(a) => VarsBelow(a, n)
    case And(a, b) => VarsBelow(a, n) && VarsBelow(b, n)
    case Or(a, b) => VarsBelow(a, n) && VarsBelow(b, n)
    case Xor(a, b) => VarsBelow(a, n) && VarsBelow(b, n)
    case Implies(a, b) => VarsBelow(a, n) && VarsBelow(b, n)
    case Iff(a, b) => VarsBelow(a, n) && VarsBelow(b, n)
  }

  /** A bound on the variable indices stays a bound when it grows. */
  lemma {:induction false} VarsBelowGrows(e: Expr, m: nat, n: nat)
    requires VarsBelow(e, m)
    requires m <= n
    ensures VarsBelow(e, n)
  {
    match e
    case True =>
    case False =>
    case Var(_) =>
    case Not(a) =>
      VarsBelowGrows(a, m, n);
    case And(a, b) =>
      VarsBelowGrows(a, m, n); VarsBelowGrows(b, m, n);
    case Or(a, b) =>
      VarsBelowGrows(a, m, n); VarsBelowGrows(b, m, n);
    case Xor(a, b) =>
      VarsBelowGrows(a, m, n); VarsBelowGrows(b, m, n);
    case Implies(a, b) =>
      VarsBelowGrows(a, m, n); VarsBelowGrows(b, m, n);
    case Iff(a, b) =>
      VarsBelowGrows(a, m, n); VarsBelowGrows(b, m, n);
  }

  /** The word-level evaluator agrees with the truth-functional meaning:
      a node yields 1 exactly when its formula holds. */
  lemma {:induction false} EvalMeansHolds(e: Expr, x: Mask)
    ensures Eval(e, x) == (if Holds(e, x) then 1 else 0)
  {
    match e
    case True =>
    case False =>
    case Var(i) =>
    case Not(a) =>
      EvalMeansHolds(a, x);
    case And(a, b) =>
      EvalMeansHolds(a, x); EvalMeansHolds(b, x);
    case Or(a, b) =>
      EvalMeansHolds(a, x); EvalMeansHolds(b, x);
    case Xor(a, b) =>
      EvalMeansHolds(a, x); EvalMeansHolds(b, x);
    case Implies(a, b) =>
      EvalMeansHolds(a, x); EvalMeansHolds(b, x);
    case Iff(a, b) =>
      EvalMeansHolds(a, x); EvalMeansHolds(b, x);
  }

  /** `Implies(L, R)` agrees with `Not(And(L, Not(R)))` on every assignment. */
  lemma ImpliesIsNotAndNot(l: Expr, r: Expr, x: Mask)
    ensures Eval(Implies(l, r), x) == Eval(Not(And(l, Not(r))), x)
  {
    EvalMeansHolds(Implies(l, r), x);
    EvalMeansHolds(Not(And(l, Not(r))), x);
    assert Holds(And(l, Not(r)), x) == (Holds(l, x) && !Holds(r, x));
  }

  /** A formula whose variables are all below `n` does not look at the
      bits of the assignment from `n` upwards. */
  lemma {:induction false} EvalIgnoresHighBits(e: Expr, n: nat, x: Mask, y: Mask)
    requires VarsBelow(e, n)
    requires forall i: nat :: i < n ==> (Bit(x, i) <==> Bit(y, i))
    ensures Eval(e, x) == Eval(e, y)
  {
    match e
    case True =>
    case False =>
    case Var(i) =>
    case Not(a) =>
      EvalIgnoresHighBits(a, n, x, y);
    case And(a, b) =>
      EvalIgnoresHighBits(a, n, x, y); EvalIgnoresHighBits(b, n, x, y);
    case Or(a, b) =>
      EvalIgnoresHighBits(a, n, x, y); EvalIgnoresHighBits(b, n, x, y);
    case Xor(a, b) =>
      EvalIgnoresHighBits(a, n, x, y); EvalIgnoresHighBits(b, n, x, y);
    case Implies(a, b) =>
      EvalIgnoresHighBits(a, n, x, y); EvalIgnoresHighBits(b, n, x, y);
    case Iff(a, b) =>
      EvalIgnoresHighBits(a, n, x, y); EvalIgnoresHighBits(b, n, x, y);
  }
}
