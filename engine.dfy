/** The enumeration of `main` (propcheck.cc:389-428): every proposition
    but the last is an axiom, the last is the theorem, and the masks
    `0, 1, ..., max` are tried in ascending order until one satisfies the
    axioms and falsifies the theorem.

    The outcome is specified exactly: the smallest refuting mask, or no
    mask satisfying the axioms, or neither. With `max` the all-ones mask
    of the registered variables, that outcome decides the question for
    every assignment whatsoever. */
module Engine {
  import opened Expressions

  datatype Outcome =
    | CounterExample(mask: Mask)
    | Inconsistent
    | Verified

  /** The axioms, all propositions but the last, evaluate to nonzero
      under `x`. */
  predicate AxiomsHold(props: seq<Expr>, x: Mask)
    requires |props| >= 1
  {
    forall k :: 0 <= k < |props| - 1 ==> Eval(props[k], x) != 0
  }

  /** `x` satisfies the axioms and the theorem evaluates to 0 under it. */
  predicate Refutes(props: seq<Expr>, x: Mask)
    requires |props| >= 1
  {
    AxiomsHold(props, x) && Eval(props[|props| - 1], x) == 0
  }

  /** The outcome the enumeration of the masks `0 .. max` must report. */
  ghost predicate IsVerdict(props: seq<Expr>, max: Mask, o: Outcome)
    requires |props| >= 1
  {
    match o
    case CounterExample(x) =>
      x <= max && Refutes(props, x) && forall y: Mask :: y < x ==> !Refutes(props, y)
    case Inconsistent =>
      forall y: Mask :: y <= max ==> !AxiomsHold(props, y)
    case Verified =>
      (exists y: Mask :: y <= max && AxiomsHold(props, y)) &&
      forall y: Mask :: y <= max ==> !Refutes(props, y)
  }

  /** At most one outcome meets the specification. */
  lemma VerdictUnique(props: seq<Expr>, max: Mask, o1: Outcome, o2: Outcome)
    requires |props| >= 1
    requires IsVerdict(props, max, o1) && IsVerdict(props, max, o2)
    ensures o1 == o2
  {
  }

  /** The axiom loop: the index of the first axiom that evaluates to 0
      under `x`, or the index of the theorem when every axiom holds. */
  method CheckAxioms(props: seq<Expr>, x: Mask) returns (i: nat)
    requires |props| >= 1
    ensures i <= |props| - 1
    ensures forall k :: 0 <= k < i ==> Eval(props[k], x) != 0
    ensures i < |props| - 1 ==> Eval(props[i], x) == 0
    ensures i == |props| - 1 <==> AxiomsHold(props, x)
  {
    i := 0;
    while i < |props| - 1 && Eval(props[i], x) != 0
      invariant i <= |props| - 1
      invariant forall k :: 0 <= k < i ==> Eval(props[k], x) != 0
    {
      i := i + 1;
    }
  }

  /** The mask loop: stops at the first mask that satisfies the axioms and
      falsifies the theorem, and otherwise tells apart axioms that no mask
      up to `max` satisfies from a theorem that holds wherever they do. */
  method Enumerate(props: seq<Expr>, max: Mask) returns (o: Outcome)
    requires |props| >= 1
    ensures IsVerdict(props, max, o)
  {
    var consistent := false;
    ghost var seen: Mask := 0;
    var x: Mask := 0;
    while x <= max
      invariant x <= max + 1
      invariant forall y: Mask :: y < x ==> !Refutes(props, y)
      invariant consistent ==> seen < x && AxiomsHold(props, seen)
      invariant !consistent ==> forall y: Mask :: y < x ==> !AxiomsHold(props, y)
    {
      var i := CheckAxioms(props, x);
      if i == |props| - 1 {
        consistent := true;
        seen := x;
        if Eval(props[i], x) == 0 {
          return CounterExample(x);
        }
      }
      x := x + 1;
    }
    if !consistent {
      return Inconsistent;
    }
    return Verified;
  }

  /** The last mask the enumeration tries for `count` variables: the mask
      with the low `count` bits set, and 1 when there are none (`max`
      starts at 1). */
  function Bound(count: nat): (max: Mask)
    ensures count >= 1 ==> max + 1 == Pow2(count)
    ensures count == 0 ==> max == 1
  {
    if count == 0 then 1 else Pow2(count) - 1
  }

  /** The loop computing `max`, with the shift done in the width of the
      mask: `max` starts at 1 and each step sets bit `i`, which is still
      clear (`max < 2^i`), so the `|=` adds `2^i`. */
  method MaxMask(count: nat) returns (max: Mask)
    ensures max == Bound(count)
  {
    max := 1;
    var i := 1;
    while i < count
      invariant 1 <= i && (i <= count || i == 1)
      invariant max == Pow2(i) - 1
    {
      max := max + Pow2(i);
      i := i + 1;
      assert Pow2(i) == 2 * Pow2(i - 1);
    }
  }

  /** `1 << i` as written: the shift is done on an `int` and the result
      widened to the 64-bit mask type, so at `i == 31` the set sign bit is
      copied into the upper half. */
  function ShiftAsWritten(i: nat): bv64
    requires i < 32
  {
    if i < 31 then (1 as bv64) << i else 0xFFFF_FFFF_8000_0000
  }

  /** `max` as the loop computes it with the shift as written. */
  function MaxAsWritten(count: nat): (max: bv64)
    requires count <= 32
  {
    if count <= 1 then 1 else (MaxAsWritten(count - 1) | ShiftAsWritten(count - 1))
  }

  /** Setting bit `k` of the mask of the low `k` bits gives the mask of
      the low `k + 1` bits. */
  lemma OnesStep(k: bv64)
    requires k < 31
    ensures (((1 as bv64) << k) - 1) | ((1 as bv64) << k) == ((1 as bv64) << (k + 1)) - 1
  {
  }

  /** Shifting by a count and by the same count as a word agree. */
  lemma ShiftByCount(c: nat)
    requires 1 <= c <= 31
    ensures (1 as bv64) << (c - 1) == (1 as bv64) << ((c - 1) as bv64)
    ensures (1 as bv64) << c == (1 as bv64) << (((c - 1) as bv64) + 1)
  {
  }

  /** Up to 31 variables the loop as written computes the intended
      mask of the low `count` bits. */
  lemma {:induction false} MaxAsWrittenBelow32(count: nat)
    requires 1 <= count <= 31
    ensures MaxAsWritten(count) == ((1 as bv64) << count) - 1
  {
    if count > 1 {
      MaxAsWrittenBelow32(count - 1);
      ShiftByCount(count);
      OnesStep((count - 1) as bv64);
    }
  }

  /** With 32 variables the bound as written is the all-ones word: every
      64-bit mask passes the test `x <= max`, and `x++` on the last one
      wraps round to 0, so the loop cannot end by its test. */
  lemma MaxAsWrittenAt32(x: bv64)
    ensures MaxAsWritten(32) == 0xFFFF_FFFF_FFFF_FFFF
    ensures x <= MaxAsWritten(32)
    ensures x == MaxAsWritten(32) ==> x + 1 == 0
  {
    MaxAsWrittenBelow32(31);
  }

  /** The low `n` bits of `x`, that is `x % 2^n`, built bit by bit. */
  function Low(x: Mask, n: nat): (y: Mask)
    ensures y < Pow2(n)
  {
    if n == 0 then 0 else 2 * Low(x / 2, n - 1) + x % 2
  }

  /** The low `n` bits of `x` are those of `x`. */
  lemma {:induction false} LowBits(x: Mask, n: nat, i: nat)
    requires i < n
    ensures Bit(Low(x, n), i) == Bit(x, i)
    decreases i
  {
    if i > 0 {
      assert Low(x, n) / 2 == Low(x / 2, n - 1);
      LowBits(x / 2, n - 1, i - 1);
    }
  }

  /** Every assignment agrees, on the formulas over `count` variables, with
      one of the masks the enumeration tries. */
  lemma Representative(props: seq<Expr>, count: nat, x: Mask) returns (y: Mask)
    requires forall k :: 0 <= k < |props| ==> VarsBelow(props[k], count)
    ensures y <= Bound(count)
    ensures forall k :: 0 <= k < |props| ==> Eval(props[k], y) == Eval(props[k], x)
  {
    y := Low(x, count);
    forall i: nat | i < count
      ensures Bit(y, i) <==> Bit(x, i)
    {
      LowBits(x, count, i);
    }
    forall k | 0 <= k < |props|
      ensures Eval(props[k], y) == Eval(props[k], x)
    {
      EvalIgnoresHighBits(props[k], count, y, x);
    }
  }

  /** The meaning of the axioms: each one holds under `x`. */
  ghost predicate AxiomsTrue(props: seq<Expr>, x: Mask)
    requires |props| >= 1
  {
    forall k :: 0 <= k < |props| - 1 ==> Holds(props[k], x)
  }

  /** Some assignment makes every axiom true. */
  ghost predicate Consistent(props: seq<Expr>)
    requires |props| >= 1
  {
    exists x: Mask :: AxiomsTrue(props, x)
  }

  /** Every assignment that makes the axioms true makes the theorem true. */
  ghost predicate Entailed(props: seq<Expr>)
    requires |props| >= 1
  {
    forall x: Mask :: AxiomsTrue(props, x) ==> Holds(props[|props| - 1], x)
  }

  /** The evaluator's test of the axioms is their meaning. */
  lemma AxiomsHoldMeans(props: seq<Expr>, x: Mask)
    requires |props| >= 1
    ensures AxiomsHold(props, x) <==> AxiomsTrue(props, x)
    ensures Refutes(props, x) <==> AxiomsTrue(props, x) && !Holds(props[|props| - 1], x)
  {
    forall k | 0 <= k < |props|
      ensures Eval(props[k], x) != 0 <==> Holds(props[k], x)
    {
      EvalMeansHolds(props[k], x);
    }
  }

  /** With `max` the bound for the registered variables, the outcome
      answers the logical question for every assignment: "not consistent"
      exactly when no assignment satisfies the axioms, "verified" exactly
      when some does and all of them satisfy the theorem, and a
      counterexample exactly when the axioms do not entail the theorem. */
  lemma OutcomeMeaning(props: seq<Expr>, count: nat, o: Outcome)
    requires |props| >= 1
    requires forall k :: 0 <= k < |props| ==> VarsBelow(props[k], count)
    requires IsVerdict(props, Bound(count), o)
    ensures o.Inconsistent? <==> !Consistent(props)
    ensures o.Verified? <==> Consistent(props) && Entailed(props)
    ensures o.CounterExample? <==> Consistent(props) && !Entailed(props)
  {
    match o
    case CounterExample(m) =>
      AxiomsHoldMeans(props, m);
    case Inconsistent =>
      if Consistent(props) {
        var x: Mask :| AxiomsTrue(props, x);
        var y := Representative(props, count, x);
        AxiomsHoldMeans(props, x);
        AxiomsHoldMeans(props, y);
      }
    case Verified =>
      var y: Mask :| y <= Bound(count) && AxiomsHold(props, y);
      AxiomsHoldMeans(props, y);
      forall x: Mask | AxiomsTrue(props, x)
        ensures Holds(props[|props| - 1], x)
      {
        var z := Representative(props, count, x);
        AxiomsHoldMeans(props, x);
        AxiomsHoldMeans(props, z);
        assert !Refutes(props, z);
      }
  }
}
