/** Equality of dependencies up to reordering, by mutual elimination of common operands. */
module KconfigEq {
  import opened KconfigExpr

  /** Compares every operand of `e1` with every operand of `e2`, where operands are taken at the
      level of operator `t`, and replaces each pair found equal by the neutral operand of `t`. */
  function EliminateEq1(t: Op, e1: Expr, e2: Expr): (r: (Expr, Expr))
    ensures Size(r.0) <= Size(e1) && Size(r.1) <= Size(e2)
    decreases Size(e1) + Size(e2), if IsNode(t, e1) || IsNode(t, e2) then 0 else 3
  {
    if IsNode(t, e1) then
      var a := EliminateEq1(t, e1.l, e2);
      var b := EliminateEq1(t, e1.r, a.1);
      (Bin(t, a.0, b.0), b.1)
    else if IsNode(t, e2) then
      var a := EliminateEq1(t, e1, e2.l);
      var b := EliminateEq1(t, a.0, e2.r);
      (b.0, Bin(t, a.1, b.1))
    else if e1 == e2 && IsYN(e1) then (e1, e2)
    else if !ExprEq(e1, e2) then (e1, e2)
    else (Unit(t), Unit(t))
  }

  /** The two elimination passes, before constant folding. */
  function EliminateEqPasses(e1: Expr, e2: Expr): (r: (Expr, Expr))
    decreases Size(e1) + Size(e2), 1, 0
  {
    var a := if e1.Bin? then EliminateEq1(e1.op, e1, e2) else (e1, e2);
    if a.1.Bin? && !IsNode(a.1.op, a.0) then EliminateEq1(a.1.op, a.0, a.1) else a
  }

  /** Removes the operands common to both expressions. */
  function EliminateEq(e1: Expr, e2: Expr): (r: (Expr, Expr))
    decreases Size(e1) + Size(e2), 1, 1
  {
    var b := EliminateEqPasses(e1, e2);
    (EliminateYn(b.0), EliminateYn(b.1))
  }

  /** The equality test; works on copies, so its arguments are unaffected. */
  predicate ExprEq(e1: Expr, e2: Expr)
    decreases Size(e1) + Size(e2), 2
  {
    match (e1, e2)
    case (Comp(r1, a1, b1), Comp(r2, a2, b2)) => r1 == r2 && a1 == a2 && b1 == b2
    case (Sym(s1), Sym(s2)) => s1 == s2
    case (Not(x1), Not(x2)) => ExprEq(x1, x2)
    case (Bin(o1, _, _), Bin(o2, _, _)) =>
      o1 == o2 &&
      var r := EliminateEq(e1, e2);
      r.0.Sym? && r.0 == r.1
    case _ => false
  }

  predicate ExprEqMaybe(e1: MaybeExpr, e2: MaybeExpr) {
    if e1.Absent? || e2.Absent? then IsYes(e1) && IsYes(e2)
    else ExprEq(e1.expr, e2.expr)
  }

  /** The conjunction (disjunction) of the operands of `e1` that `EliminateEq1` strikes out. */
  ghost function CommonPart(t: Op, e1: Expr, e2: Expr): Expr
    decreases Size(e1) + Size(e2)
  {
    if IsNode(t, e1) then
      Bin(t, CommonPart(t, e1.l, e2), CommonPart(t, e1.r, EliminateEq1(t, e1.l, e2).1))
    else if IsNode(t, e2) then
      Bin(t, CommonPart(t, e1, e2.l), CommonPart(t, EliminateEq1(t, e1, e2.l).0, e2.r))
    else if e1 == e2 && IsYN(e1) then Unit(t)
    else if !ExprEq(e1, e2) then Unit(t)
    else e1
  }

  lemma FactorTwo(t: Op, m1: Tri, m2: Tri, a: Tri, b: Tri, c: Tri)
    ensures Combine(t, Combine(t, m1, a), Combine(t, m2, b))
            == Combine(t, Combine(t, m1, m2), Combine(t, a, b))
    ensures Combine(t, m1, Combine(t, m2, c)) == Combine(t, Combine(t, m1, m2), c)
  {
  }

  /** Elimination factors both trees by one common part: e1 = M t e1', e2 = M t e2'. */
  lemma {:induction false} EliminateEq1Factors(v: Valuation, t: Op, e1: Expr, e2: Expr)
    requires WellTyped(v)
    ensures var r := EliminateEq1(t, e1, e2);
            var m := Eval(v, CommonPart(t, e1, e2));
            && Eval(v, e1) == Combine(t, m, Eval(v, r.0))
            && Eval(v, e2) == Combine(t, m, Eval(v, r.1))
    decreases Size(e1) + Size(e2), if IsNode(t, e1) || IsNode(t, e2) then 0 else 3
  {
    if IsNode(t, e1) {
      var a := EliminateEq1(t, e1.l, e2);
      var b := EliminateEq1(t, e1.r, a.1);
      EliminateEq1Factors(v, t, e1.l, e2);
      EliminateEq1Factors(v, t, e1.r, a.1);
      assert EliminateEq1(t, e1, e2) == (Bin(t, a.0, b.0), b.1);
      FactorTwo(t, Eval(v, CommonPart(t, e1.l, e2)), Eval(v, CommonPart(t, e1.r, a.1)),
                Eval(v, a.0), Eval(v, b.0), Eval(v, b.1));
    } else if IsNode(t, e2) {
      var a := EliminateEq1(t, e1, e2.l);
      var b := EliminateEq1(t, a.0, e2.r);
      EliminateEq1Factors(v, t, e1, e2.l);
      EliminateEq1Factors(v, t, a.0, e2.r);
      assert EliminateEq1(t, e1, e2) == (b.0, Bin(t, a.1, b.1));
      FactorTwo(t, Eval(v, CommonPart(t, e1, e2.l)), Eval(v, CommonPart(t, a.0, e2.r)),
                Eval(v, a.1), Eval(v, b.1), Eval(v, b.0));
    } else if ExprEq(e1, e2) {
      ExprEqSound(v, e1, e2);
    }
  }

  /** Whenever the test succeeds the two expressions agree under every valuation. */
  lemma {:induction false} ExprEqSound(v: Valuation, e1: Expr, e2: Expr)
    requires WellTyped(v)
    requires ExprEq(e1, e2)
    ensures Eval(v, e1) == Eval(v, e2)
    decreases Size(e1) + Size(e2), 2
  {
    match (e1, e2)
    case (Not(x1), Not(x2)) => ExprEqSound(v, x1, x2);
    case (Bin(o, _, _), Bin(_, _, _)) =>
      SpineKept(o, e1, e2);
      EliminateEq1Factors(v, o, e1, e2);
      var a := EliminateEq1(o, e1, e2);
      assert EliminateEqPasses(e1, e2) == a;
      EliminateYnEval(v, a.0);
      EliminateYnEval(v, a.1);
    case _ =>
  }

  /** A pass for `t` leaves nodes of type `t` in place. */
  lemma {:induction false} SpineKept(t: Op, e1: Expr, e2: Expr)
    ensures IsNode(t, e1) ==> IsNode(t, EliminateEq1(t, e1, e2).0)
    ensures IsNode(t, e2) ==> IsNode(t, EliminateEq1(t, e1, e2).1)
    decreases Size(e1) + Size(e2)
  {
    if IsNode(t, e1) {
      SpineKept(t, e1.l, e2);
      SpineKept(t, e1.r, EliminateEq1(t, e1.l, e2).1);
    }
  }

  lemma ExprEqMaybeSound(v: Valuation, e1: MaybeExpr, e2: MaybeExpr)
    requires WellTyped(v)
    requires ExprEqMaybe(e1, e2)
    ensures EvalMaybe(v, e1) == EvalMaybe(v, e2)
  {
    if e1.Present? && e2.Present? {
      ExprEqSound(v, e1.expr, e2.expr);
    }
  }

  /** A pass can only lose the order, never create it. */
  lemma FactorMonotone(v: Valuation, t: Op, e1: Expr, e2: Expr)
    requires WellTyped(v)
    ensures var r := EliminateEq1(t, e1, e2);
            Eval(v, r.0) <= Eval(v, r.1) ==> Eval(v, e1) <= Eval(v, e2)
  {
    EliminateEq1Factors(v, t, e1, e2);
  }

  /** The superset test: if elimination reduces `e2` to y then `e1` never exceeds `e2`, whichever
      of the `&&` and `||` passes ran. */
  lemma EliminateEqSuperset(v: Valuation, e1: Expr, e2: Expr)
    requires WellTyped(v)
    requires EliminateEq(e1, e2).1 == Sym(SymYes)
    ensures Eval(v, e1) <= Eval(v, e2)
  {
    var a := if e1.Bin? then EliminateEq1(e1.op, e1, e2) else (e1, e2);
    var b := EliminateEqPasses(e1, e2);
    EliminateYnEval(v, b.1);
    assert Eval(v, b.1) == Y;
    if a.1.Bin? && !IsNode(a.1.op, a.0) {
      FactorMonotone(v, a.1.op, a.0, a.1);
    }
    if e1.Bin? {
      FactorMonotone(v, e1.op, e1, e2);
    }
  }
}
