/** When the equality test succeeds.

    The test is described as set-like: two expressions are equal if every operand of one equals some
    operand of the other, recursively.  It counts operands instead: each one can be struck out only
    once, so at every level it compares multisets. */
module KconfigOperands {
  import opened KconfigExpr
  import opened KconfigEq

  /** An expression up to the order and grouping of operands, at every level. */
  datatype Canon = Leaf(e: Expr) | Negation(c: Canon) | Level(op: Op, operands: multiset<Canon>)

  function CanonOf(e: Expr): Canon
    decreases e, 1
  {
    match e
    case Not(x) => Negation(CanonOf(x))
    case Bin(t, _, _) => Level(t, Operands(t, e))
    case _ => Leaf(e)
  }

  /** The operands at the level of operator t, with multiplicity; neutral ones do not count. */
  function Operands(t: Op, e: Expr): multiset<Canon>
    decreases e, if IsNode(t, e) then 0 else 2
  {
    if IsNode(t, e) then Operands(t, e.l) + Operands(t, e.r)
    else if e == Unit(t) then multiset{}
    else multiset{CanonOf(e)}
  }

  /** No operand of && or || is y or n, at any depth. */
  predicate Clean(e: Expr) {
    match e
    case Not(x) => Clean(x)
    case Bin(_, l, r) => !IsYN(l) && !IsYN(r) && Clean(l) && Clean(r)
    case _ => true
  }

  /** The same during elimination, where struck-out operands at the level of t are neutral. */
  predicate CleanLevel(t: Op, e: Expr) {
    if IsNode(t, e) then CleanLevel(t, e.l) && CleanLevel(t, e.r) else e == Unit(t) || (Clean(e) && !IsYN(e))
  }

  lemma {:induction false} CleanIsLevel(t: Op, e: Expr)
    requires Clean(e) && !IsYN(e)
    ensures CleanLevel(t, e)
  {
    if IsNode(t, e) {
      CleanIsLevel(t, e.l);
      CleanIsLevel(t, e.r);
    }
  }

  /** Taking away l + r is taking away l and then r. */
  lemma DifferenceTwice(l: multiset<Canon>, r: multiset<Canon>, b: multiset<Canon>)
    ensures (l - b) + (r - (b - l)) == (l + r) - b
    ensures (b - l) - r == b - (l + r)
  {
  }

  /** Mutual elimination is multiset difference, both ways. */
  ghost predicate Differ(t: Op, e1: Expr, e2: Expr, r: (Expr, Expr)) {
    && CleanLevel(t, r.0) && Operands(t, r.0) == Operands(t, e1) - Operands(t, e2)
    && CleanLevel(t, r.1) && Operands(t, r.1) == Operands(t, e2) - Operands(t, e1)
  }

  lemma DifferLeft(t: Op, l: Expr, r: Expr, e2: Expr, a: (Expr, Expr), b: (Expr, Expr))
    requires Differ(t, l, e2, a) && Differ(t, r, a.1, b)
    ensures Differ(t, Bin(t, l, r), e2, (Bin(t, a.0, b.0), b.1))
  {
    assert Operands(t, Bin(t, l, r)) == Operands(t, l) + Operands(t, r);
    assert Operands(t, Bin(t, a.0, b.0)) == Operands(t, a.0) + Operands(t, b.0);
    DifferenceTwice(Operands(t, l), Operands(t, r), Operands(t, e2));
  }

  lemma DifferRight(t: Op, e1: Expr, l: Expr, r: Expr, a: (Expr, Expr), b: (Expr, Expr))
    requires Differ(t, e1, l, a) && Differ(t, a.0, r, b)
    ensures Differ(t, e1, Bin(t, l, r), (b.0, Bin(t, a.1, b.1)))
  {
    DifferenceTwice(Operands(t, l), Operands(t, r), Operands(t, e1));
  }

  lemma UnitOrOperand(t: Op, e: Expr)
    requires CleanLevel(t, e) && !IsNode(t, e)
    ensures Operands(t, e) == if e == Unit(t) then multiset{} else multiset{CanonOf(e)}
    ensures e != Unit(t) ==> !ExprEq(Unit(t), e) && !ExprEq(e, Unit(t))
  {
  }

  /** Two leaves of a level are struck out exactly if they are the same operand. */
  lemma DifferLeaves(t: Op, e1: Expr, e2: Expr, r: (Expr, Expr))
    requires CleanLevel(t, e1) && CleanLevel(t, e2) && !IsNode(t, e1) && !IsNode(t, e2)
    requires e1 != Unit(t) && e2 != Unit(t) ==> (ExprEq(e1, e2) <==> CanonOf(e1) == CanonOf(e2))
    requires r == EliminateEq1(t, e1, e2)
    ensures Differ(t, e1, e2, r)
  {
    UnitOrOperand(t, e1);
    UnitOrOperand(t, e2);
    UnitOrOperand(t, Unit(t));
    assert r == if e1 == e2 && IsYN(e1) then (e1, e2) else if !ExprEq(e1, e2) then (e1, e2) else (Unit(t), Unit(t));
    if e1 != Unit(t) && e2 != Unit(t) {
      OneEach(CanonOf(e1), CanonOf(e2));
    }
  }

  lemma OneEach(c: Canon, d: Canon)
    ensures multiset{c} - multiset{d} == if c == d then multiset{} else multiset{c}
  {
  }

  lemma {:induction false} EliminateOperands(t: Op, e1: Expr, e2: Expr)
    requires CleanLevel(t, e1) && CleanLevel(t, e2)
    ensures Differ(t, e1, e2, EliminateEq1(t, e1, e2))
    decreases Size(e1) + Size(e2), if IsNode(t, e1) || IsNode(t, e2) then 0 else 3
  {
    if IsNode(t, e1) {
      var a := EliminateEq1(t, e1.l, e2);
      EliminateOperands(t, e1.l, e2);
      EliminateOperands(t, e1.r, a.1);
      DifferLeft(t, e1.l, e1.r, e2, a, EliminateEq1(t, e1.r, a.1));
    } else if IsNode(t, e2) {
      var a := EliminateEq1(t, e1, e2.l);
      EliminateOperands(t, e1, e2.l);
      EliminateOperands(t, a.0, e2.r);
      DifferRight(t, e1, e2.l, e2.r, a, EliminateEq1(t, a.0, e2.r));
    } else {
      if e1 != Unit(t) && e2 != Unit(t) {
        ExprEqExact(e1, e2);
      }
      DifferLeaves(t, e1, e2, EliminateEq1(t, e1, e2));
    }
  }

  lemma {:induction false} CleanHasNoYN(e: Expr)
    requires Clean(e)
    ensures !HasYN(e) && EliminateYn(e) == e
  {
    if e.Bin? {
      CleanHasNoYN(e.l);
      CleanHasNoYN(e.r);
    }
    EliminateYnShrinks(e);
  }

  /** Folding keeps the operands, and leaves the neutral one exactly if there are none. */
  ghost predicate Folded(t: Op, e: Expr, f: Expr) {
    CleanLevel(t, f) && Operands(t, f) == Operands(t, e) && (f == Unit(t) <==> Operands(t, e) == multiset{})
  }

  lemma FoldedNode(t: Op, e: Expr, l: Expr, r: Expr)
    requires IsNode(t, e) && Folded(t, e.l, l) && Folded(t, e.r, r)
    ensures Folded(t, e, if l == Unit(t) then r else if r == Unit(t) then l else Bin(t, l, r))
  {
  }

  lemma {:induction false} FoldOperands(t: Op, e: Expr)
    requires CleanLevel(t, e)
    ensures Folded(t, e, EliminateYn(e)) && EliminateYn(e) != Zero(t)
  {
    if IsNode(t, e) {
      FoldOperands(t, e.l);
      FoldOperands(t, e.r);
      FoldedNode(t, e, EliminateYn(e.l), EliminateYn(e.r));
    } else if e != Unit(t) {
      CleanHasNoYN(e);
    }
  }

  /** Expressions without constant operands are found equal exactly when they are the same up to the
      order and grouping of operands at every level, each operand as often on one side as on the
      other. */
  lemma {:induction false} ExprEqExact(e1: Expr, e2: Expr)
    requires Clean(e1) && Clean(e2)
    ensures ExprEq(e1, e2) <==> CanonOf(e1) == CanonOf(e2)
    decreases Size(e1) + Size(e2), 2
  {
    match (e1, e2)
    case (Not(x1), Not(x2)) => ExprEqExact(x1, x2);
    case (Bin(t, _, _), Bin(u, _, _)) =>
      if t == u {
        LevelEqual(t, e1, e2);
      }
    case _ =>
  }

  lemma {:induction false} LevelEqual(t: Op, e1: Expr, e2: Expr)
    requires Clean(e1) && Clean(e2) && IsNode(t, e1) && IsNode(t, e2)
    ensures ExprEq(e1, e2) <==> Operands(t, e1) == Operands(t, e2)
    decreases Size(e1) + Size(e2), 1
  {
    var a, b := Operands(t, e1), Operands(t, e2);
    CleanIsLevel(t, e1);
    CleanIsLevel(t, e2);
    EliminateOperands(t, e1, e2);
    SpineKept(t, e1, e2);
    var r := EliminateEq1(t, e1, e2);
    assert EliminateEqPasses(e1, e2) == r;
    FoldOperands(t, r.0);
    FoldOperands(t, r.1);
    var x, y := EliminateYn(r.0), EliminateYn(r.1);
    assert EliminateEq(e1, e2) == (x, y);
    SameLeftOver(t, a, b, x, y);
  }

  /** What is left over on both sides can only be the same symbol if nothing is left. */
  lemma SameLeftOver(t: Op, a: multiset<Canon>, b: multiset<Canon>, x: Expr, y: Expr)
    requires Operands(t, x) == a - b && Operands(t, y) == b - a
    requires (x == Unit(t) <==> a - b == multiset{}) && (y == Unit(t) <==> b - a == multiset{})
    ensures x.Sym? && x == y <==> a == b
  {
    DifferencesEmpty(a, b);
    assert x.Sym? && x != Unit(t) ==> Leaf(x) in a - b;
    assert y.Sym? && y != Unit(t) ==> Leaf(y) in b - a;
  }

  lemma DifferencesEmpty(a: multiset<Canon>, b: multiset<Canon>)
    ensures a == b <==> a - b == multiset{} && b - a == multiset{}
  {
    if a - b == multiset{} && b - a == multiset{} {
      forall c: Canon
        ensures a[c] == b[c]
      {
        assert (a - b)[c] == 0 && (b - a)[c] == 0;
      }
    }
  }

  // ----- the superset test -----

  /** Whatever the first tree is, a pass leaves a clean second tree clean. */
  lemma {:induction false} StaysClean(t: Op, e1: Expr, e2: Expr)
    requires CleanLevel(t, e2)
    ensures CleanLevel(t, EliminateEq1(t, e1, e2).1)
    decreases Size(e1) + Size(e2)
  {
    if IsNode(t, e1) {
      StaysClean(t, e1.l, e2);
      StaysClean(t, e1.r, EliminateEq1(t, e1.l, e2).1);
    } else if IsNode(t, e2) {
      StaysClean(t, e1, e2.l);
      StaysClean(t, EliminateEq1(t, e1, e2.l).0, e2.r);
    }
  }

  /** A pass for || never leaves y, since it strikes out by n. */
  lemma NeverYes(e1: Expr, e2: Expr)
    requires CleanLevel(Disj, e2)
    ensures EliminateYn(EliminateEq1(Disj, e1, e2).1) != Sym(SymYes)
  {
    StaysClean(Disj, e1, e2);
    FoldOperands(Disj, EliminateEq1(Disj, e1, e2).1);
  }

  /** A single operand strikes out at most one. */
  ghost predicate OneStruck(t: Op, e1: Expr, e2: Expr, r: (Expr, Expr)) {
    && CleanLevel(t, r.1)
    && ((r.0 == e1 && |Operands(t, r.1)| == |Operands(t, e2)|)
        || (r.0 == Unit(t) && |Operands(t, r.1)| + 1 >= |Operands(t, e2)|))
  }

  lemma {:induction false} StrikesOne(t: Op, e1: Expr, e2: Expr)
    requires !IsNode(t, e1) && CleanLevel(t, e2)
    ensures OneStruck(t, e1, e2, EliminateEq1(t, e1, e2))
    ensures e1 == Unit(t) ==> |Operands(t, EliminateEq1(t, e1, e2).1)| == |Operands(t, e2)|
    decreases Size(e2)
  {
    if IsNode(t, e2) {
      var a := EliminateEq1(t, e1, e2.l);
      StrikesOne(t, e1, e2.l);
      StrikesOne(t, a.0, e2.r);
    } else {
      UnitOrOperand(t, e2);
    }
  }

  lemma {:induction false} SomeOperand(t: Op, e: Expr)
    requires Clean(e) && !IsYN(e)
    ensures |Operands(t, e)| >= 1 && (IsNode(t, e) ==> |Operands(t, e)| >= 2)
  {
    if IsNode(t, e) {
      SomeOperand(t, e.l);
      SomeOperand(t, e.r);
    }
  }

  lemma SingleNeverYes(e1: Expr, e2: Expr)
    requires !IsNode(Conj, e1) && IsNode(Conj, e2) && Clean(e2)
    ensures EliminateYn(EliminateEq1(Conj, e1, e2).1) != Sym(SymYes)
  {
    CleanIsLevel(Conj, e2);
    SomeOperand(Conj, e2);
    StrikesOne(Conj, e1, e2);
    FoldOperands(Conj, EliminateEq1(Conj, e1, e2).1);
  }

  lemma SubsetDifference(a: multiset<Canon>, b: multiset<Canon>)
    ensures b - a == multiset{} <==> b <= a
  {
    if b - a == multiset{} {
      forall c: Canon
        ensures b[c] <= a[c]
      {
        assert (b - a)[c] == 0;
      }
    }
  }

  /** The test whether `e1` is a superset of `e2`: it succeeds if and only if `e1` is an && that has
      every && operand of `e2`, as often as `e2` has it. */
  lemma SupersetFound(e1: Expr, e2: Expr)
    requires Clean(e1) && Clean(e2) && !IsYN(e1) && !IsYN(e2)
    ensures EliminateEq(e1, e2).1 == Sym(SymYes) <==> IsNode(Conj, e1) && Operands(Conj, e2) <= Operands(Conj, e1)
  {
    if IsNode(Conj, e1) {
      SupersetOfAnd(e1, e2);
    } else if e1.Bin? {
      SupersetOfOr(e1, e2);
    } else if IsNode(Conj, e2) {
      SingleNeverYes(e1, e2);
    } else if e2.Bin? {
      CleanIsLevel(Disj, e2);
      NeverYes(e1, e2);
    }
  }

  lemma SupersetOfAnd(e1: Expr, e2: Expr)
    requires Clean(e1) && Clean(e2) && !IsYN(e2) && IsNode(Conj, e1)
    ensures EliminateEq(e1, e2).1 == Sym(SymYes) <==> Operands(Conj, e2) <= Operands(Conj, e1)
  {
    var a := EliminateEq1(Conj, e1, e2);
    CleanIsLevel(Conj, e1);
    CleanIsLevel(Conj, e2);
    EliminateOperands(Conj, e1, e2);
    SpineKept(Conj, e1, e2);
    SubsetDifference(Operands(Conj, e1), Operands(Conj, e2));
    if a.1.Bin? && !IsNode(a.1.op, a.0) {
      CleanIsLevel(Disj, a.1);
      NeverYes(a.0, a.1);
    } else {
      FoldOperands(Conj, a.1);
    }
  }

  lemma SupersetOfOr(e1: Expr, e2: Expr)
    requires Clean(e1) && Clean(e2) && !IsYN(e2) && IsNode(Disj, e1)
    ensures EliminateEq(e1, e2).1 != Sym(SymYes)
  {
    var a := EliminateEq1(Disj, e1, e2);
    CleanIsLevel(Disj, e2);
    StaysClean(Disj, e1, e2);
    SpineKept(Disj, e1, e2);
    if a.1.Bin? && !IsNode(a.1.op, a.0) {
      SingleNeverYes(a.0, a.1);
    } else {
      NeverYes(e1, e2);
    }
  }

  /** So the set-like reading fails for all operands: A && (A && B) and A && B have the same set of
      operands and the same value under every valuation, but are never found equal. */
  lemma RepeatedOperand(t: Op, a: Expr, b: Expr)
    requires Clean(a) && Clean(b) && !IsYN(a) && !IsYN(b) && !IsNode(t, a)
    ensures var e1, e2 := Bin(t, a, Bin(t, a, b)), Bin(t, a, b);
            && (forall x :: x in Operands(t, e1) <==> x in Operands(t, e2))
            && Equiv(e1, e2) && !ExprEq(e1, e2)
  {
    var e1, e2, c := Bin(t, a, Bin(t, a, b)), Bin(t, a, b), CanonOf(a);
    assert Operands(t, a) == multiset{c};
    assert Operands(t, e2) == multiset{c} + Operands(t, b);
    assert Operands(t, e1) == multiset{c} + Operands(t, e2);
    assert Operands(t, e1)[c] == Operands(t, e2)[c] + 1;
    LevelEqual(t, e1, e2);
  }
}
