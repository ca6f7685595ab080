/** Rewriting to negation normal form. */
module KconfigTransform {
  import opened KconfigExpr

  /** Pushing a negation below an operator re-enters the transformation on a larger tree, so
      termination needs a weight in which negation doubles its operand. */
  function Weight(e: Expr): (w: nat)
    ensures w >= 1
  {
    match e
    case Sym(_) => 1
    case Comp(_, _, _) => 2
    case Not(x) => 2 * Weight(x)
    case Bin(_, l, r) => 1 + Weight(l) + Weight(r)
  }

  function Dual(t: Op): Op { if t.Conj? then Disj else Conj }

  function Opposite(rel: Rel): Rel {
    match rel
    case Equal => Unequal
    case Unequal => Equal
    case LessEq => Greater
    case GreaterEq => Less
    case Less => GreaterEq
    case Greater => LessEq
  }

  /** An (in)equality of a boolean symbol with a constant becomes the symbol, its negation or a
      constant; every other comparison stays. */
  function TransformComp(rel: Rel, a: Symbol, b: Symbol): Expr {
    if TypeOf(a) == Boolean && rel == Equal && b == SymNo then Not(Sym(a))
    else if TypeOf(a) == Boolean && rel == Equal && b == SymMod then Sym(SymNo)
    else if TypeOf(a) == Boolean && rel == Equal && b == SymYes then Sym(a)
    else if TypeOf(a) == Boolean && rel == Unequal && b == SymNo then Sym(a)
    else if TypeOf(a) == Boolean && rel == Unequal && b == SymMod then Sym(SymYes)
    else if TypeOf(a) == Boolean && rel == Unequal && b == SymYes then Not(Sym(a))
    else Comp(rel, a, b)
  }

  function TransformNotSym(s: Symbol): Expr {
    match s
    case SymYes => Sym(SymNo)
    case SymMod => Sym(SymMod)
    case SymNo => Sym(SymYes)
    case _ => Not(Sym(s))
  }

  lemma DeMorganLighter(t: Op, l: Expr, r: Expr)
    ensures Weight(Bin(Dual(t), Not(l), Not(r))) < Weight(Not(Bin(t, l, r)))
  {
    assert Weight(Bin(Dual(t), Not(l), Not(r))) == 1 + 2 * Weight(l) + 2 * Weight(r);
  }

  function Transform(e: Expr): (r: Expr)
    ensures Weight(r) <= Weight(e)
    decreases Weight(e)
  {
    match e
    case Sym(_) => e
    case Comp(rel, a, b) => TransformComp(rel, a, b)
    case Bin(t, l, r) => Bin(t, Transform(l), Transform(r))
    case Not(x) =>
      var x' := Transform(x);
      match x'
      case Not(y) => Transform(y)
      case Comp(rel, a, b) => Comp(Opposite(rel), a, b)
      case Bin(t, l, r) =>
        DeMorganLighter(t, l, r);
        Transform(Bin(Dual(t), Not(l), Not(r)))
      case Sym(s) => TransformNotSym(s)
  }

  /** Negation only in front of symbols other than the constants y, m, n; no boolean symbol
      tested for (in)equality with one of them. */
  predicate IsNnf(e: Expr) {
    match e
    case Sym(_) => true
    case Comp(rel, a, b) => !(TypeOf(a) == Boolean && (rel == Equal || rel == Unequal) && IsTriConst(b))
    case Not(x) => x.Sym? && !IsTriConst(x.sym)
    case Bin(_, l, r) => IsNnf(l) && IsNnf(r)
  }

  /** Negation normal form by plain structural recursion, carrying the pending negation. */
  function Nnf(neg: bool, e: Expr): Expr
    decreases e
  {
    match e
    case Sym(s) => if neg then TransformNotSym(s) else e
    case Comp(rel, a, b) => TransformComp(if neg then Opposite(rel) else rel, a, b)
    case Not(x) => Nnf(!neg, x)
    case Bin(t, l, r) => Bin(if neg then Dual(t) else t, Nnf(neg, l), Nnf(neg, r))
  }

  lemma {:induction false} NnfIsNnf(neg: bool, e: Expr)
    ensures IsNnf(Nnf(neg, e))
    decreases e
  {
    match e
    case Sym(_) =>
    case Comp(_, _, _) =>
    case Not(x) => NnfIsNnf(!neg, x);
    case Bin(_, l, r) =>
      NnfIsNnf(neg, l);
      NnfIsNnf(neg, r);
  }

  lemma {:induction false} NnfFixed(e: Expr)
    requires IsNnf(e)
    ensures Nnf(false, e) == e
  {
    match e
    case Bin(_, l, r) =>
      NnfFixed(l);
      NnfFixed(r);
    case _ =>
  }

  /** A second negation normal form only sees the pending negation. */
  lemma {:induction false} NnfTwice(neg: bool, sub: bool, e: Expr)
    ensures Nnf(neg, Nnf(sub, e)) == Nnf(neg != sub, e)
    decreases e
  {
    match e
    case Sym(_) =>
    case Comp(_, _, _) =>
    case Not(x) => NnfTwice(neg, !sub, x);
    case Bin(_, l, r) =>
      NnfTwice(neg, sub, l);
      NnfTwice(neg, sub, r);
  }

  /** The re-entrant in-place transformation computes the structural normal form. */
  lemma {:induction false} TransformIsNnf(e: Expr)
    ensures Transform(e) == Nnf(false, e)
    decreases Weight(e)
  {
    match e
    case Sym(_) =>
    case Comp(_, _, _) =>
    case Bin(t, l, r) =>
      TransformIsNnf(l);
      TransformIsNnf(r);
    case Not(x) =>
      TransformIsNnf(x);
      var x' := Transform(x);
      NnfTwice(true, false, x);
      NnfIsNnf(false, x);
      match x' {
        case Not(y) => TransformIsNnf(y);
        case Comp(rel, a, b) =>
        case Bin(t, l, r) =>
          DeMorganLighter(t, l, r);
          TransformIsNnf(Bin(Dual(t), Not(l), Not(r)));
        case Sym(s) =>
      }
  }

  lemma CompEval(v: Valuation, rel: Rel, a: Symbol, b: Symbol)
    requires WellTyped(v)
    ensures Eval(v, TransformComp(rel, a, b)) == Truth(Holds(rel, v.cmp(a, b)))
  {
    assert TypeOf(a) == Boolean ==> HasTriValue(a);
  }

  lemma {:induction false} NnfEval(v: Valuation, neg: bool, e: Expr)
    requires WellTyped(v)
    ensures Eval(v, Nnf(neg, e)) == if neg then 2 - Eval(v, e) else Eval(v, e)
    decreases e
  {
    match e
    case Sym(_) =>
    case Comp(rel, a, b) =>
      CompEval(v, if neg then Opposite(rel) else rel, a, b);
    case Not(x) => NnfEval(v, !neg, x);
    case Bin(_, l, r) =>
      NnfEval(v, neg, l);
      NnfEval(v, neg, r);
  }

  /** The transformation keeps the value, reaches negation normal form, and changes nothing when
      applied again. */
  lemma TransformCorrect(v: Valuation, e: Expr)
    requires WellTyped(v)
    ensures Eval(v, Transform(e)) == Eval(v, e)
    ensures IsNnf(Transform(e))
    ensures IsNnf(e) ==> Transform(e) == e
    ensures Transform(Transform(e)) == Transform(e)
  {
    TransformIsNnf(e);
    NnfEval(v, false, e);
    NnfIsNnf(false, e);
    TransformIsNnf(Transform(e));
    NnfFixed(Transform(e));
    if IsNnf(e) {
      NnfFixed(e);
    }
  }
}
