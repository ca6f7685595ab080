/** Lowering a dependency to explicit comparisons with y or n, and the test that decides whether a
    menu entry goes into the submenu of the symbol before it. */
module KconfigCompare {
  import opened KconfigExpr
  import opened KconfigEq
  import opened KconfigDups
  import opened KconfigTransform

  function Negated(neg: bool, e: Expr): Expr { if neg then Not(e) else e }

  /** The comparison `e = s` (or `e != s` if `eq` is false), pushed down to the symbols. */
  function TransCompare(e: Expr, eq: bool, s: Symbol): (r: MaybeExpr)
    ensures IsTriConst(s) ==> r.Present?
    decreases e
  {
    match e
    case Bin(t, l, r) =>
      if s == SymYes || s == SymNo then
        var op := if s == SymYes then t else Dual(t);
        Present(Negated(!eq, Bin(op, TransCompare(l, true, s).expr, TransCompare(r, true, s).expr)))
      else
        Present(Negated(!eq, e))
    case Not(x) => TransCompare(x, !eq, s)
    case Comp(_, _, _) =>
      if s == SymYes then Present(Negated(!eq, e))
      else if s == SymNo then Present(Negated(eq, e))
      else if s == SymMod then Present(Sym(if eq then SymNo else SymYes))
      else Absent
    case Sym(a) => Present(Comp(if eq then Equal else Unequal, a, s))
  }

  function TransCompareMaybe(e: MaybeExpr, eq: bool, s: Symbol): (r: MaybeExpr)
    ensures IsTriConst(s) ==> r.Present?
  {
    if e.Absent? then Present(Negated(!eq, Sym(s))) else TransCompare(e.expr, eq, s)
  }

  /** Whether the lowering to a comparison with `s` is exact for `e` under `v`.  A symbol is off
      when its text disagrees with its value.  A negation is off when its operand is m, and two
      errors on top of each other cancel.  An operator hides an error of one operand when the
      other decides the result. */
  predicate Exact(v: Valuation, e: Expr, s: Symbol) {
    match e
    case Sym(a) => v.cmp(a, s) == 0 <==> v.tri(a) == v.tri(s)
    case Comp(_, _, _) => true
    case Not(x) => Exact(v, x, s) <==> Eval(v, x) != M
    case Bin(t, l, r) =>
      var decides := if s == SymYes then t.Disj? else t.Conj?;
      var hitL := Eval(v, l) == v.tri(s);
      var hitR := Eval(v, r) == v.tri(s);
      if Exact(v, l, s) then Exact(v, r, s) || hitL == decides
      else if Exact(v, r, s) then hitR == decides
      else hitL != hitR
  }

  /** For target y or n the lowered expression is y or n, and it gives the right answer if and
      only if the lowering is exact. */
  lemma {:induction false} TransCompareCorrect(v: Valuation, e: Expr, eq: bool, s: Symbol)
    requires WellTyped(v) && (s == SymYes || s == SymNo)
    ensures var r := TransCompare(e, eq, s).expr;
            var want := Truth((Eval(v, e) == v.tri(s)) == eq);
            && (Exact(v, e, s) <==> Eval(v, r) == want)
            && Eval(v, r) != M
    decreases e
  {
    match e
    case Bin(t, l, r) =>
      TransCompareCorrect(v, l, true, s);
      TransCompareCorrect(v, r, true, s);
      HitCombine(t, Eval(v, l), Eval(v, r), v.tri(s));
    case Not(x) => TransCompareCorrect(v, x, !eq, s);
    case _ =>
  }

  lemma HitCombine(t: Op, a: Tri, b: Tri, target: Tri)
    requires target != M
    ensures var decides := if target == Y then t.Disj? else t.Conj?;
            Combine(t, a, b) == target <==>
              if decides then a == target || b == target else a == target && b == target
  {
  }

  /** The target m, which the tool never asks for: right for comparisons, and for symbols whose text
      matches, but an && or || is returned as it is. */
  lemma TransCompareModule(v: Valuation, e: Expr, eq: bool)
    requires WellTyped(v) && !e.Not?
    ensures var value := Eval(v, TransCompare(e, eq, SymMod).expr);
            && (e.Comp? ==> value == Truth((Eval(v, e) == M) == eq))
            && (e.Sym? ==> (value == Truth((v.tri(e.sym) == M) == eq) <==> (v.cmp(e.sym, SymMod) == 0 <==> v.tri(e.sym) == M)))
            && (e.Bin? ==> value == if eq then Eval(v, e) else 2 - Eval(v, e))
  {
  }

  /** Every symbol used as an operand has matching text, and no negated operand is m. */
  predicate NoNegatedM(v: Valuation, e: Expr) {
    match e
    case Sym(a) => HasTriText(a)
    case Comp(_, _, _) => true
    case Not(x) => NoNegatedM(v, x) && Eval(v, x) != M
    case Bin(_, l, r) => NoNegatedM(v, l) && NoNegatedM(v, r)
  }

  lemma {:induction false} NoNegatedMIsExact(v: Valuation, e: Expr, s: Symbol)
    requires WellTyped(v) && (s == SymYes || s == SymNo)
    requires NoNegatedM(v, e)
    ensures Exact(v, e, s)
  {
    match e
    case Sym(a) =>
    case Comp(_, _, _) =>
    case Not(x) => NoNegatedMIsExact(v, x, s);
    case Bin(_, l, r) =>
      NoNegatedMIsExact(v, l, s);
      NoNegatedMIsExact(v, r, s);
  }

  /** A negated tristate symbol with value m is the smallest failure: !a is m, so `!a = n` should
      be n, but the lowered form is `a != n`. */
  lemma NegatedModule(v: Valuation, a: Symbol)
    requires WellTyped(v) && TypeOf(a) == Tristate && v.tri(a) == M
    ensures !Exact(v, Not(Sym(a)), SymNo)
    ensures Eval(v, TransCompare(Not(Sym(a)), true, SymNo).expr) == Y && Eval(v, Not(Sym(a))) != N
  {
  }

  // ----- submenu creation -----

  predicate DependsSymbol(e: Expr, s: Symbol) {
    match e
    case Bin(t, l, r) => t.Conj? && (DependsSymbol(l, s) || DependsSymbol(r, s))
    case Sym(a) => a == s
    case Comp(rel, a, b) =>
      a == s && ((rel == Equal && (b == SymYes || b == SymMod)) || (rel == Unequal && b == SymNo))
    case Not(_) => false
  }

  /** A dependency lowered to "is not n" and simplified. */
  function Lowered(e: MaybeExpr): Expr {
    EliminateDups(Transform(TransCompareMaybe(e, false, SymNo).expr))
  }

  /** Whether an entry with dependency `dep` joins the submenu of `sym`, whose own prompt depends
      on `base`. */
  predicate JoinsSubmenu(dep: MaybeExpr, sym: Symbol, base: MaybeExpr) {
    && dep.Present? && ContainsSymbol(dep.expr, sym)
    && (DependsSymbol(dep.expr, sym) || EliminateEq(Lowered(dep), Lowered(base)).1 == Sym(SymYes))
  }

  /** Two valuations that differ at one symbol only. */
  ghost predicate AgreeExcept(v: Valuation, w: Valuation, s: Symbol) {
    && (forall a: Symbol :: a != s ==> v.tri(a) == w.tri(a))
    && (forall a: Symbol, b: Symbol :: a != s && b != s ==> v.cmp(a, b) == w.cmp(a, b))
  }

  /** An entry refused for not mentioning the symbol is indeed unaffected by it. */
  lemma {:induction false} NotContainedIndependent(v: Valuation, w: Valuation, e: Expr, s: Symbol)
    requires AgreeExcept(v, w, s) && !ContainsSymbol(e, s)
    ensures Eval(v, e) == Eval(w, e)
  {
    match e
    case Bin(_, l, r) =>
      NotContainedIndependent(v, w, l, s);
      NotContainedIndependent(v, w, r, s);
    case Not(x) => NotContainedIndependent(v, w, x, s);
    case _ =>
  }

  /** A symbol counts as set if its value is not n, or its text is y or m, or its text is not n. */
  predicate IsSet(v: Valuation, s: Symbol) {
    v.tri(s) != N || v.cmp(s, SymYes) == 0 || v.cmp(s, SymMod) == 0 || v.cmp(s, SymNo) != 0
  }

  /** For boolean and tristate symbols that is the same as the value not being n. */
  lemma SetIsNotNo(v: Valuation, s: Symbol)
    requires WellTyped(v) && HasTriText(s)
    ensures IsSet(v, s) <==> v.tri(s) != N
  {
  }

  /** A visible entry whose dependency names the symbol at the top level has the symbol set. */
  lemma {:induction false} DependsSound(v: Valuation, e: Expr, s: Symbol)
    requires DependsSymbol(e, s) && Eval(v, e) != N
    ensures IsSet(v, s) && ContainsSymbol(e, s)
  {
    match e
    case Bin(_, l, r) =>
      if DependsSymbol(l, s) {
        DependsSound(v, l, s);
      } else {
        DependsSound(v, r, s);
      }
    case _ =>
  }

  /** The operands that make an && depend on the symbol. */
  predicate NamesSymbol(x: Expr, s: Symbol) {
    x == Sym(s) || x == Comp(Equal, s, SymYes) || x == Comp(Equal, s, SymMod) || x == Comp(Unequal, s, SymNo)
  }

  ghost predicate Operand(e: Expr, p: seq<bool>) {
    OnSpine(Conj, e, p) && !IsNode(Conj, At(Conj, e, p))
  }

  /** An expression depends on a symbol if and only if one of its top-level && operands is the symbol
      or its comparison with =y, =m or !=n. */
  lemma {:induction false} DependsExact(e: Expr, s: Symbol)
    ensures DependsSymbol(e, s) <==> exists p :: Operand(e, p) && NamesSymbol(At(Conj, e, p), s)
  {
    if IsNode(Conj, e) {
      DependsExact(e.l, s);
      DependsExact(e.r, s);
      OperandsBelow(e, s);
    } else {
      assert Operand(e, []);
    }
  }

  lemma OperandsBelow(e: Expr, s: Symbol)
    requires IsNode(Conj, e)
    ensures (exists p :: Operand(e, p) && NamesSymbol(At(Conj, e, p), s)) <==>
            (exists p :: Operand(e.l, p) && NamesSymbol(At(Conj, e.l, p), s)) ||
            (exists p :: Operand(e.r, p) && NamesSymbol(At(Conj, e.r, p), s))
  {
    forall p | Operand(e.l, p) && NamesSymbol(At(Conj, e.l, p), s)
      ensures exists q :: Operand(e, q) && NamesSymbol(At(Conj, e, q), s)
    {
      assert ([false] + p)[1..] == p;
      assert Operand(e, [false] + p);
    }
    forall p | Operand(e.r, p) && NamesSymbol(At(Conj, e.r, p), s)
      ensures exists q :: Operand(e, q) && NamesSymbol(At(Conj, e, q), s)
    {
      assert ([true] + p)[1..] == p;
      assert Operand(e, [true] + p);
    }
    forall p | Operand(e, p)
      ensures p != [] && Operand(if p[0] then e.r else e.l, p[1..])
    {
    }
  }

  // ----- the condition on quoted constants -----

  lemma {:induction false} TransCompareMisses(v: Valuation, e: Expr, eq: bool, s: Symbol)
    requires QuotesMiss(v, e) && (s == SymYes || s == SymNo)
    ensures QuotesMiss(v, TransCompare(e, eq, s).expr)
    decreases e
  {
    match e
    case Bin(_, l, r) =>
      TransCompareMisses(v, l, true, s);
      TransCompareMisses(v, r, true, s);
    case Not(x) => TransCompareMisses(v, x, !eq, s);
    case _ =>
  }

  lemma {:induction false} NnfMisses(v: Valuation, neg: bool, e: Expr)
    requires QuotesMiss(v, e)
    ensures QuotesMiss(v, Nnf(neg, e))
    decreases e
  {
    match e
    case Not(x) => NnfMisses(v, !neg, x);
    case Bin(_, l, r) =>
      NnfMisses(v, neg, l);
      NnfMisses(v, neg, r);
    case _ =>
  }

  predicate MissesMaybe(v: Valuation, e: MaybeExpr) {
    e.Present? ==> QuotesMiss(v, e.expr)
  }

  predicate ExactMaybe(v: Valuation, e: MaybeExpr) {
    e.Present? ==> Exact(v, e.expr, SymNo)
  }

  /** Lowering, transforming and joining together compute "is not n" exactly where lowering does. */
  lemma LoweredEval(v: Valuation, e: MaybeExpr)
    requires WellTyped(v) && MissesMaybe(v, e)
    ensures Eval(v, Lowered(e)) == Truth(EvalMaybe(v, e) != N) <==> ExactMaybe(v, e)
  {
    var c := TransCompareMaybe(e, false, SymNo).expr;
    if e.Present? {
      TransCompareCorrect(v, e.expr, false, SymNo);
      TransCompareMisses(v, e.expr, false, SymNo);
    }
    TransformCorrect(v, c);
    TransformIsNnf(c);
    NnfMisses(v, false, c);
    EliminateDupsEval(v, Transform(c));
  }

  /** What is compared is free of double negations and of operands that could be joined. */
  lemma LoweredIrreducible(e: MaybeExpr)
    ensures Irreducible(Lowered(e))
  {
    EliminateDupsComplete(Transform(TransCompareMaybe(e, false, SymNo).expr));
  }

  /** Every entry that joins mentions the symbol, and every entry that depends on it at the top level joins. */
  lemma JoinsBounds(dep: Expr, sym: Symbol, base: MaybeExpr)
    ensures JoinsSubmenu(Present(dep), sym, base) ==> ContainsSymbol(dep, sym)
    ensures (exists p :: Operand(dep, p) && NamesSymbol(At(Conj, dep, p), sym)) ==> JoinsSubmenu(Present(dep), sym, base)
  {
    DependsExact(dep, sym);
    DependsContains(dep, sym);
  }

  lemma {:induction false} DependsContains(e: Expr, s: Symbol)
    ensures DependsSymbol(e, s) ==> ContainsSymbol(e, s)
  {
    if e.Bin? {
      DependsContains(e.l, s);
      DependsContains(e.r, s);
    }
  }

  /** An entry is only moved below a symbol it really depends on: whenever the entry is visible,
      the symbol is set or the symbol's own prompt is visible. */
  lemma SubmenuSound(v: Valuation, dep: MaybeExpr, sym: Symbol, base: MaybeExpr)
    requires WellTyped(v) && MissesMaybe(v, dep) && MissesMaybe(v, base)
    requires ExactMaybe(v, dep) && ExactMaybe(v, base)
    requires JoinsSubmenu(dep, sym, base)
    requires EvalMaybe(v, dep) != N
    ensures IsSet(v, sym) || EvalMaybe(v, base) != N
  {
    if DependsSymbol(dep.expr, sym) {
      DependsSound(v, dep.expr, sym);
    } else {
      LoweredEval(v, dep);
      LoweredEval(v, base);
      EliminateEqSuperset(v, Lowered(dep), Lowered(base));
    }
  }

  /** In particular under every valuation, if both dependencies test tristate symbols only against
      y, m and n, and no negated operand in them is m. */
  lemma SubmenuSoundPlain(v: Valuation, dep: Expr, sym: Symbol, base: Expr)
    requires WellTyped(v) && NoQuotedTest(dep) && NoQuotedTest(base)
    requires NoNegatedM(v, dep) && NoNegatedM(v, base)
    requires JoinsSubmenu(Present(dep), sym, Present(base)) && Eval(v, dep) != N
    ensures IsSet(v, sym) || Eval(v, base) != N
  {
    NoQuotedTestMisses(v, dep);
    NoQuotedTestMisses(v, base);
    NoNegatedMIsExact(v, dep, SymNo);
    NoNegatedMIsExact(v, base, SymNo);
    SubmenuSound(v, Present(dep), sym, Present(base));
  }

  // ----- where the submenu test goes wrong -----

  /** For an entry taken in by the superset test, where the entry is visible, the symbol is not set
      and lowering the entry's dependency is exact: the symbol's own prompt is visible if and only
      if lowering its dependency is exact, too. */
  lemma SupersetExact(v: Valuation, dep: MaybeExpr, sym: Symbol, base: MaybeExpr)
    requires WellTyped(v) && MissesMaybe(v, dep) && MissesMaybe(v, base)
    requires JoinsSubmenu(dep, sym, base) && ExactMaybe(v, dep)
    requires EvalMaybe(v, dep) != N && !IsSet(v, sym)
    ensures EvalMaybe(v, base) != N <==> ExactMaybe(v, base)
  {
    if DependsSymbol(dep.expr, sym) {
      DependsSound(v, dep.expr, sym);
    } else {
      LoweredEval(v, dep);
      LoweredEval(v, base);
      EliminateEqSuperset(v, Lowered(dep), Lowered(base));
    }
  }

  /** !b && (s || q), the dependency of an entry behind a symbol s. */
  function EntryDep(b: Symbol, s: Symbol, q: Symbol): Expr {
    Bin(Conj, Not(Sym(b)), Bin(Disj, Sym(s), Sym(q)))
  }

  /** b = n, the dependency of the prompt of s. */
  function PromptDep(b: Symbol): Expr { Comp(Equal, b, SymNo) }

  /** Three operands of which no two can be joined. */
  lemma NothingJoined(x: Expr, y: Expr, z: Expr)
    requires x.Comp? && !y.Bin? && !z.Bin?
    requires JoinOr(y, z) == Absent && JoinOr(z, y) == Absent
    requires var w := Bin(Disj, y, z); JoinAnd(x, w) == Absent && JoinAnd(w, x) == Absent
    ensures EliminateDups(Bin(Conj, x, Bin(Disj, y, z))) == Bin(Conj, x, Bin(Disj, y, z))
  {
    var w := Bin(Disj, y, z);
    PairUnjoined(Disj, y, z);
    PairUnjoined(Conj, x, w);
  }

  lemma LeavesUnjoined(t: Op, e: Expr, p: seq<bool>, q: seq<bool>)
    requires OnSpine(t, e, p) && OnSpine(t, e, q) && p != q
    requires !IsNode(t, At(t, e, p)) && !IsNode(t, At(t, e, q)) && Join(t, At(t, e, p), At(t, e, q)) == Absent
    requires var x := At(t, e, p); x.Bin? ==> Dups1(x.op, x, [], []) == Walk(x, 0)
    ensures Dups1(t, e, p, q) == Walk(e, 0)
  {
    PutElsewhere(t, e, p, At(t, e, p), q);
    PutLeaf(t, e, p, At(t, e, p));
  }

  lemma PairUnjoined(t: Op, x: Expr, y: Expr)
    requires !IsNode(t, x) && !IsNode(t, y)
    requires Join(t, x, y) == Absent && Join(t, y, x) == Absent
    requires x.Bin? ==> Dups1(x.op, x, [], []) == Walk(x, 0)
    requires y.Bin? ==> Dups1(y.op, y, [], []) == Walk(y, 0)
    ensures Dups1(t, Bin(t, x, y), [], []) == Walk(Bin(t, x, y), 0)
  {
    var e, l, r := Bin(t, x, y), [false], [true];
    assert l[1..] == [] && r[1..] == [] && [] + l == l && [] + r == r;
    assert At(t, e, l) == x && At(t, e, r) == y;
    LeavesUnjoined(t, e, l, r);
    LeavesUnjoined(t, e, r, l);
    assert Dups1(t, e, l, l) == Walk(e, 0) && Dups1(t, e, r, r) == Walk(e, 0);
    assert Dups1(t, e, l, []) == Walk(e, 0) && Dups1(t, e, r, []) == Walk(e, 0);
  }

  /** What lowering makes of the entry's dependency: b = n is the exact opposite of b != n, but b
      may be m. */
  lemma EntryTransformed(b: Symbol, s: Symbol, q: Symbol)
    requires TypeOf(b) == Tristate && TypeOf(s) == Boolean && TypeOf(q) == Boolean
    ensures Transform(TransCompare(EntryDep(b, s, q), false, SymNo).expr)
         == Bin(Conj, PromptDep(b), Bin(Disj, Sym(s), Sym(q)))
  {
    var w := Bin(Conj, Comp(Equal, s, SymNo), Comp(Equal, q, SymNo));
    var e := Bin(Disj, Comp(Unequal, b, SymNo), w);
    assert TransCompare(Not(Sym(b)), true, SymNo) == Present(e.l);
    assert TransCompare(Bin(Disj, Sym(s), Sym(q)), true, SymNo) == Present(w);
    assert TransCompare(EntryDep(b, s, q), false, SymNo) == Present(Not(e));
    TransformIsNnf(Not(e));
    assert Nnf(true, e.l) == PromptDep(b);
    assert Nnf(true, w) == Bin(Disj, Sym(s), Sym(q));
    assert Nnf(true, e) == Bin(Conj, Nnf(true, e.l), Nnf(true, w));
    assert Nnf(false, Not(e)) == Nnf(true, e);
  }

  lemma EntryLowered(b: Symbol, s: Symbol, q: Symbol)
    requires TypeOf(b) == Tristate && TypeOf(s) == Boolean && TypeOf(q) == Boolean && s != q
    ensures Lowered(Present(EntryDep(b, s, q))) == Bin(Conj, PromptDep(b), Bin(Disj, Sym(s), Sym(q)))
    ensures Lowered(Present(PromptDep(b))) == PromptDep(b)
  {
    EntryTransformed(b, s, q);
    NothingJoined(PromptDep(b), Sym(s), Sym(q));
  }

  /** The superset test takes the entry in: striking out b=n leaves nothing of the prompt's
      dependency. */
  lemma EntryJoins(b: Symbol, s: Symbol, q: Symbol)
    requires TypeOf(b) == Tristate && TypeOf(s) == Boolean && TypeOf(q) == Boolean && s != q
    ensures JoinsSubmenu(Present(EntryDep(b, s, q)), s, Present(PromptDep(b)))
  {
    EntryLowered(b, s, q);
    var x, w := PromptDep(b), Bin(Disj, Sym(s), Sym(q));
    assert EliminateEq1(Conj, x, x) == (Sym(SymYes), Sym(SymYes));
    assert EliminateEq1(Conj, w, Sym(SymYes)) == (w, Sym(SymYes));
    assert EliminateEq1(Conj, Bin(Conj, x, w), x) == (Bin(Conj, Sym(SymYes), w), Sym(SymYes));
    assert EliminateEqPasses(Bin(Conj, x, w), x).1 == Sym(SymYes);
  }

  /** The entry is taken in, and that is right if and only if not b is m, s is not set and q is set.
      Then the entry is visible below a symbol that is not set and whose prompt is not visible. */
  lemma EntryMisplaced(v: Valuation, b: Symbol, s: Symbol, q: Symbol)
    requires WellTyped(v) && TypeOf(b) == Tristate && TypeOf(s) == Boolean && TypeOf(q) == Boolean && s != q
    ensures JoinsSubmenu(Present(EntryDep(b, s, q)), s, Present(PromptDep(b)))
    ensures NoQuotedTest(EntryDep(b, s, q)) && NoQuotedTest(PromptDep(b))
    ensures (Eval(v, EntryDep(b, s, q)) != N ==> IsSet(v, s) || Eval(v, PromptDep(b)) != N)
            <==> !(v.tri(b) == M && !IsSet(v, s) && IsSet(v, q))
  {
    EntryJoins(b, s, q);
    SetIsNotNo(v, s);
    SetIsNotNo(v, q);
    assert HasTriText(b);
    assert Eval(v, Bin(Disj, Sym(s), Sym(q))) == Max(v.tri(s), v.tri(q));
    assert Eval(v, Not(Sym(b))) == 2 - v.tri(b);
    assert Eval(v, PromptDep(b)) == Truth(v.tri(b) == N);
  }

  /** Such valuations exist. */
  lemma MisplacedPossible(b: Symbol, s: Symbol, q: Symbol) returns (v: Valuation)
    requires TypeOf(b) == Tristate && TypeOf(s) == Boolean && TypeOf(q) == Boolean && s != q
    ensures WellTyped(v) && v.tri(b) == M && !IsSet(v, s) && IsSet(v, q)
  {
    var tri: Symbol -> Tri := (a: Symbol) =>
      if a == b || a == SymMod then M else if a == q || a == SymYes then Y else N;
    v := Valuation(tri, (a, c) => tri(a) - tri(c));
  }
}
