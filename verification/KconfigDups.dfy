/** Joining of duplicate and redundant operands: the two join tables, the pairwise walk over one
    tree that is rewritten while it is being walked, and the fixpoint loop around it. */
module KconfigDups {
  import opened KconfigExpr
  import opened KconfigEq

  // ----- the join tables -----

  predicate IsLiteral(e: Expr) {
    e.Sym? || e.Not? || (e.Comp? && (e.rel == Equal || e.rel == Unequal))
  }

  predicate IsComp(e: Expr, rel: Rel, s: Symbol) {
    e.Comp? && e.rel == rel && e.right == s
  }

  /** The symbol a first operand speaks about; a negation may hide a symbol or an (in)equality. */
  function FirstSymbol(e: Expr): (r: seq<Symbol>) {
    match e
    case Sym(s) => [s]
    case Comp(_, a, _) => [a]
    case Not(Sym(s)) => [s]
    case Not(Comp(Equal, a, _)) => [a]
    case Not(Comp(Unequal, a, _)) => [a]
    case _ => []
  }

  /** The same for a second operand, where a negation may only hide a symbol. */
  function SecondSymbol(e: Expr): (r: seq<Symbol>) {
    match e
    case Sym(s) => [s]
    case Comp(_, a, _) => [a]
    case Not(Sym(s)) => [s]
    case _ => []
  }

  /** Both operands are literals over one and the same boolean or tristate symbol. */
  predicate SameSubject(e1: Expr, e2: Expr) {
    && IsLiteral(e1) && IsLiteral(e2)
    && |FirstSymbol(e1)| == 1 && FirstSymbol(e1) == SecondSymbol(e2)
    && HasTriValue(FirstSymbol(e1)[0])
  }

  /** One operand is an (in)equality of kind `rel` with `a`, the other with `b`, in any order. */
  predicate CompPair(e1: Expr, e2: Expr, rel: Rel, a: Symbol, b: Symbol) {
    (IsComp(e1, rel, a) && IsComp(e2, rel, b)) || (IsComp(e1, rel, b) && IsComp(e2, rel, a))
  }

  /** One operand is the bare symbol, the other compares it with `s`, in any order. */
  predicate SymAndComp(e1: Expr, e2: Expr, rel: Rel, s: Symbol) {
    (e1.Sym? && IsComp(e2, rel, s)) || (e2.Sym? && IsComp(e1, rel, s))
  }

  predicate NegatedSym(e: Expr) { e.Not? && e.arg.Sym? }

  function JoinOr(e1: Expr, e2: Expr): MaybeExpr {
    if ExprEq(e1, e2) then Present(e1)
    else if !SameSubject(e1, e2) then Absent
    else
      var s := FirstSymbol(e1)[0];
      if TypeOf(s) == Tristate && CompPair(e1, e2, Equal, SymYes, SymMod) then
        Present(Comp(Unequal, s, SymNo))
      else if TypeOf(s) == Tristate && CompPair(e1, e2, Equal, SymYes, SymNo) then
        Present(Comp(Unequal, s, SymMod))
      else if TypeOf(s) == Tristate && CompPair(e1, e2, Equal, SymMod, SymNo) then
        Present(Comp(Unequal, s, SymYes))
      else if TypeOf(s) == Boolean && ((NegatedSym(e1) && e2.Sym?) || (NegatedSym(e2) && e1.Sym?)) then
        Present(Sym(SymYes))
      else Absent
  }

  /** (a=b) && (a!=c) for two constant symbols b and c, with the operands in either order. */
  function JoinEqUneq(s: Symbol, b: Symbol, c: Symbol): Expr {
    if b != c then Comp(Equal, s, b) else Sym(SymNo)
  }

  predicate EqUneq(e1: Expr, e2: Expr) {
    && e1.Comp? && e2.Comp? && e1.rel == Equal && e2.rel == Unequal
    && IsConst(e1.right) && IsConst(e2.right)
  }

  function JoinAnd(e1: Expr, e2: Expr): MaybeExpr {
    if ExprEq(e1, e2) then Present(e1)
    else if !SameSubject(e1, e2) then Absent
    else
      var s := FirstSymbol(e1)[0];
      if SymAndComp(e1, e2, Equal, SymYes) then Present(Comp(Equal, s, SymYes))
      else if SymAndComp(e1, e2, Unequal, SymNo) then Present(Sym(s))
      else if SymAndComp(e1, e2, Unequal, SymMod) then Present(Comp(Equal, s, SymYes))
      else if TypeOf(s) != Tristate then Absent
      else if EqUneq(e1, e2) then Present(JoinEqUneq(s, e1.right, e2.right))
      else if EqUneq(e2, e1) then Present(JoinEqUneq(s, e2.right, e1.right))
      else if CompPair(e1, e2, Unequal, SymYes, SymNo) then Present(Comp(Equal, s, SymMod))
      else if CompPair(e1, e2, Unequal, SymYes, SymMod) then Present(Comp(Equal, s, SymNo))
      else if CompPair(e1, e2, Unequal, SymMod, SymNo) then Present(Comp(Equal, s, SymYes))
      else Absent
  }

  function Join(t: Op, e1: Expr, e2: Expr): MaybeExpr {
    if t.Disj? then JoinOr(e1, e2) else JoinAnd(e1, e2)
  }

  /** The pairs over one symbol of which one || operand is enough. */
  predicate RedundantOr(x: Expr, y: Expr) {
    match (x, y)
    case (Comp(Equal, a, b), Comp(Equal, d, k)) =>
      a == d && TypeOf(a) == Tristate && b != k && IsTriConst(b) && IsTriConst(k)
    case (Sym(a), Not(Sym(d))) => a == d && TypeOf(a) == Boolean
    case (Not(Sym(a)), Sym(d)) => a == d && TypeOf(a) == Boolean
    case _ => false
  }

  /** The pairs over one symbol of which one && operand is enough. */
  predicate RedundantAnd(x: Expr, y: Expr) {
    match (x, y)
    case (Sym(a), Comp(rel, d, k)) => a == d && HasTriValue(a) && TestsSymbol(rel, k)
    case (Comp(rel, d, k), Sym(a)) => a == d && HasTriValue(a) && TestsSymbol(rel, k)
    case (Comp(Equal, a, b), Comp(Unequal, d, k)) => a == d && TypeOf(a) == Tristate && IsConst(b) && IsConst(k)
    case (Comp(Unequal, a, b), Comp(Equal, d, k)) => a == d && TypeOf(a) == Tristate && IsConst(b) && IsConst(k)
    case (Comp(Unequal, a, b), Comp(Unequal, d, k)) =>
      a == d && TypeOf(a) == Tristate && b != k && IsTriConst(b) && IsTriConst(k)
    case _ => false
  }

  /** a=y, a!=n or a!=m. */
  predicate TestsSymbol(rel: Rel, k: Symbol) {
    (rel == Equal && k == SymYes) || (rel == Unequal && (k == SymNo || k == SymMod))
  }

  predicate Redundant(t: Op, x: Expr, y: Expr) {
    if t.Disj? then RedundantOr(x, y) else RedundantAnd(x, y)
  }

  /** Two operands are joined if and only if they are equal or one of the listed pairs. */
  lemma JoinedExactly(t: Op, x: Expr, y: Expr)
    ensures Join(t, x, y).Present? <==> ExprEq(x, y) || Redundant(t, x, y)
  {
    if t.Disj? {
      JoinedOr(x, y);
    } else {
      JoinedAnd(x, y);
    }
  }

  lemma JoinedOr(x: Expr, y: Expr)
    ensures JoinOr(x, y).Present? <==> ExprEq(x, y) || RedundantOr(x, y)
  {
  }

  lemma JoinedAnd(x: Expr, y: Expr)
    ensures JoinAnd(x, y).Present? <==> ExprEq(x, y) || RedundantAnd(x, y)
  {
  }

  lemma JoinOrSound(v: Valuation, e1: Expr, e2: Expr)
    requires WellTyped(v)
    requires JoinOr(e1, e2).Present?
    ensures Eval(v, JoinOr(e1, e2).expr) == Max(Eval(v, e1), Eval(v, e2))
  {
    if ExprEq(e1, e2) {
      ExprEqSound(v, e1, e2);
    }
  }

  /** An equality and an inequality of one tristate symbol with two different constants, to both
      of which the symbol compares equal.  That is so for quoted numbers: the distinct literals "1"
      and "0x1" are both read as the number 1, which is also what m is read as. */
  predicate Clash(v: Valuation, e1: Expr, e2: Expr) {
    && (EqUneq(e1, e2) || EqUneq(e2, e1))
    && e1.left == e2.left && TypeOf(e1.left) == Tristate
    && e1.right != e2.right && v.cmp(e1.left, e1.right) == 0 && v.cmp(e1.left, e2.right) == 0
  }

  /** A join of two operands of && has the right value exactly when the operands do not clash. */
  lemma JoinAndExact(v: Valuation, e1: Expr, e2: Expr)
    requires WellTyped(v) && JoinAnd(e1, e2).Present?
    ensures Eval(v, JoinAnd(e1, e2).expr) == Min(Eval(v, e1), Eval(v, e2)) <==> !Clash(v, e1, e2)
  {
    if ExprEq(e1, e2) {
      ExprEqSound(v, e1, e2);
    }
  }

  // ----- comparisons with quoted constants -----

  /** An equality or inequality of a tristate symbol with a quoted constant. */
  predicate IsQuotedTest(e: Expr) {
    e.Comp? && (e.rel == Equal || e.rel == Unequal) && TypeOf(e.left) == Tristate && e.right.Quoted?
  }

  /** Every tristate symbol that `e` tests against a quoted constant differs from that constant. */
  predicate QuotesMiss(v: Valuation, e: Expr) {
    match e
    case Sym(_) => true
    case Comp(_, a, b) => IsQuotedTest(e) ==> v.cmp(a, b) != 0
    case Not(x) => QuotesMiss(v, x)
    case Bin(_, l, r) => QuotesMiss(v, l) && QuotesMiss(v, r)
  }

  /** `e` tests tristate symbols only against y, m and n. */
  predicate NoQuotedTest(e: Expr) {
    match e
    case Sym(_) => true
    case Comp(_, _, _) => !IsQuotedTest(e)
    case Not(x) => NoQuotedTest(x)
    case Bin(_, l, r) => NoQuotedTest(l) && NoQuotedTest(r)
  }

  lemma {:induction false} NoQuotedTestMisses(v: Valuation, e: Expr)
    requires NoQuotedTest(e)
    ensures QuotesMiss(v, e)
  {
    match e
    case Not(x) => NoQuotedTestMisses(v, x);
    case Bin(_, l, r) =>
      NoQuotedTestMisses(v, l);
      NoQuotedTestMisses(v, r);
    case _ =>
  }

  /** Where the quoted constants are missed there is no clash, and a join tests no new ones. */
  lemma JoinAndSound(v: Valuation, e1: Expr, e2: Expr)
    requires WellTyped(v) && QuotesMiss(v, e1) && QuotesMiss(v, e2)
    requires JoinAnd(e1, e2).Present?
    ensures Eval(v, JoinAnd(e1, e2).expr) == Min(Eval(v, e1), Eval(v, e2))
    ensures QuotesMiss(v, JoinAnd(e1, e2).expr)
  {
    JoinAndExact(v, e1, e2);
  }

  lemma JoinSound(v: Valuation, t: Op, e1: Expr, e2: Expr)
    requires WellTyped(v) && QuotesMiss(v, e1) && QuotesMiss(v, e2)
    requires Join(t, e1, e2).Present?
    ensures Eval(v, Join(t, e1, e2).expr) == Combine(t, Eval(v, e1), Eval(v, e2))
    ensures QuotesMiss(v, Join(t, e1, e2).expr)
  {
    if t.Disj? {
      JoinOrSound(v, e1, e2);
    } else {
      JoinAndSound(v, e1, e2);
    }
  }

  // ----- positions in a tree -----

  // A position is the list of turns (false = left, true = right) from the root.  The walk only
  // ever turns below nodes of one operator, the spine of the tree.

  predicate OnSpine(t: Op, e: Expr, p: seq<bool>)
    decreases |p|
  {
    p == [] || (IsNode(t, e) && OnSpine(t, if p[0] then e.r else e.l, p[1..]))
  }

  function At(t: Op, e: Expr, p: seq<bool>): Expr
    requires OnSpine(t, e, p)
    decreases |p|
  {
    if p == [] then e else At(t, if p[0] then e.r else e.l, p[1..])
  }

  function Put(t: Op, e: Expr, p: seq<bool>, x: Expr): Expr
    requires OnSpine(t, e, p)
    decreases |p|
  {
    if p == [] then x
    else if p[0] then Bin(t, e.l, Put(t, e.r, p[1..], x))
    else Bin(t, Put(t, e.l, p[1..], x), e.r)
  }

  function SpineSize(t: Op, e: Expr): (n: nat)
    ensures n >= 1
  {
    if IsNode(t, e) then 1 + SpineSize(t, e.l) + SpineSize(t, e.r) else 1
  }

  /** Two trees that differ only below the spine of `t`. */
  ghost predicate SameSpine(t: Op, a: Expr, b: Expr) {
    if IsNode(t, a) then IsNode(t, b) && SameSpine(t, a.l, b.l) && SameSpine(t, a.r, b.r)
    else !IsNode(t, b)
  }

  lemma {:induction false} SameSpineTrans(t: Op, a: Expr, b: Expr, c: Expr)
    requires SameSpine(t, a, b) && SameSpine(t, b, c)
    ensures SameSpine(t, a, c)
  {
    if IsNode(t, a) {
      SameSpineTrans(t, a.l, b.l, c.l);
      SameSpineTrans(t, a.r, b.r, c.r);
    }
  }

  lemma {:induction false} SameSpineRefl(t: Op, a: Expr)
    ensures SameSpine(t, a, a)
  {
    if IsNode(t, a) {
      SameSpineRefl(t, a.l);
      SameSpineRefl(t, a.r);
    }
  }

  lemma {:induction false} SameSpineAt(t: Op, a: Expr, b: Expr, p: seq<bool>)
    requires SameSpine(t, a, b) && OnSpine(t, a, p)
    ensures OnSpine(t, b, p) && SameSpine(t, At(t, a, p), At(t, b, p))
    ensures SpineSize(t, At(t, a, p)) == SpineSize(t, At(t, b, p))
    decreases |p|
  {
    if p == [] {
      SameSpineSize(t, a, b);
    } else if p[0] {
      SameSpineAt(t, a.r, b.r, p[1..]);
    } else {
      SameSpineAt(t, a.l, b.l, p[1..]);
    }
  }

  lemma {:induction false} SameSpineSize(t: Op, a: Expr, b: Expr)
    requires SameSpine(t, a, b)
    ensures SpineSize(t, a) == SpineSize(t, b)
  {
    if IsNode(t, a) {
      SameSpineSize(t, a.l, b.l);
      SameSpineSize(t, a.r, b.r);
    }
  }

  /** Going one step down from a spine node. */
  lemma {:induction false} StepDown(t: Op, e: Expr, p: seq<bool>)
    requires OnSpine(t, e, p) && IsNode(t, At(t, e, p))
    ensures OnSpine(t, e, p + [false]) && At(t, e, p + [false]) == At(t, e, p).l
    ensures OnSpine(t, e, p + [true]) && At(t, e, p + [true]) == At(t, e, p).r
    decreases |p|
  {
    if p != [] {
      StepDown(t, if p[0] then e.r else e.l, p[1..]);
      assert (p + [false])[1..] == p[1..] + [false];
      assert (p + [true])[1..] == p[1..] + [true];
    } else {
      assert [false][1..] == [] && [true][1..] == [];
      assert p + [false] == [false] && p + [true] == [true];
    }
  }

  /** Writing one leaf of the spine. */
  lemma {:induction false} PutLeaf(t: Op, e: Expr, p: seq<bool>, x: Expr)
    requires OnSpine(t, e, p) && !IsNode(t, At(t, e, p)) && !IsNode(t, x)
    ensures SameSpine(t, e, Put(t, e, p, x))
    ensures OnSpine(t, Put(t, e, p, x), p) && At(t, Put(t, e, p, x), p) == x
    ensures Size(Put(t, e, p, x)) == Size(e) - Size(At(t, e, p)) + Size(x)
    ensures p != [] ==> Size(At(t, e, p)) < Size(e)
    ensures x == At(t, e, p) ==> Put(t, e, p, x) == e
    decreases |p|
  {
    if p != [] {
      PutLeaf(t, if p[0] then e.r else e.l, p[1..], x);
      SameSpineRefl(t, if p[0] then e.l else e.r);
    }
  }

  /** Leaves at different positions do not disturb each other. */
  lemma {:induction false} PutElsewhere(t: Op, e: Expr, p: seq<bool>, x: Expr, q: seq<bool>)
    requires OnSpine(t, e, p) && !IsNode(t, At(t, e, p)) && !IsNode(t, x)
    requires OnSpine(t, e, q) && !IsNode(t, At(t, e, q))
    requires p != q
    ensures p != [] && q != []
    ensures OnSpine(t, Put(t, e, p, x), q) && At(t, Put(t, e, p, x), q) == At(t, e, q)
    decreases |p|
  {
    if p != [] && q != [] && p[0] == q[0] {
      assert p == [p[0]] + p[1..] && q == [q[0]] + q[1..];
      PutElsewhere(t, if p[0] then e.r else e.l, p[1..], x, q[1..]);
    }
  }

  // ----- the walk -----

  datatype Walk = Walk(root: Expr, count: nat)

  lemma JoinShape(t: Op, e1: Expr, e2: Expr)
    requires !IsNode(t, e1) && Join(t, e1, e2).Present?
    ensures !IsNode(t, Join(t, e1, e2).expr)
    ensures Size(Join(t, e1, e2).expr) + 1 <= Size(e1) + Size(e2)
  {
  }

  /** One comparison of two leaves: the first is cleaned up at its own level, then the two are
      joined, leaving the neutral operand in the first place and the join in the second. */
  function JoinAt(t: Op, e: Expr, p1: seq<bool>, p2: seq<bool>, inner: Walk): (w: Walk)
    requires OnSpine(t, e, p1) && OnSpine(t, e, p2) && p1 != p2
    requires !IsNode(t, At(t, e, p1)) && !IsNode(t, At(t, e, p2))
    requires !IsNode(t, inner.root) && Size(inner.root) <= Size(At(t, e, p1))
    ensures SameSpine(t, e, w.root) && Size(w.root) <= Size(e)
  {
    var e2 := At(t, e, p2);
    PutLeaf(t, e, p1, inner.root);
    var j := Join(t, inner.root, e2);
    if j.Present? then
      PutLeaf(t, e, p1, Unit(t));
      PutElsewhere(t, e, p1, Unit(t), p2);
      JoinShape(t, inner.root, e2);
      var f := Put(t, e, p1, Unit(t));
      PutLeaf(t, f, p2, j.expr);
      SameSpineTrans(t, e, f, Put(t, f, p2, j.expr));
      Walk(Put(t, f, p2, j.expr), inner.count + 1)
    else
      Walk(Put(t, e, p1, inner.root), inner.count)
  }

  /** Walks over all pairs of leaves of `e` below positions `p1` and `p2`, rewriting `e` as it
      goes; `count` is the number of joins made. */
  function Dups1(t: Op, e: Expr, p1: seq<bool>, p2: seq<bool>): (w: Walk)
    requires OnSpine(t, e, p1) && OnSpine(t, e, p2)
    ensures SameSpine(t, e, w.root) && Size(w.root) <= Size(e)
    decreases Size(e), SpineSize(t, At(t, e, p1)) + SpineSize(t, At(t, e, p2))
  {
    var e1 := At(t, e, p1);
    var e2 := At(t, e, p2);
    if IsNode(t, e1) then
      StepDown(t, e, p1);
      var a := Dups1(t, e, p1 + [false], p2);
      SameSpineAt(t, e, a.root, p1 + [true]);
      SameSpineAt(t, e, a.root, p2);
      var b := Dups1(t, a.root, p1 + [true], p2);
      SameSpineTrans(t, e, a.root, b.root);
      Walk(b.root, a.count + b.count)
    else if IsNode(t, e2) then
      StepDown(t, e, p2);
      var a := Dups1(t, e, p1, p2 + [false]);
      SameSpineAt(t, e, a.root, p2 + [true]);
      SameSpineAt(t, e, a.root, p1);
      var b := Dups1(t, a.root, p1, p2 + [true]);
      SameSpineTrans(t, e, a.root, b.root);
      Walk(b.root, a.count + b.count)
    else if p1 == p2 then
      SameSpineRefl(t, e);
      Walk(e, 0)
    else
      PutElsewhere(t, e, p1, e1, p2);
      PutLeaf(t, e, p1, e1);
      var inner := if e1.Bin? then Dups1(e1.op, e1, [], []) else Walk(e1, 0);
      JoinAt(t, e, p1, p2, inner)
  }

  // ----- the walk keeps the value -----

  /** The value of everything off the path to `p`. */
  function Context(v: Valuation, t: Op, e: Expr, p: seq<bool>): Tri
    requires OnSpine(t, e, p)
    decreases |p|
  {
    if p == [] then (if t.Conj? then Y else N)
    else if p[0] then Combine(t, Eval(v, e.l), Context(v, t, e.r, p[1..]))
    else Combine(t, Eval(v, e.r), Context(v, t, e.l, p[1..]))
  }

  lemma CombineLaws(t: Op, a: Tri, b: Tri, c: Tri)
    ensures Combine(t, a, Combine(t, b, c)) == Combine(t, Combine(t, a, b), c)
    ensures Combine(t, a, b) == Combine(t, b, a)
    ensures Combine(t, if t.Conj? then Y else N, a) == a
  {
  }

  lemma {:induction false} PutEval(v: Valuation, t: Op, e: Expr, p: seq<bool>, x: Expr)
    requires OnSpine(t, e, p)
    ensures Eval(v, Put(t, e, p, x)) == Combine(t, Context(v, t, e, p), Eval(v, x))
    decreases |p|
  {
    if p == [] {
      CombineLaws(t, Eval(v, x), Y, Y);
    } else {
      var down := if p[0] then e.r else e.l;
      var side := if p[0] then e.l else e.r;
      PutEval(v, t, down, p[1..], x);
      CombineLaws(t, Eval(v, side), Context(v, t, down, p[1..]), Eval(v, x));
      CombineLaws(t, Eval(v, side), Eval(v, Put(t, down, p[1..], x)), Y);
    }
  }

  lemma {:induction false} AtEval(v: Valuation, t: Op, e: Expr, p: seq<bool>)
    requires OnSpine(t, e, p)
    ensures Eval(v, e) == Combine(t, Context(v, t, e, p), Eval(v, At(t, e, p)))
  {
    PutEval(v, t, e, p, At(t, e, p));
    PutAt(t, e, p);
  }

  lemma {:induction false} PutAt(t: Op, e: Expr, p: seq<bool>)
    requires OnSpine(t, e, p)
    ensures Put(t, e, p, At(t, e, p)) == e
    decreases |p|
  {
    if p != [] {
      PutAt(t, if p[0] then e.r else e.l, p[1..]);
    }
  }

  lemma {:induction false} AtMisses(v: Valuation, t: Op, e: Expr, p: seq<bool>)
    requires OnSpine(t, e, p) && QuotesMiss(v, e)
    ensures QuotesMiss(v, At(t, e, p))
    decreases |p|
  {
    if p != [] {
      AtMisses(v, t, if p[0] then e.r else e.l, p[1..]);
    }
  }

  lemma {:induction false} PutMisses(v: Valuation, t: Op, e: Expr, p: seq<bool>, x: Expr)
    requires OnSpine(t, e, p) && QuotesMiss(v, e) && QuotesMiss(v, x)
    ensures QuotesMiss(v, Put(t, e, p, x))
    decreases |p|
  {
    if p != [] {
      PutMisses(v, t, if p[0] then e.r else e.l, p[1..], x);
    }
  }

  lemma {:induction false} EliminateYnMisses(v: Valuation, e: Expr)
    requires QuotesMiss(v, e)
    ensures QuotesMiss(v, EliminateYn(e))
  {
    if e.Bin? {
      EliminateYnMisses(v, e.l);
      EliminateYnMisses(v, e.r);
    }
  }

  lemma JoinAtMisses(v: Valuation, t: Op, e: Expr, p1: seq<bool>, p2: seq<bool>, inner: Walk)
    requires WellTyped(v) && QuotesMiss(v, e) && QuotesMiss(v, inner.root)
    requires OnSpine(t, e, p1) && OnSpine(t, e, p2) && p1 != p2
    requires !IsNode(t, At(t, e, p1)) && !IsNode(t, At(t, e, p2))
    requires !IsNode(t, inner.root) && Size(inner.root) <= Size(At(t, e, p1))
    ensures QuotesMiss(v, JoinAt(t, e, p1, p2, inner).root)
  {
    var j := Join(t, inner.root, At(t, e, p2));
    if j.Present? {
      PutElsewhere(t, e, p1, Unit(t), p2);
      PutMisses(v, t, e, p1, Unit(t));
      AtMisses(v, t, e, p2);
      JoinSound(v, t, inner.root, At(t, e, p2));
      PutMisses(v, t, Put(t, e, p1, Unit(t)), p2, j.expr);
    } else {
      PutMisses(v, t, e, p1, inner.root);
    }
  }

  lemma JoinAtEval(v: Valuation, t: Op, e: Expr, p1: seq<bool>, p2: seq<bool>, inner: Walk)
    requires WellTyped(v) && QuotesMiss(v, e) && QuotesMiss(v, inner.root)
    requires OnSpine(t, e, p1) && OnSpine(t, e, p2) && p1 != p2
    requires !IsNode(t, At(t, e, p1)) && !IsNode(t, At(t, e, p2))
    requires !IsNode(t, inner.root) && Size(inner.root) <= Size(At(t, e, p1))
    requires Eval(v, inner.root) == Eval(v, At(t, e, p1))
    ensures Eval(v, JoinAt(t, e, p1, p2, inner).root) == Eval(v, e)
  {
    var e2 := At(t, e, p2);
    var j := Join(t, inner.root, e2);
    AtEval(v, t, e, p1);
    if j.Present? {
      var f := Put(t, e, p1, Unit(t));
      PutElsewhere(t, e, p1, Unit(t), p2);
      PutEval(v, t, e, p1, Unit(t));
      AtEval(v, t, f, p2);
      PutEval(v, t, f, p2, j.expr);
      AtMisses(v, t, e, p2);
      JoinSound(v, t, inner.root, e2);
      var c, a, b := Context(v, t, f, p2), Eval(v, inner.root), Eval(v, e2);
      CombineLaws(t, Context(v, t, e, p1), Eval(v, Unit(t)), Y);
      assert Context(v, t, e, p1) == Combine(t, c, b);
      CombineLaws(t, c, b, a);
      CombineLaws(t, a, b, Y);
    } else {
      PutEval(v, t, e, p1, inner.root);
    }
  }

  /** Every pass over the pairs keeps the value of the tree. */
  lemma {:induction false} Dups1Eval(v: Valuation, t: Op, e: Expr, p1: seq<bool>, p2: seq<bool>)
    requires WellTyped(v) && QuotesMiss(v, e)
    requires OnSpine(t, e, p1) && OnSpine(t, e, p2)
    ensures Eval(v, Dups1(t, e, p1, p2).root) == Eval(v, e) && QuotesMiss(v, Dups1(t, e, p1, p2).root)
    decreases Size(e), SpineSize(t, At(t, e, p1)) + SpineSize(t, At(t, e, p2))
  {
    var e1 := At(t, e, p1);
    var e2 := At(t, e, p2);
    if IsNode(t, e1) {
      StepDown(t, e, p1);
      var a := Dups1(t, e, p1 + [false], p2);
      SameSpineAt(t, e, a.root, p1 + [true]);
      SameSpineAt(t, e, a.root, p2);
      Dups1Eval(v, t, e, p1 + [false], p2);
      Dups1Eval(v, t, a.root, p1 + [true], p2);
    } else if IsNode(t, e2) {
      StepDown(t, e, p2);
      var a := Dups1(t, e, p1, p2 + [false]);
      SameSpineAt(t, e, a.root, p2 + [true]);
      SameSpineAt(t, e, a.root, p1);
      Dups1Eval(v, t, e, p1, p2 + [false]);
      Dups1Eval(v, t, a.root, p1, p2 + [true]);
    } else if p1 != p2 {
      PutElsewhere(t, e, p1, e1, p2);
      PutLeaf(t, e, p1, e1);
      AtMisses(v, t, e, p1);
      if e1.Bin? {
        Dups1Eval(v, e1.op, e1, [], []);
      }
      var inner := if e1.Bin? then Dups1(e1.op, e1, [], []) else Walk(e1, 0);
      JoinAtEval(v, t, e, p1, p2, inner);
      JoinAtMisses(v, t, e, p1, p2, inner);
    }
  }

  // ----- the walk leaves something to fold -----

  /** A constant operand written on the spine shows, and one below a leaf keeps showing. */
  lemma {:induction false} PutHasYN(t: Op, e: Expr, p: seq<bool>, x: Expr)
    requires OnSpine(t, e, p) && p != []
    ensures IsYN(x) || HasYN(x) ==> HasYN(Put(t, e, p, x))
    ensures HasYN(e) && (IsYN(At(t, e, p)) ==> IsYN(x)) && (HasYN(At(t, e, p)) ==> HasYN(x))
            ==> HasYN(Put(t, e, p, x))
    decreases |p|
  {
    if |p| > 1 {
      PutHasYN(t, if p[0] then e.r else e.l, p[1..], x);
      assert Put(t, if p[0] then e.r else e.l, p[1..], x).Bin?;
    } else {
      assert p[1..] == [];
      assert At(t, e, p) == if p[0] then e.r else e.l;
    }
  }

  /** Writing elsewhere on the spine does not remove a constant operand. */
  lemma {:induction false} PutKeepsYN(t: Op, e: Expr, p: seq<bool>, q: seq<bool>, x: Expr)
    requires OnSpine(t, e, p) && !IsNode(t, At(t, e, p)) && IsYN(At(t, e, p))
    requires OnSpine(t, e, q) && !IsNode(t, At(t, e, q)) && !IsNode(t, x)
    requires p != q
    ensures HasYN(Put(t, e, q, x))
  {
    PutElsewhere(t, e, q, x, p);
    PutHasYN(t, Put(t, e, q, x), p, At(t, e, p));
    PutAt(t, Put(t, e, q, x), p);
  }

  lemma JoinAtProgress(t: Op, e: Expr, p1: seq<bool>, p2: seq<bool>, inner: Walk)
    requires OnSpine(t, e, p1) && OnSpine(t, e, p2) && p1 != p2
    requires !IsNode(t, At(t, e, p1)) && !IsNode(t, At(t, e, p2))
    requires !IsNode(t, inner.root) && Size(inner.root) <= Size(At(t, e, p1))
    requires inner.count > 0 || HasYN(At(t, e, p1)) ==> HasYN(inner.root)
    requires inner.root == At(t, e, p1) || (inner.root.Bin? && At(t, e, p1).Bin?)
    requires inner.count == 0 ==> inner.root == At(t, e, p1)
    ensures var w := JoinAt(t, e, p1, p2, inner);
            && (w.count > 0 || HasYN(e) ==> HasYN(w.root))
            && (w.count == 0 ==> w.root == e)
  {
    var e2 := At(t, e, p2);
    var j := Join(t, inner.root, e2);
    PutElsewhere(t, e, p1, inner.root, p2);
    if j.Present? {
      var f := Put(t, e, p1, Unit(t));
      PutElsewhere(t, e, p1, Unit(t), p2);
      PutLeaf(t, e, p1, Unit(t));
      JoinShape(t, inner.root, e2);
      PutKeepsYN(t, f, p1, p2, j.expr);
    } else {
      PutHasYN(t, e, p1, inner.root);
      PutAt(t, e, p1);
    }
  }

  /** A pass that joined anything leaves a constant operand behind for folding; a pass that
      joined nothing leaves the tree as it was. */
  lemma {:induction false} Dups1Progress(t: Op, e: Expr, p1: seq<bool>, p2: seq<bool>)
    requires OnSpine(t, e, p1) && OnSpine(t, e, p2)
    ensures var w := Dups1(t, e, p1, p2);
            && (w.count > 0 || HasYN(e) ==> HasYN(w.root))
            && (w.count == 0 ==> w.root == e)
    decreases Size(e), SpineSize(t, At(t, e, p1)) + SpineSize(t, At(t, e, p2))
  {
    var e1 := At(t, e, p1);
    var e2 := At(t, e, p2);
    if IsNode(t, e1) {
      StepDown(t, e, p1);
      var a := Dups1(t, e, p1 + [false], p2);
      SameSpineAt(t, e, a.root, p1 + [true]);
      SameSpineAt(t, e, a.root, p2);
      Dups1Progress(t, e, p1 + [false], p2);
      Dups1Progress(t, a.root, p1 + [true], p2);
    } else if IsNode(t, e2) {
      StepDown(t, e, p2);
      var a := Dups1(t, e, p1, p2 + [false]);
      SameSpineAt(t, e, a.root, p2 + [true]);
      SameSpineAt(t, e, a.root, p1);
      Dups1Progress(t, e, p1, p2 + [false]);
      Dups1Progress(t, a.root, p1, p2 + [true]);
    } else if p1 != p2 {
      PutElsewhere(t, e, p1, e1, p2);
      PutLeaf(t, e, p1, e1);
      if e1.Bin? {
        Dups1Progress(e1.op, e1, [], []);
      }
      var inner := if e1.Bin? then Dups1(e1.op, e1, [], []) else Walk(e1, 0);
      JoinAtProgress(t, e, p1, p2, inner);
    }
  }

  // ----- the fixpoint loop -----

  /** One pass of the loop body. */
  function Pass(e: Expr): Walk {
    if e.Bin? then Dups1(e.op, e, [], []) else Walk(e, 0)
  }

  lemma PassProperties(e: Expr)
    ensures Size(Pass(e).root) <= Size(e)
    ensures Pass(e).count > 0 ==> HasYN(Pass(e).root)
    ensures Pass(e).count == 0 ==> Pass(e).root == e
    ensures Pass(e).count > 0 ==> Size(EliminateYn(Pass(e).root)) < Size(e)
  {
    if e.Bin? {
      Dups1Progress(e.op, e, [], []);
      EliminateYnShrinks(Pass(e).root);
    }
  }

  /** What the loop computes: passes and folding until a pass joins nothing. */
  function EliminateDups(e: Expr): Expr
    decreases Size(e)
  {
    var w := Pass(e);
    PassProperties(e);
    if w.count == 0 then e else EliminateDups(EliminateYn(w.root))
  }

  method EliminateDupsLoop(e: MaybeExpr) returns (r: MaybeExpr)
    ensures e.Absent? ==> r == e
    ensures e.Present? ==> r == Present(EliminateDups(e.expr))
  {
    if e.Absent? {
      return e;
    }
    var cur := e.expr;
    while true
      invariant EliminateDups(cur) == EliminateDups(e.expr)
      decreases Size(cur)
    {
      var w := Pass(cur);
      PassProperties(cur);
      if w.count == 0 {
        break;
      }
      cur := EliminateYn(w.root);
    }
    return Present(cur);
  }

  /** Joining and folding keep the value wherever the quoted constants tested in `e` are missed. */
  lemma {:induction false} EliminateDupsEval(v: Valuation, e: Expr)
    requires WellTyped(v) && QuotesMiss(v, e)
    ensures Eval(v, EliminateDups(e)) == Eval(v, e)
    decreases Size(e)
  {
    var w := Pass(e);
    PassProperties(e);
    if w.count > 0 {
      Dups1Eval(v, e.op, e, [], []);
      EliminateYnEval(v, w.root);
      EliminateYnMisses(v, w.root);
      EliminateDupsEval(v, EliminateYn(w.root));
    }
  }

  /** If `e` tests tristate symbols only against y, m and n, its value is kept under every
      well-typed valuation. */
  lemma EliminateDupsPreserves(v: Valuation, e: Expr)
    requires WellTyped(v) && NoQuotedTest(e)
    ensures Eval(v, EliminateDups(e)) == Eval(v, e)
  {
    NoQuotedTestMisses(v, e);
    EliminateDupsEval(v, e);
  }

  /** The one of y, m and n that a tristate symbol is. */
  function TriConst(x: Tri): Symbol { if x == Y then SymYes else if x == M then SymMod else SymNo }

  /** a = q && a != k, where k is the one of y, m and n that a is. */
  function QuotedAndNot(v: Valuation, a: Symbol, q: Symbol): Expr {
    Bin(Conj, Comp(Equal, a, q), Comp(Unequal, a, TriConst(v.tri(a))))
  }

  /** Two comparisons that are joined to the first of them. */
  lemma PairJoined(x: Expr, y: Expr)
    requires x.Comp? && y.Comp? && JoinAnd(x, y) == Present(x)
    ensures EliminateDups(Bin(Conj, x, y)) == x
  {
    var e, f := Bin(Conj, x, y), Bin(Conj, Sym(SymYes), x);
    var l, r := [false], [true];
    assert l[1..] == [] && r[1..] == [] && [] + l == l && [] + r == r;
    assert At(Conj, e, l) == x && At(Conj, e, r) == y && At(Conj, f, l) == Sym(SymYes) && At(Conj, f, r) == x;
    assert Put(Conj, Put(Conj, e, l, Sym(SymYes)), r, x) == f && Put(Conj, f, r, x) == f;
    assert Dups1(Conj, e, l, r) == Walk(f, 1) && Dups1(Conj, e, l, l) == Walk(e, 0);
    assert Dups1(Conj, e, l, []) == Walk(f, 1);
    assert JoinAnd(x, Sym(SymYes)) == Absent;
    assert Dups1(Conj, f, r, l) == Walk(f, 0) && Dups1(Conj, f, r, r) == Walk(f, 0);
    assert Dups1(Conj, f, r, []) == Walk(f, 0);
    assert Pass(e) == Walk(f, 1) && EliminateYn(f) == x && Pass(x) == Walk(x, 0);
  }

  /** A quoted constant can be tested beside y, m and n without harm if and only if it is missed. */
  lemma QuotedTestExact(v: Valuation, a: Symbol, q: Symbol)
    requires WellTyped(v) && TypeOf(a) == Tristate && q.Quoted?
    ensures var e := QuotedAndNot(v, a, q);
            && (Eval(v, EliminateDups(e)) == Eval(v, e) <==> v.cmp(a, q) != 0)
            && (v.cmp(a, q) == 0 ==> Eval(v, EliminateDups(e)) == Y && Eval(v, e) == N)
  {
    var e := QuotedAndNot(v, a, q);
    var x, y := e.l, e.r;
    assert JoinAnd(x, y) == Present(x) && JoinAnd(y, x) == Present(x);
    if v.cmp(a, q) != 0 {
      EliminateDupsEval(v, e);
    } else {
      PairJoined(x, y);
    }
  }

  /** The result never grows and no two of its operands can be joined any more: one more pass
      changes nothing, so the whole operation is idempotent. */
  lemma {:induction false} EliminateDupsStable(e: Expr)
    ensures Size(EliminateDups(e)) <= Size(e)
    ensures Pass(EliminateDups(e)) == Walk(EliminateDups(e), 0)
    ensures EliminateDups(EliminateDups(e)) == EliminateDups(e)
    decreases Size(e)
  {
    var w := Pass(e);
    PassProperties(e);
    if w.count > 0 {
      EliminateDupsStable(EliminateYn(w.root));
    }
  }

  /** No two different operands at this level are equal or a listed pair, and the same holds inside
      every operand. */
  ghost predicate Irreducible(e: Expr)
    decreases Size(e)
  {
    e.Bin? ==>
      && (forall p, q :: Leaf(e, p) && Leaf(e, q) && p != q ==>
            !ExprEq(At(e.op, e, p), At(e.op, e, q)) && !Redundant(e.op, At(e.op, e, p), At(e.op, e, q)))
      && (forall p :: Leaf(e, p) && Size(At(e.op, e, p)) < Size(e) ==> Irreducible(At(e.op, e, p)))
  }

  /** Position p holds an operand of the top level of e. */
  ghost predicate Leaf(e: Expr, p: seq<bool>)
    requires e.Bin?
  {
    OnSpine(e.op, e, p) && !IsNode(e.op, At(e.op, e, p))
  }

  /** A pass that joined nothing has tried every pair of different leaves below its positions. */
  lemma {:induction false} PairTried(t: Op, e: Expr, p1: seq<bool>, p2: seq<bool>, q1: seq<bool>, q2: seq<bool>)
    requires OnSpine(t, e, p1) && OnSpine(t, e, p2) && Dups1(t, e, p1, p2).count == 0
    requires p1 <= q1 && OnSpine(t, e, q1) && !IsNode(t, At(t, e, q1))
    requires p2 <= q2 && OnSpine(t, e, q2) && !IsNode(t, At(t, e, q2))
    requires q1 != q2
    ensures Join(t, At(t, e, q1), At(t, e, q2)).Absent?
    ensures At(t, e, q1).Bin? ==> Dups1(At(t, e, q1).op, At(t, e, q1), [], []).count == 0
    decreases SpineSize(t, At(t, e, p1)) + SpineSize(t, At(t, e, p2))
  {
    if IsNode(t, At(t, e, p1)) {
      StepDown(t, e, p1);
      Dups1Progress(t, e, p1 + [false], p2);
      assert p1 != q1;
      if q1[|p1|] {
        PairTried(t, e, p1 + [true], p2, q1, q2);
      } else {
        PairTried(t, e, p1 + [false], p2, q1, q2);
      }
    } else if IsNode(t, At(t, e, p2)) {
      StepDown(t, e, p2);
      Dups1Progress(t, e, p1, p2 + [false]);
      assert p2 != q2;
      if q2[|p2|] {
        PairTried(t, e, p1, p2 + [true], q1, q2);
      } else {
        PairTried(t, e, p1, p2 + [false], q1, q2);
      }
    } else {
      LeafIsMaximal(t, e, p1, q1);
      LeafIsMaximal(t, e, p2, q2);
      Dups1Progress(t, e, p1, p2);
      if At(t, e, p1).Bin? {
        PutElsewhere(t, e, p1, At(t, e, p1), p2);
        PutLeaf(t, e, p1, At(t, e, p1));
        Dups1Progress(At(t, e, p1).op, At(t, e, p1), [], []);
      }
    }
  }

  lemma {:induction false} LeafIsMaximal(t: Op, e: Expr, p: seq<bool>, q: seq<bool>)
    requires OnSpine(t, e, p) && !IsNode(t, At(t, e, p)) && p <= q && OnSpine(t, e, q)
    ensures p == q
    decreases |p|
  {
    if p != [] {
      LeafIsMaximal(t, if p[0] then e.r else e.l, p[1..], q[1..]);
      assert p == [p[0]] + p[1..] && q == [q[0]] + q[1..];
    }
  }

  /** A pass that joins nothing finds nothing to join at any level. */
  lemma {:induction false} NothingToJoin(e: Expr)
    requires e.Bin? ==> Dups1(e.op, e, [], []).count == 0
    ensures Irreducible(e)
    decreases Size(e)
  {
    if e.Bin? {
      var t := e.op;
      forall p, q | Leaf(e, p) && Leaf(e, q) && p != q
        ensures !ExprEq(At(t, e, p), At(t, e, q)) && !Redundant(t, At(t, e, p), At(t, e, q))
      {
        PairTried(t, e, [], [], p, q);
        JoinedExactly(t, At(t, e, p), At(t, e, q));
      }
      forall p | Leaf(e, p) && Size(At(t, e, p)) < Size(e)
        ensures Irreducible(At(t, e, p))
      {
        var q := OtherLeaf(e, p);
        PairTried(t, e, [], [], p, q);
        NothingToJoin(At(t, e, p));
      }
    }
  }

  /** The leftmost operand. */
  lemma {:induction false} SomeLeaf(t: Op, e: Expr) returns (p: seq<bool>)
    ensures OnSpine(t, e, p) && !IsNode(t, At(t, e, p))
  {
    if IsNode(t, e) {
      var r := SomeLeaf(t, e.l);
      p := [false] + r;
      assert p[1..] == r;
    } else {
      p := [];
    }
  }

  /** An operand is smaller than the expression, so `Irreducible` speaks of all of them. */
  lemma LeafSmaller(e: Expr, p: seq<bool>)
    requires e.Bin? && Leaf(e, p)
    ensures Size(At(e.op, e, p)) < Size(e)
  {
    PutLeaf(e.op, e, p, At(e.op, e, p));
  }

  /** An operand is never alone. */
  lemma OtherLeaf(e: Expr, p: seq<bool>) returns (q: seq<bool>)
    requires e.Bin? && Leaf(e, p)
    ensures Leaf(e, q) && q != p
  {
    var b := p == [] || !p[0];
    var r := SomeLeaf(e.op, if b then e.r else e.l);
    q := [b] + r;
    assert q[1..] == r;
  }

  /** After the loop nothing is left to join: at no level below || and && are two different operands
      equal, or one of the pairs over one symbol of which one is enough. */
  lemma EliminateDupsComplete(e: Expr)
    ensures Irreducible(EliminateDups(e))
  {
    EliminateDupsStable(e);
    NothingToJoin(EliminateDups(e));
  }
}
