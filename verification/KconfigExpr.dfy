/** Dependency expressions of the kconfig tool and their three-valued meaning.

    A dependency is a tree of `&&`, `||`, `!`, symbols and symbol comparisons.  Its value is one
    of n < m < y; `&&` is the minimum, `||` the maximum and `!` is 2 - x.  A comparison yields
    y or n only.
*/
module KconfigExpr {

  /** n = 0, m = 1, y = 2. */
  type Tri = x: int | 0 <= x <= 2

  const N: Tri := 0
  const M: Tri := 1
  const Y: Tri := 2

  datatype SymType = Unknown | Boolean | Tristate | Int | Hex | String

  /** The texts y, m and n always denote the three distinguished constants. */
  type Literal = s: string | s != "y" && s != "m" && s != "n"

  /** A symbol is compared by identity.  Constants are y, m, n and the quoted literals: one object
      for every text, without a type.  All other symbols have a name and possibly a type. */
  datatype Symbol = SymYes | SymMod | SymNo | Quoted(lit: Literal) | Named(id: nat, ty: SymType)

  function TypeOf(s: Symbol): SymType {
    if s.Named? then s.ty else Unknown
  }

  predicate IsTriConst(s: Symbol) {
    s == SymYes || s == SymMod || s == SymNo
  }

  /** The SYMBOL_CONST flag. */
  predicate IsConst(s: Symbol) {
    IsTriConst(s) || s.Quoted?
  }

  predicate HasTriValue(s: Symbol) {
    TypeOf(s) == Boolean || TypeOf(s) == Tristate
  }

  /** The text of these symbols is y, m or n, in step with their value. */
  predicate HasTriText(s: Symbol) {
    IsTriConst(s) || HasTriValue(s)
  }

  datatype Rel = Equal | Unequal | Less | LessEq | Greater | GreaterEq

  datatype Op = Conj | Disj

  datatype Expr =
    | Sym(sym: Symbol)
    | Comp(rel: Rel, left: Symbol, right: Symbol)
    | Not(arg: Expr)
    | Bin(op: Op, l: Expr, r: Expr)

  /** A possibly missing expression; a missing dependency counts as y. */
  datatype MaybeExpr = Absent | Present(expr: Expr)

  /** The values of all symbols, and the sign of the comparison of every pair of symbols. */
  datatype Valuation = Valuation(tri: Symbol -> Tri, cmp: (Symbol, Symbol) -> int)

  function Min(a: Tri, b: Tri): Tri { if a < b then a else b }
  function Max(a: Tri, b: Tri): Tri { if a > b then a else b }
  function Combine(op: Op, a: Tri, b: Tri): Tri { if op.Conj? then Min(a, b) else Max(a, b) }
  function Truth(b: bool): Tri { if b then Y else N }

  predicate Holds(rel: Rel, c: int) {
    match rel
    case Equal => c == 0
    case Unequal => c != 0
    case Less => c < 0
    case LessEq => c <= 0
    case Greater => c > 0
    case GreaterEq => c >= 0
  }

  /** The value of an expression. */
  function Eval(v: Valuation, e: Expr): Tri {
    match e
    case Sym(s) => v.tri(s)
    case Comp(rel, a, b) => Truth(Holds(rel, v.cmp(a, b)))
    case Not(x) => 2 - Eval(v, x)
    case Bin(op, l, r) => Combine(op, Eval(v, l), Eval(v, r))
  }

  function EvalMaybe(v: Valuation, e: MaybeExpr): Tri {
    if e.Absent? then Y else Eval(v, e.expr)
  }

  /** The constants have their own values, boolean symbols are never m, and a constant, a
      boolean or a tristate symbol compares equal to y, m, n exactly when it has that value. */
  ghost predicate WellTyped(v: Valuation) {
    && v.tri(SymYes) == Y && v.tri(SymMod) == M && v.tri(SymNo) == N
    && (forall s: Symbol :: TypeOf(s) == Boolean ==> v.tri(s) != M)
    && (forall s: Symbol :: HasTriText(s) ==>
          && (v.cmp(s, SymYes) == 0 <==> v.tri(s) == Y)
          && (v.cmp(s, SymMod) == 0 <==> v.tri(s) == M)
          && (v.cmp(s, SymNo) == 0 <==> v.tri(s) == N))
  }

  /** Equal value under every well-typed valuation. */
  ghost predicate Equiv(a: Expr, b: Expr) {
    forall v: Valuation :: WellTyped(v) ==> Eval(v, a) == Eval(v, b)
  }

  predicate ContainsSymbol(e: Expr, s: Symbol) {
    match e
    case Bin(_, l, r) => ContainsSymbol(l, s) || ContainsSymbol(r, s)
    case Sym(a) => a == s
    case Comp(_, a, b) => a == s || b == s
    case Not(x) => ContainsSymbol(x, s)
  }

  /** `e` with symbol `s` replaced by `x`. */
  function Renamed(e: Expr, s: Symbol, x: Symbol): Expr {
    match e
    case Bin(t, l, r) => Bin(t, Renamed(l, s, x), Renamed(r, s, x))
    case Sym(a) => Sym(if a == s then x else a)
    case Comp(rel, a, b) => Comp(rel, if a == s then x else a, if b == s then x else b)
    case Not(y) => Not(Renamed(y, s, x))
  }

  /** A symbol is contained in an expression if and only if replacing it makes a difference. */
  lemma {:induction false} ContainedIsReplaced(e: Expr, s: Symbol, x: Symbol)
    requires x != s
    ensures ContainsSymbol(e, s) <==> Renamed(e, s, x) != e
  {
    match e
    case Bin(_, l, r) =>
      ContainedIsReplaced(l, s, x);
      ContainedIsReplaced(r, s, x);
    case Not(y) => ContainedIsReplaced(y, s, x);
    case _ =>
  }

  function Size(e: Expr): (n: nat)
    ensures n >= 1
  {
    match e
    case Sym(_) => 1
    case Comp(_, _, _) => 1
    case Not(x) => 1 + Size(x)
    case Bin(_, l, r) => 1 + Size(l) + Size(r)
  }

  predicate IsNode(t: Op, e: Expr) { e.Bin? && e.op == t }

  /** The neutral operand of an operator and the operand that decides it. */
  function Unit(t: Op): Expr { Sym(if t.Conj? then SymYes else SymNo) }
  function Zero(t: Op): Expr { Sym(if t.Conj? then SymNo else SymYes) }

  predicate IsYN(e: Expr) { e == Sym(SymYes) || e == Sym(SymNo) }

  predicate IsYes(e: MaybeExpr) { e.Absent? || e.expr == Sym(SymYes) }

  /** Constant folding: drops neutral operands and collapses decided ones, bottom up through
      `&&` and `||` only. */
  function EliminateYn(e: Expr): Expr {
    if e.Bin? then
      var l := EliminateYn(e.l);
      var r := EliminateYn(e.r);
      if l == Zero(e.op) then l
      else if l == Unit(e.op) then r
      else if r == Zero(e.op) then r
      else if r == Unit(e.op) then l
      else Bin(e.op, l, r)
    else e
  }

  /** Some `&&`/`||` node reachable through `&&`/`||` nodes has an operand y or n. */
  predicate HasYN(e: Expr) {
    e.Bin? && (IsYN(e.l) || IsYN(e.r) || HasYN(e.l) || HasYN(e.r))
  }

  lemma {:induction false} EliminateYnEval(v: Valuation, e: Expr)
    requires WellTyped(v)
    ensures Eval(v, EliminateYn(e)) == Eval(v, e)
  {
    if e.Bin? {
      EliminateYnEval(v, e.l);
      EliminateYnEval(v, e.r);
    }
  }

  /** Folding never grows the tree, and shrinks it exactly when a constant operand is present.
      What is left has no constant operand, so folding is a normal form. */
  lemma {:induction false} EliminateYnShrinks(e: Expr)
    ensures Size(EliminateYn(e)) <= Size(e)
    ensures HasYN(e) <==> Size(EliminateYn(e)) < Size(e)
    ensures !HasYN(e) ==> EliminateYn(e) == e
    ensures !HasYN(EliminateYn(e))
  {
    if e.Bin? {
      EliminateYnShrinks(e.l);
      EliminateYnShrinks(e.r);
    }
  }
}
