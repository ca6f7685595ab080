/** Detection of recursive dependencies: a depth-first search with two mark bits and a stack of the
    symbols being checked.  Choice groups are not part of this model. */
module KconfigDeps {
  import opened Options
  import opened KconfigExpr

  datatype PropKind = Prompt | Comment | MenuProp | Default | Choice | Select | Imply | Range | SymbolProp

  datatype Prop = Prop(kind: PropKind, visible: MaybeExpr, expr: MaybeExpr)

  /** What a symbol depends on. */
  datatype Info = Info(dirDep: MaybeExpr, revDep: MaybeExpr, implied: MaybeExpr, props: seq<Prop>)

  /** The symbols of an expression in the order they are checked. */
  function ExprSymbols(e: Expr): seq<Symbol> {
    match e
    case Bin(_, l, r) => ExprSymbols(l) + ExprSymbols(r)
    case Not(x) => ExprSymbols(x)
    case Comp(_, a, b) => [a, b]
    case Sym(s) => [s]
  }

  function MaybeSymbols(e: MaybeExpr): seq<Symbol> {
    if e.Absent? then [] else ExprSymbols(e.expr)
  }

  /** Choice, select and imply properties are skipped; defaults also contribute their value. */
  function PropSymbols(p: Prop): seq<Symbol> {
    if p.kind == Choice || p.kind == Select || p.kind == Imply then []
    else MaybeSymbols(p.visible) + (if p.kind == Default then MaybeSymbols(p.expr) else [])
  }

  function PropsSymbols(ps: seq<Prop>): seq<Symbol> {
    if ps == [] then [] else PropSymbols(ps[0]) + PropsSymbols(ps[1..])
  }

  function Deps(i: Info): seq<Symbol> {
    MaybeSymbols(i.dirDep) + MaybeSymbols(i.revDep) + MaybeSymbols(i.implied) + PropsSymbols(i.props)
  }

  // ----- what a symbol depends on -----

  /** Exactly the symbols that occur are listed. */
  lemma {:induction false} ListedIsContained(e: Expr, s: Symbol)
    ensures s in ExprSymbols(e) <==> ContainsSymbol(e, s)
  {
    match e
    case Bin(_, l, r) =>
      ListedIsContained(l, s);
      ListedIsContained(r, s);
    case Not(x) => ListedIsContained(x, s);
    case _ =>
  }

  /** Nothing else has an influence: the listed symbols and their comparisons decide the value. */
  lemma {:induction false} ListedDecide(v: Valuation, w: Valuation, e: Expr)
    requires forall s :: s in ExprSymbols(e) ==> v.tri(s) == w.tri(s)
    requires forall s, x :: s in ExprSymbols(e) && x in ExprSymbols(e) ==> v.cmp(s, x) == w.cmp(s, x)
    ensures Eval(v, e) == Eval(w, e)
  {
    match e
    case Bin(_, l, r) =>
      ListedDecide(v, w, l);
      ListedDecide(v, w, r);
    case Not(x) => ListedDecide(v, w, x);
    case Comp(_, a, b) => assert a in ExprSymbols(e) && b in ExprSymbols(e);
    case Sym(s) => assert s in ExprSymbols(e);
  }

  predicate ContainsMaybe(e: MaybeExpr, s: Symbol) { e.Present? && ContainsSymbol(e.expr, s) }

  lemma MaybeListed(e: MaybeExpr, s: Symbol)
    ensures s in MaybeSymbols(e) <==> ContainsMaybe(e, s)
  {
    if e.Present? {
      ListedIsContained(e.expr, s);
    }
  }

  /** The condition of every property except choice, select and imply counts, and the value of a default. */
  predicate PropContains(p: Prop, s: Symbol) {
    && p.kind !in {Choice, Select, Imply}
    && (ContainsMaybe(p.visible, s) || (p.kind == Default && ContainsMaybe(p.expr, s)))
  }

  lemma {:induction false} PropsListed(ps: seq<Prop>, s: Symbol)
    ensures s in PropsSymbols(ps) <==> exists k :: 0 <= k < |ps| && PropContains(ps[k], s)
  {
    if ps != [] {
      PropsListed(ps[1..], s);
      MaybeListed(ps[0].visible, s);
      MaybeListed(ps[0].expr, s);
      assert forall k :: 1 <= k < |ps| ==> ps[k] == ps[1..][k - 1];
      assert forall k :: 0 <= k < |ps| - 1 ==> ps[1..][k] == ps[k + 1];
    }
  }

  /** A symbol depends on those in its direct, reverse and implied dependency and in its properties,
      and on no others. */
  lemma DepsExact(i: Info, s: Symbol)
    ensures s in Deps(i) <==>
            || ContainsMaybe(i.dirDep, s) || ContainsMaybe(i.revDep, s) || ContainsMaybe(i.implied, s)
            || exists k :: 0 <= k < |i.props| && PropContains(i.props[k], s)
  {
    MaybeListed(i.dirDep, s);
    MaybeListed(i.revDep, s);
    MaybeListed(i.implied, s);
    PropsListed(i.props, s);
  }

  // ----- dependency paths -----

  /** The symbols each symbol depends on. */
  type Graph = Symbol -> seq<Symbol>

  predicate Edge(g: Graph, a: Symbol, b: Symbol) { b in g(a) }

  ghost predicate Path(g: Graph, p: seq<Symbol>) {
    && p != []
    && (forall i :: 0 <= i < |p| - 1 ==> Edge(g, p[i], p[i + 1]))
  }

  ghost predicate Cycle(g: Graph, p: seq<Symbol>) {
    Path(g, p) && |p| >= 2 && p[0] == p[|p| - 1]
  }

  ghost predicate OnCycle(g: Graph, s: Symbol) {
    exists p: seq<Symbol> :: Cycle(g, p) && p[0] == s
  }

  ghost predicate Reach(g: Graph, a: Symbol, b: Symbol) {
    exists p: seq<Symbol> :: Path(g, p) && p[0] == a && p[|p| - 1] == b
  }

  /** A dependency cycle can be reached from s. */
  ghost predicate Recursive(g: Graph, s: Symbol) {
    exists x: Symbol :: Reach(g, s, x) && OnCycle(g, x)
  }

  /** Closed under dependencies. */
  ghost predicate Closed(g: Graph, b: set<Symbol>) {
    forall x, y :: x in b && Edge(g, x, y) ==> y in b
  }

  /** No cycle inside. */
  ghost predicate Acyclic(g: Graph, b: set<Symbol>) {
    forall x :: x in b ==> !OnCycle(g, x)
  }

  lemma {:induction false} ClosedPath(g: Graph, b: set<Symbol>, p: seq<Symbol>, i: nat)
    requires Closed(g, b) && Path(g, p) && i < |p| && p[i] in b
    ensures forall j :: i <= j < |p| ==> p[j] in b
    decreases |p| - i
  {
    if i + 1 < |p| {
      assert Edge(g, p[i], p[i + 1]);
      ClosedPath(g, b, p, i + 1);
    }
  }

  /** Finishing a symbol whose dependencies are all finished keeps the finished set closed and free
      of cycles. */
  lemma Finish(g: Graph, b: set<Symbol>, s: Symbol)
    requires Closed(g, b) && Acyclic(g, b) && s !in b
    requires forall y :: Edge(g, s, y) ==> y in b
    ensures Closed(g, b + {s}) && Acyclic(g, b + {s})
  {
    if OnCycle(g, s) {
      var p :| Cycle(g, p) && p[0] == s;
      assert Edge(g, p[0], p[1]);
      ClosedPath(g, b, p, 1);
      assert false;
    }
  }

  /** In a closed set without cycles no cycle can be reached. */
  lemma FinishedNotRecursive(g: Graph, b: set<Symbol>, s: Symbol)
    requires Closed(g, b) && Acyclic(g, b) && s in b
    ensures !Recursive(g, s)
  {
    if Recursive(g, s) {
      var x :| Reach(g, s, x) && OnCycle(g, x);
      var p :| Path(g, p) && p[0] == s && p[|p| - 1] == x;
      ClosedPath(g, b, p, 0);
    }
  }

  lemma ReachRefl(g: Graph, s: Symbol)
    ensures Reach(g, s, s)
  {
    assert Path(g, [s]) && [s][0] == s && [s][|[s]| - 1] == s;
  }

  lemma ReachStep(g: Graph, a: Symbol, b: Symbol, c: Symbol)
    requires Edge(g, a, b) && Reach(g, b, c)
    ensures Reach(g, a, c)
  {
    var p :| Path(g, p) && p[0] == b && p[|p| - 1] == c;
    var q := [a] + p;
    forall i | 0 <= i < |q| - 1
      ensures Edge(g, q[i], q[i + 1])
    {
      if i > 0 {
        assert Edge(g, p[i - 1], p[i]);
      }
    }
    assert Path(g, q) && q[0] == a && q[|q| - 1] == c;
  }

  lemma StackPush(g: Graph, stack: seq<Symbol>, s: Symbol)
    requires stack == [] || (Path(g, stack) && Edge(g, stack[|stack| - 1], s))
    ensures Path(g, stack + [s])
  {
    var q := stack + [s];
    forall i | 0 <= i < |q| - 1
      ensures Edge(g, q[i], q[i + 1])
    {
      if i < |stack| - 1 {
        assert Edge(g, stack[i], stack[i + 1]);
      }
    }
  }

  // ----- the search -----

  /** Every listed symbol has been visited and is not on the current path. */
  ghost predicate AllDone(list: seq<Symbol>, check: set<Symbol>, checked: set<Symbol>) {
    forall x :: x in list ==> x in checked && x !in check
  }

  ghost predicate AllEdges(g: Graph, s: Symbol, list: seq<Symbol>) {
    forall x :: x in list ==> Edge(g, s, x)
  }

  /** CHECK marks are exactly the symbols on the stack, and the stack is a dependency path. */
  ghost predicate Marks(g: Graph, symbols: set<Symbol>, check: set<Symbol>, checked: set<Symbol>, stack: seq<Symbol>) {
    && check <= checked <= symbols
    && (forall s :: s in check <==> s in stack)
    && (stack != [] ==> Path(g, stack))
  }

  /** The finished symbols form a closed set without cycles. */
  ghost predicate BlackOk(g: Graph, check: set<Symbol>, checked: set<Symbol>) {
    Closed(g, checked - check) && Acyclic(g, checked - check)
  }

  lemma MarkSymbol(g: Graph, symbols: set<Symbol>, check: set<Symbol>, checked: set<Symbol>, stack: seq<Symbol>, s: Symbol)
    requires Marks(g, symbols, check, checked, stack) && s in symbols && s !in checked
    requires stack == [] || Edge(g, stack[|stack| - 1], s)
    ensures Marks(g, symbols, check + {s}, checked + {s}, stack + [s])
    ensures (checked + {s}) - (check + {s}) == checked - check
  {
    StackPush(g, stack, s);
  }

  lemma UnmarkSymbol(g: Graph, symbols: set<Symbol>, check: set<Symbol>, checked: set<Symbol>, stack: seq<Symbol>, s: Symbol, more: set<Symbol>)
    requires Marks(g, symbols, check, checked, stack) && s in symbols && s !in checked
    requires checked + {s} <= more <= symbols
    ensures Marks(g, symbols, check, more, stack)
    ensures BlackOk(g, check + {s}, more) && AllDone(g(s), check + {s}, more) ==> BlackOk(g, check, more)
  {
    if BlackOk(g, check + {s}, more) && AllDone(g(s), check + {s}, more) {
      var b := more - (check + {s});
      Finish(g, b, s);
      assert b + {s} == more - check;
    }
  }

  class Checker {
    const info: Symbol -> Info
    const symbols: set<Symbol>
    ghost const g: Graph
    /** Symbols on the current path (SYMBOL_CHECK), symbols ever visited (SYMBOL_CHECKED). */
    var check: set<Symbol>
    var checked: set<Symbol>
    /** The chain of symbols being checked, innermost last. */
    var stack: seq<Symbol>
    /** The chain printed with the last error. */
    var reported: seq<Symbol>

    constructor (info0: Symbol -> Info, symbols0: set<Symbol>)
      requires forall x, y :: x in symbols0 && y in Deps(info0(x)) ==> y in symbols0
      ensures info == info0 && symbols == symbols0
      ensures check == {} && checked == {} && stack == [] && reported == []
      ensures Valid() && BlackOk(g, check, checked)
    {
      info, symbols := info0, symbols0;
      g := x => Deps(info0(x));
      check, checked, stack, reported := {}, {}, [], [];
    }

    ghost predicate Valid()
      reads this
    {
      && (forall s {:trigger info(s)} :: g(s) == Deps(info(s)))
      && Closed(g, symbols)
      && Marks(g, symbols, check, checked, stack)
    }

    /** Finds the symbol on the stack and records the chain from there to the top. */
    method PrintRecursive(last: Symbol)
      requires Marks(g, symbols, check, checked, stack) && last in check
      requires Edge(g, stack[|stack| - 1], last)
      modifies this`reported
      ensures |reported| > 0 && reported[0] == last && Cycle(g, reported + [last])
    {
      var i := |stack|;
      while i > 0 && stack[i - 1] != last
        invariant 0 <= i <= |stack|
        invariant last !in stack[i..]
      {
        i := i - 1;
      }
      assert last in stack && stack == stack[0..];
      reported := stack[i - 1..];
      var p := reported + [last];
      forall j | 0 <= j < |p| - 1
        ensures Edge(g, p[j], p[j + 1])
      {
        if j < |reported| - 1 {
          assert Edge(g, stack[i - 1 + j], stack[i - 1 + j + 1]);
        }
      }
    }

    /** Checks one symbol.  Returns a symbol on a cycle, or None if none was found. */
    method CheckDeps(s: Symbol) returns (r: Option<Symbol>)
      requires Valid() && s in symbols
      requires stack != [] ==> Edge(g, stack[|stack| - 1], s)
      modifies this
      ensures Valid() && stack == old(stack) && check == old(check) && old(checked) <= checked
      ensures r.Some? ==> Reach(g, s, r.value) && OnCycle(g, r.value)
      ensures r.None? ==> s in checked && s !in check
      ensures r.None? && old(BlackOk(g, check, checked)) ==> BlackOk(g, check, checked)
      ensures old(BlackOk(g, check, checked)) ==> (r.None? <==> !Recursive(g, s))
      decreases symbols - checked, 1, 0
    {
      if s in check {
        PrintRecursive(s);
        ReachRefl(g, s);
        assert Cycle(g, reported + [s]) && (reported + [s])[0] == s;
        return Some(s);
      }
      if s in checked {
        if BlackOk(g, check, checked) {
          FinishedNotRecursive(g, checked - check, s);
        }
        return None;
      }
      MarkSymbol(g, symbols, check, checked, stack, s);
      check, checked := check + {s}, checked + {s};
      r := CheckSymDeps(s);
      check := check - {s};
      assert check == old(check) && old(check) + {s} == check + {s};
      UnmarkSymbol(g, symbols, old(check), old(checked), stack, s, checked);
      if r.None? && old(BlackOk(g, check, checked)) {
        FinishedNotRecursive(g, checked - check, s);
      }
    }

    /** Checks everything a symbol depends on, in order, stopping at the first cycle. */
    method CheckSymDeps(s: Symbol) returns (r: Option<Symbol>)
      requires forall x {:trigger info(x)} :: g(x) == Deps(info(x))
      requires Closed(g, symbols) && Marks(g, symbols, check, checked, stack + [s])
      modifies this
      ensures stack == old(stack) && check == old(check) && old(checked) <= checked <= symbols
      ensures r.Some? ==> Reach(g, s, r.value) && OnCycle(g, r.value)
      ensures r.None? ==> AllDone(g(s), check, checked)
      ensures r.None? && old(BlackOk(g, check, checked)) ==> BlackOk(g, check, checked)
      decreases symbols - checked, 4, 0
    {
      stack := stack + [s];
      assert stack[..|stack| - 1] == old(stack);
      var i := info(s);
      DepsEdges(g, s, i);
      r := CheckMaybe(s, i.dirDep);
      if r.None? {
        r := CheckMaybe(s, i.revDep);
        if r.None? {
          r := CheckMaybe(s, i.implied);
          if r.None? {
            r := CheckProps(s, i.props);
          }
        }
      }
      stack := stack[..|stack| - 1];
      if r.None? {
        DepsDone(i, check, checked);
      }
    }

    static lemma DepsEdges(g: Graph, s: Symbol, i: Info)
      requires g(s) == Deps(i)
      ensures AllEdges(g, s, MaybeSymbols(i.dirDep)) && AllEdges(g, s, MaybeSymbols(i.revDep))
      ensures AllEdges(g, s, MaybeSymbols(i.implied)) && AllEdges(g, s, PropsSymbols(i.props))
    {
    }

    static lemma DepsDone(i: Info, check: set<Symbol>, checked: set<Symbol>)
      requires AllDone(MaybeSymbols(i.dirDep), check, checked) && AllDone(MaybeSymbols(i.revDep), check, checked)
      requires AllDone(MaybeSymbols(i.implied), check, checked) && AllDone(PropsSymbols(i.props), check, checked)
      ensures AllDone(Deps(i), check, checked)
    {
    }

    /** The property list, from the first property on. */
    method CheckProps(s: Symbol, ps: seq<Prop>) returns (r: Option<Symbol>)
      requires Valid() && stack != [] && stack[|stack| - 1] == s
      requires AllEdges(g, s, PropsSymbols(ps))
      modifies this
      ensures Valid() && stack == old(stack) && check == old(check) && old(checked) <= checked
      ensures r.Some? ==> Reach(g, s, r.value) && OnCycle(g, r.value)
      ensures r.None? ==> AllDone(PropsSymbols(ps), check, checked)
      ensures r.None? && old(BlackOk(g, check, checked)) ==> BlackOk(g, check, checked)
      decreases symbols - checked, 3, 1
    {
      r := None;
      var k := 0;
      while k < |ps|
        invariant 0 <= k <= |ps| && r.None?
        invariant Valid() && stack == old(stack) && check == old(check) && old(checked) <= checked
        invariant AllEdges(g, s, PropsSymbols(ps[k..]))
        invariant forall x :: x in PropsSymbols(ps) ==> x in PropsSymbols(ps[k..]) || (x in checked && x !in check)
        invariant old(BlackOk(g, check, checked)) ==> BlackOk(g, check, checked)
      {
        assert ps[k..][0] == ps[k] && ps[k..][1..] == ps[k + 1..];
        assert PropsSymbols(ps[k..]) == PropSymbols(ps[k]) + PropsSymbols(ps[k + 1..]);
        r := CheckProp(s, ps[k]);
        if r.Some? {
          return;
        }
        k := k + 1;
      }
    }

    /** One property: its visibility, and for a default also its value. */
    method CheckProp(s: Symbol, p: Prop) returns (r: Option<Symbol>)
      requires Valid() && stack != [] && stack[|stack| - 1] == s
      requires AllEdges(g, s, PropSymbols(p))
      modifies this
      ensures Valid() && stack == old(stack) && check == old(check) && old(checked) <= checked
      ensures r.Some? ==> Reach(g, s, r.value) && OnCycle(g, r.value)
      ensures r.None? ==> AllDone(PropSymbols(p), check, checked)
      ensures r.None? && old(BlackOk(g, check, checked)) ==> BlackOk(g, check, checked)
      decreases symbols - checked, 3, 0
    {
      r := None;
      if p.kind == Choice || p.kind == Select || p.kind == Imply {
        return;
      }
      r := CheckMaybe(s, p.visible);
      if r.Some? || p.kind != Default {
        return;
      }
      r := CheckMaybe(s, p.expr);
    }

    method CheckMaybe(s: Symbol, e: MaybeExpr) returns (r: Option<Symbol>)
      requires Valid() && stack != [] && stack[|stack| - 1] == s
      requires AllEdges(g, s, MaybeSymbols(e))
      modifies this
      ensures Valid() && stack == old(stack) && check == old(check) && old(checked) <= checked
      ensures r.Some? ==> Reach(g, s, r.value) && OnCycle(g, r.value)
      ensures r.None? ==> AllDone(MaybeSymbols(e), check, checked)
      ensures r.None? && old(BlackOk(g, check, checked)) ==> BlackOk(g, check, checked)
      decreases symbols - checked, 2, if e.Absent? then 0 else Size(e.expr) + 1
    {
      if e.Absent? {
        return None;
      }
      r := CheckExpr(s, e.expr);
    }

    /** Checks the symbols of an expression from left to right. */
    method CheckExpr(s: Symbol, e: Expr) returns (r: Option<Symbol>)
      requires Valid() && stack != [] && stack[|stack| - 1] == s
      requires AllEdges(g, s, ExprSymbols(e))
      modifies this
      ensures Valid() && stack == old(stack) && check == old(check) && old(checked) <= checked
      ensures r.Some? ==> Reach(g, s, r.value) && OnCycle(g, r.value)
      ensures r.None? ==> AllDone(ExprSymbols(e), check, checked)
      ensures r.None? && old(BlackOk(g, check, checked)) ==> BlackOk(g, check, checked)
      decreases symbols - checked, 2, Size(e)
    {
      match e
      case Bin(_, left, right) =>
        r := CheckExpr(s, left);
        if r.Some? {
          return;
        }
        r := CheckExpr(s, right);
      case Not(x) =>
        r := CheckExpr(s, x);
      case Comp(_, a, b) =>
        r := CheckOne(s, a);
        if r.Some? {
          return;
        }
        r := CheckOne(s, b);
      case Sym(a) =>
        r := CheckOne(s, a);
    }

    /** Checks one dependency of s. */
    method CheckOne(s: Symbol, a: Symbol) returns (r: Option<Symbol>)
      requires Valid() && stack != [] && stack[|stack| - 1] == s && Edge(g, s, a)
      modifies this
      ensures Valid() && stack == old(stack) && check == old(check) && old(checked) <= checked
      ensures r.Some? ==> Reach(g, s, r.value) && OnCycle(g, r.value)
      ensures r.None? ==> a in checked && a !in check
      ensures r.None? && old(BlackOk(g, check, checked)) ==> BlackOk(g, check, checked)
      decreases symbols - checked, 2, 0
    {
      r := CheckDeps(a);
      if r.Some? {
        ReachStep(g, s, a, r.value);
      }
    }

    /** The check made when a configuration is read: every symbol in turn, counting errors.  The
        configuration is rejected exactly when some symbol depends on itself. */
    method CheckAll(list: seq<Symbol>) returns (errors: nat)
      requires Valid() && stack == [] && checked == {}
      requires forall i :: 0 <= i < |list| ==> list[i] in symbols
      modifies this
      ensures Valid() && stack == [] && check == {}
      ensures errors == 0 <==> forall i :: 0 <= i < |list| ==> !Recursive(g, list[i])
    {
      errors := 0;
      for k := 0 to |list|
        invariant Valid() && stack == [] && check == {}
        invariant errors == 0 ==> BlackOk(g, check, checked)
        invariant errors == 0 <==> forall i :: 0 <= i < k ==> !Recursive(g, list[i])
      {
        var r := CheckDeps(list[k]);
        if r.Some? {
          errors := errors + 1;
        }
      }
    }
  }
}
