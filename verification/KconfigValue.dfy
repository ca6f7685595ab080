/** How a comparison is computed from the texts of the two symbols, and which valuations that
    yields. */
module KconfigValue {
  import opened KconfigExpr
  import opened KconfigDups
  import Bits

  /** A text is read as a signed number, an unsigned number, or stays a string. */
  datatype Number = Text | Signed(s: int) | Unsigned(u: int)

  /** The values of the symbols: `tri` of each symbol, `text` of the symbols that are neither
      boolean nor tristate, and whether modules are enabled.  `parse` stands for the C library's
      number conversion of a text for a symbol type. */
  datatype State = State(tri: Symbol -> Tri, text: Symbol -> string, modules: bool,
                         parse: (SymType, string) -> Number)

  /** Tristate symbols are m only with modules enabled, boolean symbols never are, every constant
      carries its own text, and the names y, m, n are not numbers. */
  ghost predicate Consistent(st: State) {
    && st.tri(SymYes) == Y && st.tri(SymMod) == M && st.tri(SymNo) == N
    && (forall s: Symbol :: TypeOf(s) == Boolean ==> st.tri(s) != M)
    && (forall s: Symbol :: TypeOf(s) == Tristate && st.tri(s) == M ==> st.modules)
    && st.text(SymYes) == "y" && st.text(SymMod) == "m" && st.text(SymNo) == "n"
    && (forall q: Literal :: st.text(Quoted(q)) == q)
    && st.parse(Unknown, "y").Text? && st.parse(Unknown, "m").Text? && st.parse(Unknown, "n").Text?
  }

  function StringValue(st: State, s: Symbol): string {
    if HasTriValue(s) then
      if st.tri(s) == N then "n"
      else if st.tri(s) == Y then "y"
      else if st.modules then "m" else "n"
    else st.text(s)
  }

  function ParseString(st: State, ty: SymType, str: string): Number {
    if ty == Boolean || ty == Tristate then
      Signed(if str == "n" then 0 else if str == "m" then 1 else if str == "y" then 2 else -1)
    else st.parse(ty, str)
  }

  function Sign(a: int, b: int): int { if a < b then -1 else if a > b then 1 else 0 }

  /** The C library's string comparison. */
  function StrCmp(a: string, b: string): int {
    if a == [] then (if b == [] then 0 else -1)
    else if b == [] then 1
    else if a[0] != b[0] then Sign(a[0] as int, b[0] as int)
    else StrCmp(a[1..], b[1..])
  }

  lemma {:induction false} StrCmpEqual(a: string, b: string)
    ensures StrCmp(a, b) == 0 <==> a == b
  {
    if a != [] && b != [] && a[0] == b[0] {
      StrCmpEqual(a[1..], b[1..]);
      assert a == [a[0]] + a[1..] && b == [b[0]] + b[1..];
    }
  }

  /** The 64-bit pattern of a number, shared by the signed and the unsigned view. */
  function Pattern(n: Number): int {
    match n
    case Text => 0
    case Signed(s) => s % Bits.D
    case Unsigned(u) => u % Bits.D
  }

  function Compare(st: State, a: Symbol, b: Symbol): int {
    var str1, str2 := StringValue(st, a), StringValue(st, b);
    var strings := TypeOf(a) == String && TypeOf(b) == String;
    var k1 := if strings then Text else ParseString(st, TypeOf(a), str1);
    var k2 := if strings then Text else ParseString(st, TypeOf(b), str2);
    if k1.Text? || k2.Text? then StrCmp(str1, str2)
    else if k1.Unsigned? || k2.Unsigned? then Sign(Pattern(k1), Pattern(k2))
    else Sign(k1.s, k2.s)
  }

  function Induced(st: State): Valuation {
    Valuation(st.tri, (a, b) => Compare(st, a, b))
  }

  /** Every consistent state yields a well-typed valuation. */
  lemma InducedWellTyped(st: State)
    requires Consistent(st)
    ensures WellTyped(Induced(st))
  {
    forall s: Symbol | HasTriText(s)
      ensures Compare(st, s, SymYes) == 0 <==> st.tri(s) == Y
      ensures Compare(st, s, SymMod) == 0 <==> st.tri(s) == M
      ensures Compare(st, s, SymNo) == 0 <==> st.tri(s) == N
    {
      StrCmpEqual(StringValue(st, s), "y");
      StrCmpEqual(StringValue(st, s), "m");
      StrCmpEqual(StringValue(st, s), "n");
    }
  }

  // ----- the order of two symbols -----

  /** The number a symbol is read as, and its text. */
  function Reading(st: State, a: Symbol): Number {
    if HasTriValue(a) then Signed(st.tri(a)) else st.parse(TypeOf(a), st.text(a))
  }

  function OwnValue(st: State, a: Symbol): string {
    if !HasTriValue(a) then st.text(a)
    else if st.tri(a) == N then "n"
    else if st.tri(a) == M then "m"
    else "y"
  }

  /** All six comparisons of a with b, when a is less than b, equal to it, or neither. */
  ghost predicate Ordered(v: Valuation, a: Symbol, b: Symbol, less: bool, equal: bool) {
    && (Eval(v, Comp(Less, a, b)) == Y <==> less)
    && (Eval(v, Comp(LessEq, a, b)) == Y <==> less || equal)
    && (Eval(v, Comp(Equal, a, b)) == Y <==> equal)
    && (Eval(v, Comp(Unequal, a, b)) == Y <==> !equal)
    && (Eval(v, Comp(GreaterEq, a, b)) == Y <==> !less)
    && (Eval(v, Comp(Greater, a, b)) == Y <==> !less && !equal)
    && (forall rel :: Eval(v, Comp(rel, a, b)) != M)
  }

  /** Two strings are compared as texts, and so is everything that is not read as a number. */
  predicate AsTexts(st: State, a: Symbol, b: Symbol) {
    (TypeOf(a) == String && TypeOf(b) == String) || Reading(st, a).Text? || Reading(st, b).Text?
  }

  /** Two symbols that are read as signed numbers compare as these. */
  lemma SignedOrder(st: State, a: Symbol, b: Symbol, x: int, y: int)
    requires Consistent(st) && !AsTexts(st, a, b)
    requires Reading(st, a) == Signed(x) && Reading(st, b) == Signed(y)
    ensures Ordered(Induced(st), a, b, x < y, x == y)
  {
  }

  /** If one of them is unsigned, the 64-bit patterns are compared: a negative number counts as one
      above all signed ones. */
  lemma UnsignedOrder(st: State, a: Symbol, b: Symbol, x: int, y: int)
    requires Consistent(st) && !AsTexts(st, a, b)
    requires Reading(st, a) == Signed(x) || Reading(st, a) == Unsigned(x)
    requires Reading(st, b) == Signed(y) || Reading(st, b) == Unsigned(y)
    requires Reading(st, a).Unsigned? || Reading(st, b).Unsigned?
    ensures var p, q := x % 0x1_0000_0000_0000_0000, y % 0x1_0000_0000_0000_0000;
            Ordered(Induced(st), a, b, p < q, p == q)
  {
  }

  /** Texts are ordered by the first difference; a text comes before its continuations. */
  ghost predicate Before(x: string, y: string) {
    exists k: nat :: DiffersAt(x, y, k) && (k == |x| || (k < |y| && x[k] < y[k]))
  }

  ghost predicate DiffersAt(x: string, y: string, k: nat) {
    && k <= |x| && k <= |y| && (k < |x| || k < |y|) && (forall i :: 0 <= i < k ==> x[i] == y[i])
    && (k < |x| && k < |y| ==> x[k] != y[k])
  }

  lemma {:induction false} StrCmpOrder(x: string, y: string)
    ensures StrCmp(x, y) < 0 <==> Before(x, y)
    ensures StrCmp(x, y) == 0 <==> x == y
  {
    StrCmpEqual(x, y);
    assert forall k: nat :: DiffersAt(x, y, k) && k > 0 ==> SameFirst(x, y);
    if SameFirst(x, y) {
      StrCmpOrder(x[1..], y[1..]);
      BeforeRest(x, y);
    } else {
      assert x != y ==> DiffersAt(x, y, 0);
    }
  }

  predicate SameFirst(x: string, y: string) {
    x != [] && y != [] && x[0] == y[0]
  }

  lemma BeforeRest(x: string, y: string)
    requires SameFirst(x, y)
    ensures Before(x, y) <==> Before(x[1..], y[1..])
  {
    if Before(x, y) {
      var k: nat :| DiffersAt(x, y, k) && (k == |x| || (k < |y| && x[k] < y[k]));
      assert DiffersAt(x[1..], y[1..], k - 1);
    }
    if Before(x[1..], y[1..]) {
      var k: nat :| DiffersAt(x[1..], y[1..], k) && (k == |x[1..]| || (k < |y[1..]| && x[1..][k] < y[1..][k]));
      assert forall i :: 1 <= i <= k ==> x[i] == x[1..][i - 1] && y[i] == y[1..][i - 1];
      assert DiffersAt(x, y, k + 1);
    }
  }

  lemma TextOrder(st: State, a: Symbol, b: Symbol)
    requires Consistent(st) && AsTexts(st, a, b)
    ensures var x, y := OwnValue(st, a), OwnValue(st, b); Ordered(Induced(st), a, b, Before(x, y), x == y)
  {
    StrCmpOrder(OwnValue(st, a), OwnValue(st, b));
  }

  // ----- quoted numbers -----

  /** Whether a quoted constant is read as one of the numbers 0, 1, 2 that n, m, y are read as. */
  predicate ReadsAsTri(st: State, q: Literal) {
    match st.parse(Unknown, q)
    case Text => false
    case Signed(s) => 0 <= s <= 2
    case Unsigned(u) => 0 <= u % Bits.D <= 2
  }

  /** A tristate symbol compares equal to a quoted constant if and only if both are read as the same
      number, since no quoted constant has the text y, m or n. */
  lemma QuotedEqual(st: State, a: Symbol, q: Literal)
    requires Consistent(st) && TypeOf(a) == Tristate
    ensures Compare(st, a, Quoted(q)) == 0 <==>
            match st.parse(Unknown, q)
            case Text => false
            case Signed(s) => s == st.tri(a)
            case Unsigned(u) => u % Bits.D == st.tri(a)
  {
    StrCmpEqual(StringValue(st, a), q);
  }

  /** Every quoted constant that `e` tests against a tristate symbol is not read as 0, 1 or 2. */
  predicate NoQuotedNumber(st: State, e: Expr) {
    match e
    case Sym(_) => true
    case Comp(_, _, b) => IsQuotedTest(e) ==> !ReadsAsTri(st, b.lit)
    case Not(x) => NoQuotedNumber(st, x)
    case Bin(_, l, r) => NoQuotedNumber(st, l) && NoQuotedNumber(st, r)
  }

  lemma {:induction false} NoQuotedNumberMisses(st: State, e: Expr)
    requires Consistent(st) && NoQuotedNumber(st, e)
    ensures QuotesMiss(Induced(st), e)
  {
    match e
    case Comp(_, a, b) =>
      if IsQuotedTest(e) {
        QuotedEqual(st, a, b.lit);
      }
    case Not(x) => NoQuotedNumberMisses(st, x);
    case Bin(_, l, r) =>
      NoQuotedNumberMisses(st, l);
      NoQuotedNumberMisses(st, r);
    case _ =>
  }

  /** In every state the code can reach, removing duplicates keeps the value of every expression
      that tests no tristate symbol against a quoted number 0, 1 or 2. */
  lemma DupsInState(st: State, e: Expr)
    requires Consistent(st) && NoQuotedNumber(st, e)
    ensures Eval(Induced(st), EliminateDups(e)) == Eval(Induced(st), e)
  {
    InducedWellTyped(st);
    NoQuotedNumberMisses(st, e);
    EliminateDupsEval(Induced(st), e);
  }

  /** With such a number it does not: whenever a is the tristate value that q is read as, the value
      of a=q && a!=k changes, where k is the one of y, m and n that a is. */
  lemma QuotedNumberFails(st: State, a: Symbol, q: Literal)
    requires Consistent(st) && TypeOf(a) == Tristate && st.parse(Unknown, q) == Signed(st.tri(a))
    ensures var e := QuotedAndNot(Induced(st), a, Quoted(q));
            Eval(Induced(st), EliminateDups(e)) == Y && Eval(Induced(st), e) == N
  {
    InducedWellTyped(st);
    QuotedEqual(st, a, q);
    assert Induced(st).cmp(a, Quoted(q)) == 0;
    QuotedTestExact(Induced(st), a, Quoted(q));
  }

  function OwnText(s: Symbol): string {
    match s
    case SymYes => "y"
    case SymMod => "m"
    case SymNo => "n"
    case Quoted(q) => q
    case Named(_, _) => ""
  }

  /** A state with modules in which every tristate symbol is m, and decimal or hexadecimal ones are
      read as the number 1. */
  function AllModules(): State {
    State(
      s => if s == SymYes then Y else if s == SymMod || TypeOf(s) == Tristate then M else N,
      s => OwnText(s),
      true,
      (ty, str) => if str == "1" || str == "0x1" then Signed(1) else Text)
  }

  /** The state is possible, and the condition of `DupsInState` can be met there by an expression
      that tests a tristate symbol against a quoted constant. */
  lemma AllModulesPossible(a: Symbol)
    requires TypeOf(a) == Tristate
    ensures var st, foo := AllModules(), Comp(Equal, a, Quoted("foo"));
            Consistent(st) && IsQuotedTest(foo) && NoQuotedNumber(st, Bin(Conj, foo, Comp(Unequal, a, SymNo)))
  {
  }

  /** There a="1" && a!="0x1" is n, but is joined to a="1", which is y. */
  lemma AliasedConstants(a: Symbol)
    requires TypeOf(a) == Tristate
    ensures var v, one, hexOne := Induced(AllModules()), Comp(Equal, a, Quoted("1")), Comp(Unequal, a, Quoted("0x1"));
            && JoinAnd(one, hexOne) == Present(one)
            && Eval(v, one) == Y && Eval(v, Bin(Conj, one, hexOne)) == N
  {
    var st := AllModules();
    AllModulesPossible(a);
    var one, hexOne := Comp(Equal, a, Quoted("1")), Comp(Unequal, a, Quoted("0x1"));
    QuotedEqual(st, a, "1");
    QuotedEqual(st, a, "0x1");
    assert Induced(st).cmp(a, Quoted("1")) == 0 && Induced(st).cmp(a, Quoted("0x1")) == 0;
    assert Quoted("1") != Quoted("0x1") by { assert |"1"| != |"0x1"|; }
  }
}
