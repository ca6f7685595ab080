/** What the debugger's evaluator computes on written expressions: the value of the syntax tree that
    precedence and explicit parentheses give them. */
module SdbSyntax {
  import opened SdbTokens
  import opened SdbEval
  import opened SdbTree

  /** How strongly the outermost operator binds that the evaluator can find; it never finds a
      logical negation. */
  function Level(s: Syntax): nat {
    match s
    case Atom(_) => NO_PRIORITY
    case Paren(_) => NO_PRIORITY
    case Prefix(t, e) => if t.Not? then Level(e) else Priority(t)
    case Infix(t, _, _) => Priority(t)
  }

  /** The priority of the unary operators. */
  const UNARY: nat := 6

  /** Trees that need no more parentheses than they have: a left operand binds more strongly than
      its operator, a right operand at least as strongly, so operators associate to the right. */
  predicate Legal(s: Syntax) {
    match s
    case Atom(t) => IsOperand(t)
    case Paren(e) => Legal(e)
    case Prefix(t, e) => IsUnary(t) && Legal(e) && Level(e) >= UNARY
    case Infix(t, l, r) =>
      IsOperator(t) && !IsUnary(t) && Legal(l) && Legal(r) && Level(l) > Priority(t) && Level(r) >= Priority(t)
  }

  /** What the evaluator makes of a tree, where last is the value computed before: before an operand or
      a parenthesis a logical negation yields that value instead of its own, before another unary
      operator it is passed over. */
  function Actual(s: Syntax, mem: Memory, last: Word): Outcome {
    match s
    case Atom(t) => Leaf(t, last)
    case Paren(e) => Actual(e, mem, last)
    case Prefix(t, e) =>
      if !t.Not? then Apply(t, mem, Actual(e, mem, last))
      else if Level(e) == NO_PRIORITY then Val(last)
      else Actual(e, mem, last)
    case Infix(t, l, r) =>
      var a := Actual(l, mem, last);
      if a.Failed? then Failed else Combine(t, a, Actual(r, mem, a.v))
  }

  /** Without logical negation that is the value of the tree. */
  predicate NoNegation(s: Syntax) {
    match s
    case Atom(t) => IsOperand(t)
    case Paren(e) => NoNegation(e)
    case Prefix(t, e) => !t.Not? && NoNegation(e)
    case Infix(_, l, r) => NoNegation(l) && NoNegation(r)
  }

  lemma {:induction false} ActualIsValue(s: Syntax, mem: Memory, last: Word)
    requires NoNegation(s)
    ensures Actual(s, mem, last) == Value(s, mem)
    decreases s
  {
    match s
    case Atom(_) =>
    case Paren(e) => ActualIsValue(e, mem, last);
    case Prefix(_, e) => ActualIsValue(e, mem, last);
    case Infix(_, l, r) =>
      ActualIsValue(l, mem, last);
      if Value(l, mem).Val? {
        ActualIsValue(r, mem, Value(l, mem).v);
      }
  }

  lemma {:induction false} NoNegationProper(s: Syntax)
    requires NoNegation(s)
    ensures Proper(s)
  {
    match s
    case Atom(_) =>
    case Paren(e) => NoNegationProper(e);
    case Prefix(_, e) => NoNegationProper(e);
    case Infix(_, l, r) =>
      NoNegationProper(l);
      NoNegationProper(r);
  }

  function Length(s: Syntax): (n: nat)
    ensures n > 0
  {
    match s
    case Atom(_) => 1
    case Paren(e) => Length(e) + 2
    case Prefix(_, e) => Length(e) + 1
    case Infix(_, l, r) => Length(l) + 1 + Length(r)
  }

  /** The k-th token of a written expression. */
  function TokenAt(s: Syntax, k: nat): Token
    requires k < Length(s)
  {
    match s
    case Atom(t) => t
    case Paren(e) => if k == 0 then LB else if k == Length(e) + 1 then RB else TokenAt(e, k - 1)
    case Prefix(t, e) => if k == 0 then t else TokenAt(e, k - 1)
    case Infix(t, l, r) =>
      if k < Length(l) then TokenAt(l, k) else if k == Length(l) then t else TokenAt(r, k - Length(l) - 1)
  }

  function Written(s: Syntax): seq<Token> {
    seq(Length(s), k requires 0 <= k < Length(s) => TokenAt(s, k))
  }

  /** Where the outermost operator stands that the evaluator can find. */
  function Root(s: Syntax): nat {
    match s
    case Infix(_, l, _) => Length(l)
    case Prefix(t, e) => if t.Not? then 1 + Root(e) else 0
    case _ => 0
  }

  /** The tokens from position p on spell s. */
  predicate Spells(ts: seq<Token>, p: nat, s: Syntax)
    decreases s
  {
    && p + Length(s) <= |ts|
    && match s
       case Atom(t) => ts[p] == t && Delta(t) == 0
       case Paren(e) => ts[p] == LB && Spells(ts, p + 1, e) && ts[p + 1 + Length(e)] == RB
       case Prefix(t, e) => ts[p] == t && Delta(t) == 0 && Spells(ts, p + 1, e)
       case Infix(t, l, r) =>
         Spells(ts, p, l) && ts[p + Length(l)] == t && Delta(t) == 0 && Spells(ts, p + Length(l) + 1, r)
  }

  /** The tokens from p on are those of s. */
  ghost predicate Follows(ts: seq<Token>, p: nat, s: Syntax) {
    p + Length(s) <= |ts| && (forall k {:trigger TokenAt(s, k)} :: 0 <= k < Length(s) ==> ts[p + k] == TokenAt(s, k))
  }

  /** A part of s that starts at offset d. */
  ghost predicate PartOf(s: Syntax, d: nat, e: Syntax) {
    d + Length(e) <= Length(s) && (forall k {:trigger TokenAt(e, k)} :: 0 <= k < Length(e) ==> TokenAt(s, d + k) == TokenAt(e, k))
  }

  lemma PartFollows(ts: seq<Token>, p: nat, s: Syntax, d: nat, e: Syntax)
    requires Follows(ts, p, s) && PartOf(s, d, e)
    ensures Follows(ts, p + d, e)
  {
    forall k | 0 <= k < Length(e)
      ensures ts[p + d + k] == TokenAt(e, k)
    {
      assert ts[p + (d + k)] == TokenAt(s, d + k);
    }
  }

  lemma TokenFollows(ts: seq<Token>, p: nat, s: Syntax, k: nat)
    requires Follows(ts, p, s) && k < Length(s)
    ensures ts[p + k] == TokenAt(s, k)
  {
  }

  lemma ParenFollows(ts: seq<Token>, p: nat, s: Syntax)
    requires s.Paren? && Follows(ts, p, s)
    ensures ts[p] == LB && Follows(ts, p + 1, s.e) && ts[p + 1 + Length(s.e)] == RB
  {
    TokenFollows(ts, p, s, 0);
    PartFollows(ts, p, s, 1, s.e);
    TokenFollows(ts, p, s, Length(s.e) + 1);
  }

  lemma PrefixFollows(ts: seq<Token>, p: nat, s: Syntax)
    requires s.Prefix? && Follows(ts, p, s)
    ensures ts[p] == s.t && Follows(ts, p + 1, s.e)
  {
    TokenFollows(ts, p, s, 0);
    PartFollows(ts, p, s, 1, s.e);
  }

  lemma InfixFollows(ts: seq<Token>, p: nat, s: Syntax)
    requires s.Infix? && Follows(ts, p, s)
    ensures Follows(ts, p, s.l) && ts[p + Length(s.l)] == s.t && Follows(ts, p + Length(s.l) + 1, s.r)
  {
    PartFollows(ts, p, s, 0, s.l);
    TokenFollows(ts, p, s, Length(s.l));
    PartFollows(ts, p, s, Length(s.l) + 1, s.r);
  }

  /** Tokens that are written as s spell s. */
  lemma {:induction false} WrittenSpells(ts: seq<Token>, p: nat, s: Syntax)
    requires Legal(s) && Follows(ts, p, s)
    ensures Spells(ts, p, s)
    decreases Length(s), 0
  {
    match s
    case Atom(t) =>
      TokenFollows(ts, p, s, 0);
    case Paren(e) =>
      ParenFollows(ts, p, s);
      WrittenParen(ts, p, e);
    case Prefix(t, e) =>
      PrefixFollows(ts, p, s);
      WrittenPrefix(ts, p, t, e);
    case Infix(t, l, r) =>
      InfixFollows(ts, p, s);
      WrittenInfix(ts, p, t, l, r, p + Length(l));
  }

  lemma {:induction false} WrittenParen(ts: seq<Token>, p: nat, e: Syntax)
    requires Legal(e) && Follows(ts, p + 1, e) && p + Length(e) + 2 <= |ts|
    requires ts[p] == LB && ts[p + 1 + Length(e)] == RB
    ensures Spells(ts, p, Paren(e))
    decreases Length(e), 1
  {
    WrittenSpells(ts, p + 1, e);
  }

  lemma {:induction false} WrittenPrefix(ts: seq<Token>, p: nat, t: Token, e: Syntax)
    requires Legal(e) && Follows(ts, p + 1, e) && ts[p] == t && IsUnary(t)
    ensures Spells(ts, p, Prefix(t, e))
    decreases Length(e), 1
  {
    WrittenSpells(ts, p + 1, e);
  }

  lemma {:induction false} WrittenInfix(ts: seq<Token>, p: nat, t: Token, l: Syntax, r: Syntax, m: nat)
    requires Legal(l) && Legal(r) && m == p + Length(l) && Follows(ts, p, l) && Follows(ts, m + 1, r)
    requires ts[m] == t && Delta(t) == 0
    ensures Spells(ts, p, Infix(t, l, r))
    decreases Length(l) + Length(r), 1
  {
    WrittenSpells(ts, p, l);
    WrittenSpells(ts, m + 1, r);
    InfixSpells(ts, p, t, l, r, m);
  }

  lemma InfixSpells(ts: seq<Token>, p: nat, t: Token, l: Syntax, r: Syntax, m: nat)
    requires m == p + Length(l) && m + 1 + Length(r) <= |ts| && ts[m] == t && Delta(t) == 0
    requires Spells(ts, p, l) && Spells(ts, m + 1, r)
    ensures Spells(ts, p, Infix(t, l, r))
  {
  }

  /** From p to q the depth, counted from a, never falls below its value at p, and returns to it. */
  ghost predicate Even(ts: seq<Token>, a: nat, p: nat, q: nat) {
    && p <= q <= |ts| && Depth(ts, a, q) == Depth(ts, a, p)
    && (forall k :: p <= k <= q ==> Depth(ts, a, k) >= Depth(ts, a, p))
  }

  lemma BalancedJoin(ts: seq<Token>, a: nat, p: nat, m: nat, q: nat)
    requires a <= p && Even(ts, a, p, m) && m < |ts| && Delta(ts[m]) == 0 && Even(ts, a, m + 1, q)
    ensures Even(ts, a, p, q)
  {
    assert Depth(ts, a, m + 1) == Depth(ts, a, m);
  }

  lemma BalancedWrap(ts: seq<Token>, a: nat, p: nat, q: nat)
    requires a <= p < |ts| && ts[p] == LB && Even(ts, a, p + 1, q) && q < |ts| && ts[q] == RB
    ensures Even(ts, a, p, q + 1)
  {
    assert Depth(ts, a, p + 1) == Depth(ts, a, p) + 1;
    assert Depth(ts, a, q + 1) == Depth(ts, a, q) - 1;
  }

  /** Parentheses inside a spelled expression are balanced. */
  lemma {:induction false} SpelledBalanced(ts: seq<Token>, a: nat, p: nat, s: Syntax)
    requires Spells(ts, p, s) && a <= p
    ensures Even(ts, a, p, p + Length(s))
    decreases Length(s), 0
  {
    match s
    case Atom(_) => AtomBalanced(ts, a, p);
    case Paren(e) =>
      SpelledBalanced(ts, a, p + 1, e);
      BalancedWrap(ts, a, p, p + 1 + Length(e));
    case Prefix(_, e) =>
      SpelledBalanced(ts, a, p + 1, e);
      BalancedFront(ts, a, p, p + 1 + Length(e));
    case Infix(_, l, r) => InfixBalanced(ts, a, p, l, r);
  }

  lemma AtomBalanced(ts: seq<Token>, a: nat, p: nat)
    requires a <= p < |ts| && Delta(ts[p]) == 0
    ensures Even(ts, a, p, p + 1)
  {
    assert Depth(ts, a, p + 1) == Depth(ts, a, p);
  }

  lemma BalancedFront(ts: seq<Token>, a: nat, p: nat, q: nat)
    requires a <= p < |ts| && Delta(ts[p]) == 0 && Even(ts, a, p + 1, q)
    ensures Even(ts, a, p, q)
  {
    assert Depth(ts, a, p + 1) == Depth(ts, a, p);
  }

  lemma {:induction false} InfixBalanced(ts: seq<Token>, a: nat, p: nat, l: Syntax, r: Syntax)
    requires a <= p && p + Length(l) + 1 + Length(r) <= |ts| && Delta(ts[p + Length(l)]) == 0
    requires Spells(ts, p, l) && Spells(ts, p + Length(l) + 1, r)
    ensures Even(ts, a, p, p + Length(l) + 1 + Length(r))
    decreases Length(l) + Length(r), 1
  {
    var m := p + Length(l);
    SpelledBalanced(ts, a, p, l);
    SpelledBalanced(ts, a, m + 1, r);
    BalancedJoin(ts, a, p, m, m + 1 + Length(r));
  }

  lemma ParenIsMatch(ts: seq<Token>, p: nat, e: Syntax)
    requires Spells(ts, p, Paren(e))
    ensures IsMatch(ts, p, p + 1 + Length(e))
  {
    SpelledBalanced(ts, p, p + 1, e);
    EvenIsMatch(ts, p, p + 1 + Length(e));
  }

  lemma EvenIsMatch(ts: seq<Token>, p: nat, q: nat)
    requires p < q < |ts| && ts[p] == LB && ts[q] == RB && Even(ts, p, p + 1, q)
    ensures IsMatch(ts, p, q)
  {
    assert Depth(ts, p, p) == 0 && Depth(ts, p, p + 1) == 1;
    assert Depth(ts, p, q + 1) == Depth(ts, p, q) - 1;
  }

  /** The tokens from p on spell the legal tree s, and the table leads from every parenthesis in it
      to the one that closes it. */
  predicate Reads(ts: seq<Token>, pairs: seq<nat>, p: nat, s: Syntax)
    decreases s
  {
    && p + Length(s) <= |ts| == |pairs|
    && match s
       case Atom(t) => ts[p] == t && IsOperand(t)
       case Paren(e) =>
         ts[p] == LB && ts[p + 1 + Length(e)] == RB && pairs[p] == p + 1 + Length(e) && Reads(ts, pairs, p + 1, e)
       case Prefix(t, e) =>
         ts[p] == t && IsUnary(t) && Level(e) >= UNARY && Reads(ts, pairs, p + 1, e)
       case Infix(t, l, r) =>
         && ts[p + Length(l)] == t && IsOperator(t) && !IsUnary(t)
         && Level(l) > Priority(t) && Level(r) >= Priority(t)
         && Reads(ts, pairs, p, l) && Reads(ts, pairs, p + Length(l) + 1, r)
  }

  /** The table names the match of every parenthesis that has one. */
  ghost predicate NamesMatches(ts: seq<Token>, pairs: seq<nat>) {
    |pairs| == |ts| && (forall i: nat, j: nat :: IsMatch(ts, i, j) ==> pairs[i] == j)
  }

  lemma PairedNames(ts: seq<Token>, pairs: seq<nat>)
    requires Paired(ts, pairs)
    ensures NamesMatches(ts, pairs)
  {
    forall i: nat, j: nat | IsMatch(ts, i, j)
      ensures pairs[i] == j
    {
      MatchUnique(ts, i, j, pairs[i]);
    }
  }

  lemma ParenNamed(ts: seq<Token>, pairs: seq<nat>, p: nat, e: Syntax)
    requires NamesMatches(ts, pairs) && Spells(ts, p, Paren(e))
    ensures pairs[p] == p + 1 + Length(e)
  {
    ParenIsMatch(ts, p, e);
  }

  lemma {:induction false} PairedReads(ts: seq<Token>, pairs: seq<nat>, p: nat, s: Syntax)
    requires NamesMatches(ts, pairs) && Legal(s) && Spells(ts, p, s)
    ensures Reads(ts, pairs, p, s)
    decreases s
  {
    match s
    case Atom(_) =>
    case Paren(e) =>
      PairedReads(ts, pairs, p + 1, e);
      ParenNamed(ts, pairs, p, e);
    case Prefix(_, e) =>
      PairedReads(ts, pairs, p + 1, e);
    case Infix(_, l, r) =>
      PairedReads(ts, pairs, p, l);
      PairedReads(ts, pairs, p + Length(l) + 1, r);
  }

  /** A parenthesis that opens a spelled expression closes within it. */
  lemma {:induction false} OpeningClosesWithin(ts: seq<Token>, pairs: seq<nat>, p: nat, s: Syntax)
    requires Reads(ts, pairs, p, s) && ts[p] == LB
    ensures pairs[p] < p + Length(s)
    decreases s
  {
    if s.Infix? {
      OpeningClosesWithin(ts, pairs, p, s.l);
    }
  }

  /** An operand token or a parenthesised range. */
  lemma ScanAtom(ts: seq<Token>, pairs: seq<nat>, p: nat, q: nat, s: Syntax, best: int, priority: nat)
    requires |pairs| == |ts| && q < |ts| && Reads(ts, pairs, p, s) && p + Length(s) <= q + 1 && (s.Atom? || s.Paren?)
    ensures MainFrom(ts, pairs, p, q, best, priority) == MainFrom(ts, pairs, p + Length(s), q, best, priority)
  {
  }

  /** Scanning over a spelled expression that binds at least as strongly as the best operator so far
      changes nothing. */
  lemma {:induction false} ScanKeeps(ts: seq<Token>, pairs: seq<nat>, p: nat, q: nat, s: Syntax, best: int, priority: nat)
    requires |pairs| == |ts| && q < |ts| && Reads(ts, pairs, p, s) && p + Length(s) <= q + 1
    requires priority <= Level(s) && priority <= NO_PRIORITY
    ensures MainFrom(ts, pairs, p, q, best, priority) == MainFrom(ts, pairs, p + Length(s), q, best, priority)
    decreases s, 1
  {
    match s
    case Prefix(_, e) =>
      ScanKeepsPrefix(ts, pairs, p, q, e, best, priority);
    case Infix(_, _, _) =>
      ScanKeepsInfix(ts, pairs, p, q, s, best, priority);
    case _ =>
      ScanAtom(ts, pairs, p, q, s, best, priority);
  }

  lemma {:induction false} ScanKeepsPrefix(ts: seq<Token>, pairs: seq<nat>, p: nat, q: nat, e: Syntax, best: int, priority: nat)
    requires |pairs| == |ts| && q < |ts| && Reads(ts, pairs, p + 1, e) && p + 1 + Length(e) <= q + 1
    requires IsUnary(ts[p]) && priority <= Priority(ts[p]) && priority <= Level(e) && priority <= NO_PRIORITY
    ensures MainFrom(ts, pairs, p, q, best, priority) == MainFrom(ts, pairs, p + 1 + Length(e), q, best, priority)
    decreases e, 2
  {
    ScanNoBetter(ts, pairs, p, q, best, priority);
    ScanKeeps(ts, pairs, p + 1, q, e, best, priority);
  }

  lemma {:induction false} ScanKeepsInfix(ts: seq<Token>, pairs: seq<nat>, p: nat, q: nat, s: Syntax, best: int, priority: nat)
    requires |pairs| == |ts| && q < |ts| && Reads(ts, pairs, p, s) && p + Length(s) <= q + 1
    requires s.Infix? && priority <= Level(s) && priority <= NO_PRIORITY
    ensures MainFrom(ts, pairs, p, q, best, priority) == MainFrom(ts, pairs, p + Length(s), q, best, priority)
    decreases s, 0
  {
    var m := p + Length(s.l);
    ScanKeeps(ts, pairs, p, q, s.l, best, priority);
    ScanNoBetter(ts, pairs, m, q, best, priority);
    ScanKeeps(ts, pairs, m + 1, q, s.r, best, priority);
  }

  /** Scanning over one that binds more weakly takes its outermost operator. */
  lemma {:induction false} ScanTakes(ts: seq<Token>, pairs: seq<nat>, p: nat, q: nat, s: Syntax, best: int, priority: nat)
    requires |pairs| == |ts| && q < |ts| && Reads(ts, pairs, p, s) && p + Length(s) <= q + 1
    requires Level(s) < priority <= NO_PRIORITY
    ensures MainFrom(ts, pairs, p, q, best, priority) == MainFrom(ts, pairs, p + Length(s), q, p + Root(s), Level(s))
    decreases s, 2
  {
    match s
    case Prefix(t, e) =>
      if t.Not? {
        ScanTakesBelow(ts, pairs, p, q, e, best, priority);
      } else {
        ScanBetter(ts, pairs, p, q, best, priority);
        ScanKeeps(ts, pairs, p + 1, q, e, p, UNARY);
      }
    case Infix(_, _, _) =>
      ScanTakesInfix(ts, pairs, p, q, s, best, priority);
  }

  lemma {:induction false} ScanTakesInfix(ts: seq<Token>, pairs: seq<nat>, p: nat, q: nat, s: Syntax, best: int, priority: nat)
    requires |pairs| == |ts| && q < |ts| && Reads(ts, pairs, p, s) && p + Length(s) <= q + 1
    requires s.Infix? && Level(s) < priority <= NO_PRIORITY
    ensures MainFrom(ts, pairs, p, q, best, priority) == MainFrom(ts, pairs, p + Length(s), q, p + Root(s), Level(s))
    decreases s, 1
  {
    ScanLeft(ts, pairs, p, q, s, best, priority);
    ScanRight(ts, pairs, p, p + Length(s.l), q, s.t, s.r, best, priority);
  }

  lemma {:induction false} ScanTakesBelow(ts: seq<Token>, pairs: seq<nat>, p: nat, q: nat, e: Syntax, best: int, priority: nat)
    requires |pairs| == |ts| && q < |ts| && Reads(ts, pairs, p + 1, e) && p + 1 + Length(e) <= q + 1
    requires ts[p] == Not && Level(e) < priority <= NO_PRIORITY
    ensures MainFrom(ts, pairs, p, q, best, priority) == MainFrom(ts, pairs, p + 1 + Length(e), q, p + 1 + Root(e), Level(e))
    decreases e, 3
  {
    ScanNoBetter(ts, pairs, p, q, best, priority);
    ScanTakes(ts, pairs, p + 1, q, e, best, priority);
  }

  /** From the operator at m on over a right operand, which binds at least as strongly. */
  lemma ScanRight(ts: seq<Token>, pairs: seq<nat>, p: nat, m: nat, q: nat, t: Token, r: Syntax, best: int, priority: nat)
    requires |pairs| == |ts| && m + Length(r) <= q < |ts| && Reads(ts, pairs, m + 1, r)
    requires IsOperator(t) && Priority(t) <= Level(r) && Priority(t) <= NO_PRIORITY
    requires MainFrom(ts, pairs, p, q, best, priority) == MainFrom(ts, pairs, m + 1, q, m, Priority(t))
    ensures MainFrom(ts, pairs, p, q, best, priority) == MainFrom(ts, pairs, m + 1 + Length(r), q, m, Priority(t))
  {
    ScanKeeps(ts, pairs, m + 1, q, r, m, Priority(t));
  }

  /** Up to and including the operator behind a left operand, which binds more strongly. */
  lemma {:induction false} ScanLeft(ts: seq<Token>, pairs: seq<nat>, p: nat, q: nat, s: Syntax, best: int, priority: nat)
    requires |pairs| == |ts| && q < |ts| && Reads(ts, pairs, p, s) && p + Length(s) <= q + 1
    requires s.Infix? && Level(s) < priority <= NO_PRIORITY
    ensures var m := p + Length(s.l); MainFrom(ts, pairs, p, q, best, priority) == MainFrom(ts, pairs, m + 1, q, m, Priority(s.t))
    decreases s, 0
  {
    var m := p + Length(s.l);
    if Level(s.l) < priority {
      ScanTakes(ts, pairs, p, q, s.l, best, priority);
      ScanBetter(ts, pairs, m, q, p + Root(s.l), Level(s.l));
    } else {
      ScanKeeps(ts, pairs, p, q, s.l, best, priority);
      ScanBetter(ts, pairs, m, q, best, priority);
    }
  }

  /** An operator that binds more weakly than the best one so far. */
  lemma ScanBetter(ts: seq<Token>, pairs: seq<nat>, i: nat, q: nat, best: int, priority: nat)
    requires |pairs| == |ts| && i <= q < |ts| && IsOperator(ts[i]) && Priority(ts[i]) < priority
    ensures MainFrom(ts, pairs, i, q, best, priority) == MainFrom(ts, pairs, i + 1, q, i, Priority(ts[i]))
  {
  }

  /** One that does not. */
  lemma ScanNoBetter(ts: seq<Token>, pairs: seq<nat>, i: nat, q: nat, best: int, priority: nat)
    requires |pairs| == |ts| && i <= q < |ts| && IsOperator(ts[i]) && priority <= Priority(ts[i])
    ensures MainFrom(ts, pairs, i, q, best, priority) == MainFrom(ts, pairs, i + 1, q, best, priority)
  {
  }

  /** The operator split at is the root of the tree. */
  lemma MainSpelled(ts: seq<Token>, pairs: seq<nat>, p: nat, s: Syntax)
    requires |pairs| == |ts| && Reads(ts, pairs, p, s) && !s.Paren?
    ensures !Enclosed(ts, pairs, p, p + Length(s) - 1)
    ensures MainOperator(ts, pairs, p, p + Length(s) - 1) == if Level(s) == NO_PRIORITY then -1 else p + Root(s)
  {
    var q := p + Length(s) - 1;
    RootFound(ts, pairs, p, q, s);
    if s.Infix? && ts[p] == LB {
      OpeningClosesWithin(ts, pairs, p, s.l);
    }
  }

  lemma RootFound(ts: seq<Token>, pairs: seq<nat>, p: nat, q: nat, s: Syntax)
    requires |pairs| == |ts| && Reads(ts, pairs, p, s) && q == p + Length(s) - 1
    ensures MainOperator(ts, pairs, p, q) == if Level(s) == NO_PRIORITY then -1 else p + Root(s)
  {
    LevelBound(s);
    if Level(s) == NO_PRIORITY {
      RootMissing(ts, pairs, p, q, s);
    } else {
      RootTaken(ts, pairs, p, q, s, Level(s), p + Root(s));
    }
  }

  lemma RootMissing(ts: seq<Token>, pairs: seq<nat>, p: nat, q: nat, s: Syntax)
    requires |pairs| == |ts| && Reads(ts, pairs, p, s) && q == p + Length(s) - 1 && Level(s) == NO_PRIORITY
    ensures MainOperator(ts, pairs, p, q) == -1
  {
    ScanKeeps(ts, pairs, p, q, s, -1, NO_PRIORITY);
    ScanEnd(ts, pairs, q + 1, q, -1, NO_PRIORITY);
  }

  lemma RootTaken(ts: seq<Token>, pairs: seq<nat>, p: nat, q: nat, s: Syntax, level: nat, root: nat)
    requires |pairs| == |ts| && Reads(ts, pairs, p, s) && q == p + Length(s) - 1
    requires level == Level(s) < NO_PRIORITY && root == p + Root(s)
    ensures MainOperator(ts, pairs, p, q) == root
  {
    ScanTakes(ts, pairs, p, q, s, -1, NO_PRIORITY);
    ScanEnd(ts, pairs, q + 1, q, root, level);
  }

  lemma ScanEnd(ts: seq<Token>, pairs: seq<nat>, i: nat, q: nat, best: int, priority: nat)
    requires |pairs| == |ts| && q < |ts| && i > q
    ensures MainFrom(ts, pairs, i, q, best, priority) == best
  {
  }

  /** The range is split at op. */
  ghost predicate SplitAt(ts: seq<Token>, pairs: seq<nat>, p: nat, q: nat, op: nat)
    requires |pairs| == |ts| && q < |ts|
  {
    p <= op <= q && !Enclosed(ts, pairs, p, q) && MainOperator(ts, pairs, p, q) == op
  }

  lemma StepUnary(ts: seq<Token>, pairs: seq<nat>, mem: Memory, p: nat, q: nat, op: nat, last: Word)
    requires |pairs| == |ts| && q < |ts| && SplitAt(ts, pairs, p, q, op) && IsUnary(ts[op])
    ensures RecEval(ts, pairs, mem, p, q, last) == Apply(ts[op], mem, RecEval(ts, pairs, mem, op + 1, q, last))
  {
  }

  lemma StepBinary(ts: seq<Token>, pairs: seq<nat>, mem: Memory, p: nat, q: nat, op: nat, last: Word, l: Outcome, r: Outcome)
    requires |pairs| == |ts| && q < |ts| && SplitAt(ts, pairs, p, q, op) && !IsUnary(ts[op])
    requires RecEval(ts, pairs, mem, p, op - 1, last) == l
    requires l.Val? ==> RecEval(ts, pairs, mem, op + 1, q, l.v) == r
    ensures RecEval(ts, pairs, mem, p, q, last) == Combine(ts[op], l, r)
  {
  }

  lemma SplitSpelled(ts: seq<Token>, pairs: seq<nat>, p: nat, q: nat, s: Syntax)
    requires |pairs| == |ts| && Reads(ts, pairs, p, s) && q == p + Length(s) - 1 && Level(s) != NO_PRIORITY
    ensures SplitAt(ts, pairs, p, q, p + Root(s))
  {
    RootWithin(s);
    MainSpelled(ts, pairs, p, s);
  }

  lemma {:induction false} RootWithin(s: Syntax)
    ensures Root(s) < Length(s)
  {
    if s.Prefix? {
      RootWithin(s.e);
    }
  }

  /** The operator found below logical negations is a unary one. */
  lemma {:induction false} RootIsUnary(ts: seq<Token>, pairs: seq<nat>, p: nat, s: Syntax)
    requires Reads(ts, pairs, p, s) && UNARY <= Level(s) < NO_PRIORITY
    ensures Root(s) < Length(s) && IsUnary(ts[p + Root(s)]) && !s.Paren?
    decreases s
  {
    if s.Prefix? && s.t.Not? {
      RootIsUnary(ts, pairs, p + 1, s.e);
    }
  }

  /** A logical negation with nothing to split at. */
  lemma StepNegation(ts: seq<Token>, pairs: seq<nat>, mem: Memory, p: nat, q: nat, last: Word)
    requires |pairs| == |ts| && p <= q < |ts| && ts[p] == Not && MainOperator(ts, pairs, p, q) == -1
    ensures RecEval(ts, pairs, mem, p, q, last) == Val(last)
  {
  }

  lemma {:induction false} LevelBound(s: Syntax)
    ensures Level(s) <= NO_PRIORITY
  {
    if s.Prefix? {
      LevelBound(s.e);
    }
  }

  /** What the evaluator returns on every legally written expression, after whatever was computed
      before; without logical negation it is the value of the tree. */
  lemma {:induction false} EvalSpelled(ts: seq<Token>, pairs: seq<nat>, mem: Memory, p: nat, q: nat, s: Syntax, last: Word)
    requires |pairs| == |ts| && Reads(ts, pairs, p, s) && q == p + Length(s) - 1
    ensures RecEval(ts, pairs, mem, p, q, last) == Actual(s, mem, last)
    decreases s, 1
  {
    match s
    case Atom(_) =>
      MainSpelled(ts, pairs, p, s);
    case Paren(e) =>
      EvalSpelled(ts, pairs, mem, p + 1, q - 1, e, last);
    case Prefix(t, _) =>
      if t.Not? {
        EvalSpelledNegation(ts, pairs, mem, p, q, s, last);
      } else {
        EvalSpelledPrefix(ts, pairs, mem, p, q, s, last);
      }
    case Infix(_, _, _) =>
      EvalSpelledInfix(ts, pairs, mem, p, q, s, last);
  }

  lemma {:induction false} EvalSpelledPrefix(ts: seq<Token>, pairs: seq<nat>, mem: Memory, p: nat, q: nat, s: Syntax, last: Word)
    requires |pairs| == |ts| && Reads(ts, pairs, p, s) && s.Prefix? && !s.t.Not? && q == p + Length(s) - 1
    ensures RecEval(ts, pairs, mem, p, q, last) == Actual(s, mem, last)
    decreases s, 0
  {
    assert Root(s) == 0 && ts[p] == s.t;
    SplitSpelled(ts, pairs, p, q, s);
    StepUnary(ts, pairs, mem, p, q, p, last);
    EvalSpelled(ts, pairs, mem, p + 1, q, s.e, last);
  }

  /** The operator of the operand is found in its place, and what precedes it is ignored. */
  lemma {:induction false} EvalSpelledNegation(ts: seq<Token>, pairs: seq<nat>, mem: Memory, p: nat, q: nat, s: Syntax, last: Word)
    requires |pairs| == |ts| && Reads(ts, pairs, p, s) && s.Prefix? && s.t.Not? && q == p + Length(s) - 1
    ensures RecEval(ts, pairs, mem, p, q, last) == Actual(s, mem, last)
    decreases s, 0
  {
    if Level(s.e) == NO_PRIORITY {
      MainSpelled(ts, pairs, p, s);
      StepNegation(ts, pairs, mem, p, q, last);
    } else {
      var op := p + 1 + Root(s.e);
      LevelBound(s.e);
      RootIsUnary(ts, pairs, p + 1, s.e);
      SplitSpelled(ts, pairs, p, q, s);
      StepUnary(ts, pairs, mem, p, q, op, last);
      SplitSpelled(ts, pairs, p + 1, q, s.e);
      StepUnary(ts, pairs, mem, p + 1, q, op, last);
      EvalSpelled(ts, pairs, mem, p + 1, q, s.e, last);
    }
  }

  lemma {:induction false} EvalSpelledInfix(ts: seq<Token>, pairs: seq<nat>, mem: Memory, p: nat, q: nat, s: Syntax, last: Word)
    requires |pairs| == |ts| && Reads(ts, pairs, p, s) && s.Infix? && q == p + Length(s) - 1
    ensures RecEval(ts, pairs, mem, p, q, last) == Actual(s, mem, last)
    decreases s, 0
  {
    var m, l := p + Length(s.l), Actual(s.l, mem, last);
    SplitSpelled(ts, pairs, p, q, s);
    EvalSpelled(ts, pairs, mem, p, m - 1, s.l, last);
    EvalRight(ts, pairs, mem, m + 1, q, s.r, l);
    StepBinary(ts, pairs, mem, p, q, m, last, l, if l.Val? then Actual(s.r, mem, l.v) else Failed);
  }

  lemma {:induction false} EvalRight(ts: seq<Token>, pairs: seq<nat>, mem: Memory, p: nat, q: nat, s: Syntax, last: Outcome)
    requires |pairs| == |ts| && Reads(ts, pairs, p, s) && q == p + Length(s) - 1
    ensures last.Val? ==> RecEval(ts, pairs, mem, p, q, last.v) == Actual(s, mem, last.v)
    decreases s, 2
  {
    if last.Val? {
      EvalSpelled(ts, pairs, mem, p, q, s, last.v);
    }
  }

  lemma WrittenReads(ts: seq<Token>, pairs: seq<nat>, s: Syntax)
    requires Legal(s) && ts == Written(s) && NamesMatches(ts, pairs)
    ensures Reads(ts, pairs, 0, s)
  {
    WrittenSpells(ts, 0, s);
    PairedReads(ts, pairs, 0, s);
  }

  /** Spelling is balanced, so parenthesis matching accepts it. */
  lemma WrittenBalanced(s: Syntax)
    requires Legal(s)
    ensures Balanced(Written(s))
  {
    var ts := Written(s);
    WrittenSpells(ts, 0, s);
    SpelledBalanced(ts, 0, 0, s);
  }

  /** Parsing and evaluating a token sequence from the start. */
  method Expr(ts: seq<Token>, mem: Memory) returns (o: Outcome, success: bool)
    ensures success <==> Balanced(ts)
    ensures !success ==> o == Val(0)
    ensures forall s :: Legal(s) && ts == Written(s) ==> success && o == Actual(s, mem, 0)
    ensures forall s :: Legal(s) && ts == Written(s) && NoNegation(s) ==> o == Value(s, mem) == AsWord(Meaning(s, mem))
  {
    var pairs;
    success, pairs := MatchParens(ts);
    if !success {
      o := Val(0);
    } else {
      PairedJumps(ts, pairs);
      PairedNames(ts, pairs);
      var frames := new Frame[|ts| + 1](_ => Frame(0, 0, Start, 0, -1));
      o := Eval(ts, pairs, mem, 0, |ts| - 1, frames);
    }
    forall s | Legal(s) && ts == Written(s)
      ensures success && o == Actual(s, mem, 0) && (NoNegation(s) ==> o == Value(s, mem) == AsWord(Meaning(s, mem)))
    {
      WrittenBalanced(s);
      WrittenReads(ts, pairs, s);
      EvalSpelled(ts, pairs, mem, 0, |ts| - 1, s, 0);
      if NoNegation(s) {
        ActualIsValue(s, mem, 0);
        NoNegationProper(s);
        ValueIsMeaning(s, mem);
      }
    }
  }

  // ----- every tree can be written -----

  /** Expression trees without written parentheses. */
  predicate Plain(s: Syntax) {
    match s
    case Atom(t) => IsOperand(t)
    case Paren(_) => false
    case Prefix(t, e) => IsUnary(t) && !t.Not? && Plain(e)
    case Infix(t, l, r) => IsOperator(t) && !IsUnary(t) && Plain(l) && Plain(r)
  }

  /** Puts every compound expression in parentheses. */
  function Parenthesised(s: Syntax): Syntax {
    match s
    case Atom(_) => s
    case Paren(e) => Parenthesised(e)
    case Prefix(t, e) => Paren(Prefix(t, Parenthesised(e)))
    case Infix(t, l, r) => Paren(Infix(t, Parenthesised(l), Parenthesised(r)))
  }

  lemma {:induction false} ParenthesisedLegal(s: Syntax, mem: Memory)
    requires Plain(s)
    ensures Legal(Parenthesised(s)) && NoNegation(Parenthesised(s)) && Level(Parenthesised(s)) == NO_PRIORITY
    ensures Value(Parenthesised(s), mem) == Value(s, mem)
    decreases s
  {
    match s
    case Atom(_) =>
    case Prefix(_, e) => ParenthesisedLegal(e, mem);
    case Infix(_, l, r) =>
      ParenthesisedLegal(l, mem);
      ParenthesisedLegal(r, mem);
  }

  // ----- grouping -----

  predicate IsBinary(t: Token) {
    || t.Or? || t.And? || t.Eq? || t.NotEq? || t.Lt? || t.Le? || t.Gt? || t.Ge?
    || t.Plus? || t.Minus? || t.Times? || t.Divide?
  }

  /** The subclause of section 6.5 of ISO C (ISO/IEC 9899:2018) that defines the operator; the later it
      stands, the weaker the operator binds. */
  function Subclause(t: Token): nat
    requires IsBinary(t)
  {
    match t
    case Times => 5
    case Divide => 5
    case Plus => 6
    case Minus => 6
    case Lt => 8
    case Gt => 8
    case Le => 8
    case Ge => 8
    case Eq => 9
    case NotEq => 9
    case And => 13
    case Or => 14
  }

  lemma WrittenParts(t: Token, l: Syntax, r: Syntax)
    ensures Written(Infix(t, l, r)) == Written(l) + [t] + Written(r)
    ensures Written(Prefix(t, r)) == [t] + Written(r)
  {
    assert Length(Infix(t, l, r)) == Length(l) + 1 + Length(r) && Length(Prefix(t, r)) == Length(r) + 1;
  }

  /** x t y u z without parentheses is read as x t (y u z) if and only if u does not bind more weakly
      than t does in C, and as (x t y) u z otherwise. */
  lemma TwoOperators(t: Token, u: Token, x: Token, y: Token, z: Token)
    requires IsBinary(t) && IsBinary(u) && IsOperand(x) && IsOperand(y) && IsOperand(z)
    ensures var right, left := Infix(t, Atom(x), Infix(u, Atom(y), Atom(z))), Infix(u, Infix(t, Atom(x), Atom(y)), Atom(z));
            && Written(right) == Written(left) == [x, t, y, u, z]
            && (Legal(right) <==> Subclause(u) <= Subclause(t))
            && (Legal(left) <==> Subclause(t) < Subclause(u))
  {
    var a, b, c := Atom(x), Atom(y), Atom(z);
    assert Written(a) == [x] && Written(b) == [y] && Written(c) == [z];
    WrittenParts(t, a, b);
    WrittenParts(u, b, c);
    WrittenParts(t, a, Infix(u, b, c));
    WrittenParts(u, Infix(t, a, b), c);
    assert Legal(a) && Legal(b) && Legal(c);
    assert Legal(Infix(t, a, b)) && Legal(Infix(u, b, c));
    PriorityIsSubclause(t, u);
  }

  lemma PriorityIsSubclause(t: Token, u: Token)
    requires IsBinary(t) && IsBinary(u)
    ensures Priority(t) < Priority(u) <==> Subclause(u) < Subclause(t)
  {
  }

  /** A unary minus or dereference binds more strongly than all of them. */
  lemma UnaryFirst(n: Token, t: Token, x: Token, y: Token)
    requires n.Negative? || n.Deref?
    requires IsBinary(t) && IsOperand(x) && IsOperand(y)
    ensures var first, last := Infix(t, Prefix(n, Atom(x)), Atom(y)), Prefix(n, Infix(t, Atom(x), Atom(y)));
            && Written(first) == Written(last) == [n, x, t, y]
            && Legal(first) && !Legal(last)
  {
    var a, b := Atom(x), Atom(y);
    assert Written(a) == [x] && Written(b) == [y];
    WrittenParts(n, a, a);
    WrittenParts(t, a, b);
    WrittenParts(t, Prefix(n, a), b);
    WrittenParts(n, a, Infix(t, a, b));
    assert Legal(a) && Legal(b) && Legal(Prefix(n, a));
  }

  // ----- missing operands -----

  /** Empty parentheses fail, and so does a binary operator with nothing to its left. */
  lemma NothingFails(ts: seq<Token>, pairs: seq<nat>, mem: Memory, p: nat, q: nat, last: Word)
    requires |pairs| == |ts| && p <= q < |ts|
    ensures q == p + 1 && ts[p] == LB && ts[q] == RB && pairs[p] == q ==> RecEval(ts, pairs, mem, p, q, last) == Failed
    ensures SplitAt(ts, pairs, p, q, p) && IsBinary(ts[p]) ==> RecEval(ts, pairs, mem, p, q, last) == Failed
  {
    if SplitAt(ts, pairs, p, q, p) && IsBinary(ts[p]) {
      StepBinary(ts, pairs, mem, p, q, p, last, Failed, Failed);
    }
  }

  /** A binary operator with nothing to its right fails. */
  lemma NothingRight(ts: seq<Token>, pairs: seq<nat>, mem: Memory, p: nat, q: nat, last: Word)
    requires |pairs| == |ts| && p <= q < |ts|
    requires SplitAt(ts, pairs, p, q, q)
    ensures RecEval(ts, pairs, mem, p, q, last) == Failed
  {
    if IsUnary(ts[q]) {
      StepUnary(ts, pairs, mem, p, q, q, last);
    } else {
      StepBinary(ts, pairs, mem, p, q, q, last, RecEval(ts, pairs, mem, p, q - 1, last), Failed);
    }
  }

  // ----- where the evaluator departs from the usual reading -----

  /** a - b - c is read as a - (b - c), for all operands that bind more strongly than '-'; that agrees
      with (a - b) - c exactly when 2c is 0 modulo the word size, or an operand has no value. */
  lemma SubtractionAssociatesRight(ts: seq<Token>, pairs: seq<nat>, mem: Memory, p: nat, last: Word, a: Syntax, b: Syntax, c: Syntax)
    requires |pairs| == |ts| && NoNegation(a) && NoNegation(b) && NoNegation(c)
    requires Reads(ts, pairs, p, Infix(Minus, a, Infix(Minus, b, c)))
    ensures var s := Infix(Minus, a, Infix(Minus, b, c));
            var o := RecEval(ts, pairs, mem, p, p + Length(s) - 1, last);
            var left := Value(Infix(Minus, Infix(Minus, a, b), c), mem);
            && o == Value(s, mem)
            && (o == left <==> o.Failed? || Value(c, mem) == Val(0) || Value(c, mem) == Val(WORD / 2))
  {
    var s := Infix(Minus, a, Infix(Minus, b, c));
    EvalSpelled(ts, pairs, mem, p, p + Length(s) - 1, s, last);
    ActualIsValue(s, mem, last);
    ThreeValues(mem, a, b, c);
  }

  lemma ThreeValues(mem: Memory, a: Syntax, b: Syntax, c: Syntax)
    ensures var right := Value(Infix(Minus, a, Infix(Minus, b, c)), mem);
            var left := Value(Infix(Minus, Infix(Minus, a, b), c), mem);
            right == left <==> right.Failed? || Value(c, mem) == Val(0) || Value(c, mem) == Val(WORD / 2)
  {
    ThreeOutcomes(Value(a, mem), Value(b, mem), Value(c, mem));
  }

  lemma ThreeOutcomes(x: Outcome, y: Outcome, z: Outcome)
    ensures var right, left := Combine(Minus, x, Combine(Minus, y, z)), Combine(Minus, Combine(Minus, x, y), z);
            right == left <==> right.Failed? || z == Val(0) || z == Val(WORD / 2)
  {
    if x.Val? && y.Val? && z.Val? {
      WrapTwice(x.v, y.v, z.v);
    }
  }

  lemma WrapTwice(a: Word, b: Word, c: Word)
    ensures Wrap(a - Wrap(b - c)) == Wrap(Wrap(a - b) - c) <==> c == 0 || c == WORD / 2
  {
    WrapMinus(a, b - c);
    WrapLeft(a - b, c);
    WrapSum(a - b, c);
  }

  lemma WrapSum(x: int, c: Word)
    ensures Wrap(x + c) == Wrap(x - c) <==> c == 0 || c == WORD / 2
  {
    WrapEqual(x + c, x - c);
  }

  lemma WrapLeft(x: int, c: Word)
    ensures Wrap(Wrap(x) - c) == Wrap(x - c)
  {
    WrapEqual(Wrap(x) - c, x - c);
    assert (Wrap(x) - c) - (x - c) == 0 - WORD * (x / WORD);
  }

  lemma WrapMinus(a: Word, x: int)
    ensures Wrap(a - Wrap(x)) == Wrap(a - x)
  {
    WrapEqual(a - Wrap(x), a - x);
    assert (a - Wrap(x)) - (a - x) == WORD * (x / WORD);
  }

  lemma WrapEqual(x: int, y: int)
    ensures Wrap(x) == Wrap(y) <==> (x - y) % WORD == 0
  {
    var d := x / WORD - y / WORD;
    assert x - y == WORD * d + (x % WORD - y % WORD);
  }

  /** Logical negation has no priority entry, so it is never found.  In any range that begins with
      one and has nothing else to split at, nothing is evaluated and the value computed last is
      returned. */
  lemma NegationNotFound(ts: seq<Token>, pairs: seq<nat>, mem: Memory, p: nat, q: nat, last: Word)
    requires Jumps(ts, pairs) && p <= q < |ts| && ts[p] == Not
    requires forall k :: p <= k <= q && TopLevel(ts, pairs, p, k) ==> !Splits(ts[k])
    ensures RecEval(ts, pairs, mem, p, q, last) == Val(last)
  {
    MainOperatorMeaning(ts, pairs, p, q);
  }

  /** !e on its own, for an operand or a parenthesis e: the answer is 0 whatever e is, so it is right
      if and only if e has a value other than 0. */
  lemma NegationAlone(mem: Memory, e: Syntax)
    requires Level(e) == NO_PRIORITY
    ensures var s := Prefix(Not, e);
            && Actual(s, mem, 0) == Val(0)
            && (Actual(s, mem, 0) == Value(s, mem) <==> Value(e, mem).Val? && Value(e, mem).v != 0)
  {
  }

  /** l t !e, for an operand or a parenthesis e: the value of l is used twice, so the answer is right
      if and only if the operator gives the same for that value as for the negation. */
  lemma NegationOnTheRight(mem: Memory, t: Token, l: Syntax, e: Syntax, last: Word)
    requires Level(e) == NO_PRIORITY && NoNegation(l) && Value(l, mem).Val? && Value(e, mem).Val?
    ensures var s, x, y := Infix(t, l, Prefix(Not, e)), Value(l, mem).v, Value(e, mem).v;
            && Actual(s, mem, last) == Binary(t, x, x)
            && (Actual(s, mem, last) == Value(s, mem) <==> Binary(t, x, x) == Binary(t, x, Bool(y == 0)))
  {
    ActualIsValue(l, mem, last);
  }

  /** !e t r, for an operand or a parenthesis e: the left value is the one computed before, which is
      0 at the start, so the answer is right if and only if the operator gives the same for that
      value as for the negation. */
  lemma NegationOnTheLeft(mem: Memory, t: Token, e: Syntax, r: Syntax, last: Word)
    requires Level(e) == NO_PRIORITY && NoNegation(r) && Value(r, mem).Val? && Value(e, mem).Val?
    ensures var s, x, y := Infix(t, Prefix(Not, e), r), Value(e, mem).v, Value(r, mem).v;
            && Actual(s, mem, last) == Binary(t, last, y)
            && (Actual(s, mem, last) == Value(s, mem) <==> Binary(t, last, y) == Binary(t, Bool(x == 0), y))
  {
    ActualIsValue(r, mem, last);
  }

  /** !-e and !*e: the negation is ignored, so the answer is right if and only if there is none. */
  lemma NegationBeforeUnary(mem: Memory, e: Syntax, last: Word)
    requires e.Prefix? && IsUnary(e.t) && NoNegation(e)
    ensures var s := Prefix(Not, e);
            && Actual(s, mem, last) == Value(e, mem)
            && (Actual(s, mem, last) == Value(s, mem) <==> Value(e, mem).Failed?)
  {
    ActualIsValue(e, mem, last);
  }

  /** For one, l == !e is always true. */
  lemma EqualsNegation(mem: Memory, l: Syntax, e: Syntax, last: Word)
    requires Level(e) == NO_PRIORITY && NoNegation(l) && Value(l, mem).Val?
    ensures Actual(Infix(Eq, l, Prefix(Not, e)), mem, last) == Val(1)
  {
    ActualIsValue(l, mem, last);
  }
}
