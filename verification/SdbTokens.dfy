/** Tokens of the debugger's expression language, parenthesis matching, and the search for the
    operator at which an expression is split. */
module SdbTokens {
  import opened Options

  const WORD: nat := 0x1_0000_0000
  type Word = x: nat | x < WORD

  /** Numbers carry their value, register names the register's value if the name is valid. */
  datatype Token =
    | Num(v: Word) | Reg(r: Option<Word>)
    | LB | RB
    | Or | And | Eq | NotEq | Lt | Le | Gt | Ge
    | Plus | Minus | Times | Divide
    | Negative | Deref | Not

  predicate IsOperator(t: Token) {
    !(t.Num? || t.Reg? || t.LB? || t.RB?)
  }

  predicate IsUnary(t: Token) {
    t.Negative? || t.Deref? || t.Not?
  }

  /** Smaller binds weaker; tokens without an entry get the largest number. */
  const NO_PRIORITY: nat := 0x7FFF_FFFF

  function Priority(t: Token): nat {
    match t
    case Or => 0
    case And => 1
    case Eq => 2
    case NotEq => 2
    case Lt => 3
    case Le => 3
    case Gt => 3
    case Ge => 3
    case Plus => 4
    case Minus => 4
    case Times => 5
    case Divide => 5
    case Negative => 6
    case Deref => 6
    case _ => NO_PRIORITY
  }

  // ----- parentheses -----

  function Delta(t: Token): int {
    match t
    case LB => 1
    case RB => -1
    case _ => 0
  }

  /** Opening minus closing parentheses in ts[a..b]. */
  function Depth(ts: seq<Token>, a: nat, b: nat): int
    requires b <= |ts|
    decreases b
  {
    if b <= a then 0 else Depth(ts, a, b - 1) + Delta(ts[b - 1])
  }

  /** The parenthesis opened at i is closed at j. */
  ghost predicate IsMatch(ts: seq<Token>, i: nat, j: nat) {
    && i < j < |ts| && ts[i] == LB && ts[j] == RB
    && Depth(ts, i, j + 1) == 0
    && (forall k :: i < k <= j ==> Depth(ts, i, k) > 0)
  }

  /** No prefix closes more than it opens, and everything is closed at the end. */
  ghost predicate Balanced(ts: seq<Token>) {
    && (forall k :: 0 <= k <= |ts| ==> Depth(ts, 0, k) >= 0)
    && Depth(ts, 0, |ts|) == 0
  }

  /** The table of matching parentheses. */
  ghost predicate Paired(ts: seq<Token>, pairs: seq<nat>) {
    && |pairs| == |ts|
    && (forall i :: 0 <= i < |ts| && ts[i] == LB ==> IsMatch(ts, i, pairs[i]))
    && (forall j :: 0 <= j < |ts| && ts[j] == RB ==> IsMatch(ts, pairs[j], j))
  }

  lemma MatchUnique(ts: seq<Token>, i: nat, j: nat, k: nat)
    requires IsMatch(ts, i, j) && IsMatch(ts, i, k)
    ensures j == k
  {
  }

  /** Parenthesis s is still open before position i, at the given depth. */
  ghost predicate Open(ts: seq<Token>, s: nat, i: nat, depth: nat) {
    && s < i <= |ts| && ts[s] == LB && Depth(ts, s, i) == depth
    && (forall k :: s < k <= i ==> Depth(ts, s, k) > 0)
  }

  /** The open parentheses before position i, outermost first. */
  ghost predicate Stacked(ts: seq<Token>, stack: seq<nat>, i: nat)
    requires i <= |ts|
  {
    && Depth(ts, 0, i) == |stack|
    && (forall s :: 0 <= s < |stack| ==> Open(ts, stack[s], i, |stack| - s))
    && (forall s, t :: 0 <= s < t < |stack| ==> stack[s] < stack[t])
  }

  /** The table is right for everything before position i that is not open. */
  ghost predicate PairedBefore(ts: seq<Token>, pairs: seq<nat>, stack: seq<nat>, i: nat)
    requires i <= |ts|
  {
    && |pairs| == |ts|
    && (forall k :: 0 <= k < i && ts[k] == LB && k !in stack ==> IsMatch(ts, k, pairs[k]))
    && (forall k :: 0 <= k < i && ts[k] == RB ==> IsMatch(ts, pairs[k], k))
  }

  lemma StackedStep(ts: seq<Token>, stack: seq<nat>, i: nat)
    requires i < |ts| && Stacked(ts, stack, i)
    ensures ts[i] == LB ==> Stacked(ts, stack + [i], i + 1)
    ensures ts[i] == RB && stack != [] ==>
              IsMatch(ts, stack[|stack| - 1], i) && Stacked(ts, stack[..|stack| - 1], i + 1)
    ensures ts[i] != LB && ts[i] != RB ==> Stacked(ts, stack, i + 1)
  {
    forall s | 0 <= s < |stack|
      ensures Depth(ts, stack[s], i + 1) == |stack| - s + Delta(ts[i])
    {
      assert Open(ts, stack[s], i, |stack| - s);
    }
    if ts[i] == LB {
      var n := stack + [i];
      assert Depth(ts, i, i) == 0;
      forall s | 0 <= s < |n|
        ensures Open(ts, n[s], i + 1, |n| - s)
      {
        if s < |stack| {
          assert Open(ts, stack[s], i, |stack| - s);
        }
      }
    } else if ts[i] == RB && stack != [] {
      assert Open(ts, stack[|stack| - 1], i, 1);
      var n := stack[..|stack| - 1];
      forall s | 0 <= s < |n|
        ensures Open(ts, n[s], i + 1, |n| - s)
      {
        assert Open(ts, stack[s], i, |stack| - s);
      }
    } else if ts[i] != RB {
      forall s | 0 <= s < |stack|
        ensures Open(ts, stack[s], i + 1, |stack| - s)
      {
        assert Open(ts, stack[s], i, |stack| - s);
      }
    }
  }

  lemma PairedClose(ts: seq<Token>, pairs: seq<nat>, stack: seq<nat>, i: nat)
    requires i < |ts| && ts[i] == RB && stack != [] && PairedBefore(ts, pairs, stack, i)
    requires IsMatch(ts, stack[|stack| - 1], i)
    ensures PairedBefore(ts, pairs[stack[|stack| - 1] := i][i := stack[|stack| - 1]], stack[..|stack| - 1], i + 1)
  {
    var left := stack[|stack| - 1];
    assert forall k :: k in stack ==> k in stack[..|stack| - 1] || k == left;
  }

  /** Everything the scan knows at position i. */
  ghost predicate Scanning(ts: seq<Token>, pairs: seq<nat>, stack: seq<nat>, i: nat) {
    && i <= |ts| && Stacked(ts, stack, i) && PairedBefore(ts, pairs, stack, i)
    && (forall k :: 0 <= k <= i ==> Depth(ts, 0, k) >= 0)
  }

  lemma ScanOpen(ts: seq<Token>, pairs: seq<nat>, stack: seq<nat>, i: nat)
    requires i < |ts| && Scanning(ts, pairs, stack, i) && ts[i] == LB
    ensures Scanning(ts, pairs, stack + [i], i + 1)
  {
    StackedStep(ts, stack, i);
  }

  lemma ScanClose(ts: seq<Token>, pairs: seq<nat>, stack: seq<nat>, i: nat)
    requires i < |ts| && Scanning(ts, pairs, stack, i) && ts[i] == RB && stack != []
    ensures stack[|stack| - 1] < i
    ensures Scanning(ts, pairs[stack[|stack| - 1] := i][i := stack[|stack| - 1]], stack[..|stack| - 1], i + 1)
  {
    StackedStep(ts, stack, i);
    PairedClose(ts, pairs, stack, i);
  }

  lemma ScanOther(ts: seq<Token>, pairs: seq<nat>, stack: seq<nat>, i: nat)
    requires i < |ts| && Scanning(ts, pairs, stack, i) && ts[i] != LB && ts[i] != RB
    ensures Scanning(ts, pairs, stack, i + 1)
  {
    StackedStep(ts, stack, i);
  }

  lemma Underflow(ts: seq<Token>, pairs: seq<nat>, i: nat)
    requires i < |ts| && Scanning(ts, pairs, [], i) && ts[i] == RB
    ensures !Balanced(ts)
  {
    assert Depth(ts, 0, i + 1) == -1;
  }

  lemma ScanDone(ts: seq<Token>, pairs: seq<nat>, stack: seq<nat>)
    requires Scanning(ts, pairs, stack, |ts|)
    ensures stack == [] <==> Balanced(ts)
    ensures stack == [] ==> Paired(ts, pairs)
  {
  }

  /** Matches parentheses with a stack; succeeds exactly on balanced token sequences. */
  method MatchParens(ts: seq<Token>) returns (ok: bool, pairs: seq<nat>)
    ensures ok <==> Balanced(ts)
    ensures ok ==> Paired(ts, pairs)
  {
    pairs := seq(|ts|, _ => 0);
    var stack: seq<nat> := [];
    for i := 0 to |ts|
      invariant Scanning(ts, pairs, stack, i)
    {
      if ts[i] == LB {
        ScanOpen(ts, pairs, stack, i);
        stack := stack + [i];
      } else if ts[i] == RB {
        if stack == [] {
          Underflow(ts, pairs, i);
          return false, pairs;
        }
        var left := stack[|stack| - 1];
        ScanClose(ts, pairs, stack, i);
        stack := stack[..|stack| - 1];
        pairs := pairs[left := i][i := left];
      } else {
        ScanOther(ts, pairs, stack, i);
      }
    }
    ScanDone(ts, pairs, stack);
    ok := stack == [];
  }

  /** Parentheses opened inside a pair are closed inside it. */
  lemma Nested(ts: seq<Token>, i: nat, j: nat, l: nat, m: nat)
    requires IsMatch(ts, i, j) && IsMatch(ts, l, m) && i < l < j
    ensures m < j
  {
    assert Depth(ts, i, l) > 0;
    DepthSplit(ts, i, l, j + 1);
  }

  lemma {:induction false} DepthSplit(ts: seq<Token>, a: nat, b: nat, c: nat)
    requires a <= b <= c <= |ts|
    ensures Depth(ts, a, c) == Depth(ts, a, b) + Depth(ts, b, c)
    decreases c
  {
    if b < c {
      DepthSplit(ts, a, b, c - 1);
    }
  }

  /** What the evaluator relies on to stop: a parenthesis leads forward. */
  ghost predicate Forward(ts: seq<Token>, pairs: seq<nat>) {
    && |pairs| == |ts|
    && (forall i {:trigger pairs[i]} :: 0 <= i < |ts| && ts[i] == LB ==> i < pairs[i])
  }

  /** Moreover it leads to a closing one, and those inside it lead less far. */
  ghost predicate Jumps(ts: seq<Token>, pairs: seq<nat>) {
    && Forward(ts, pairs)
    && (forall i {:trigger pairs[i]} :: 0 <= i < |ts| && ts[i] == LB ==> pairs[i] < |ts| && ts[pairs[i]] == RB)
    && (forall i, l {:trigger pairs[i], pairs[l]} ::
          0 <= i < l < |ts| && ts[i] == LB && ts[l] == LB && l < pairs[i] ==> pairs[l] < pairs[i])
  }

  lemma PairedJumps(ts: seq<Token>, pairs: seq<nat>)
    requires Paired(ts, pairs)
    ensures Jumps(ts, pairs)
  {
    forall i, l | 0 <= i < l < |ts| && ts[i] == LB && ts[l] == LB && l < pairs[i]
      ensures pairs[l] < pairs[i]
    {
      assert IsMatch(ts, i, pairs[i]) && IsMatch(ts, l, pairs[l]);
      Nested(ts, i, pairs[i], l, pairs[l]);
    }
  }

  // ----- the main operator -----

  /** Where the scan goes from i: past the closing parenthesis, or to the next token. */
  function NextPosition(ts: seq<Token>, pairs: seq<nat>, i: nat): (j: nat)
    requires i < |ts| == |pairs|
    ensures i < j
  {
    if ts[i] == LB && i < pairs[i] then pairs[i] + 1 else i + 1
  }

  /** A token is better to split at than any before if it is an operator of smaller priority. */
  predicate Improves(t: Token, priority: nat) { IsOperator(t) && Priority(t) < priority }

  /** Scans for the operator of smallest priority outside parentheses, the first one on ties. */
  function MainFrom(ts: seq<Token>, pairs: seq<nat>, i: nat, q: nat, best: int, priority: nat): int
    requires |pairs| == |ts| && q < |ts|
    decreases q + 1 - i
  {
    if i > q then best
    else
      MainFrom(ts, pairs, NextPosition(ts, pairs, i), q,
               if Improves(ts[i], priority) then i else best,
               if Improves(ts[i], priority) then Priority(ts[i]) else priority)
  }

  lemma {:induction false} MainFromRange(ts: seq<Token>, pairs: seq<nat>, i: nat, q: nat, best: int, priority: nat)
    requires |pairs| == |ts| && q < |ts|
    ensures var op := MainFrom(ts, pairs, i, q, best, priority);
            op == best || (i <= op <= q && IsOperator(ts[op]))
    decreases q + 1 - i
  {
    if i <= q {
      MainFromRange(ts, pairs, NextPosition(ts, pairs, i), q,
                    if Improves(ts[i], priority) then i else best,
                    if Improves(ts[i], priority) then Priority(ts[i]) else priority);
    }
  }

  function MainOperator(ts: seq<Token>, pairs: seq<nat>, p: nat, q: nat): (op: int)
    requires |pairs| == |ts| && q < |ts|
    ensures op == -1 || (p <= op <= q && IsOperator(ts[op]))
  {
    MainFromRange(ts, pairs, p, q, -1, NO_PRIORITY);
    MainFrom(ts, pairs, p, q, -1, NO_PRIORITY)
  }

  method FindMainOperator(ts: seq<Token>, pairs: seq<nat>, p: nat, q: nat) returns (op: int)
    requires Forward(ts, pairs) && q < |ts|
    ensures op == MainOperator(ts, pairs, p, q)
  {
    op := -1;
    var priority := NO_PRIORITY;
    var i := p;
    while i <= q
      invariant MainFrom(ts, pairs, i, q, op, priority) == MainOperator(ts, pairs, p, q)
      decreases q + 1 - i
    {
      if ts[i] == LB {
        i := pairs[i] + 1;
        continue;
      }
      if !IsOperator(ts[i]) {
        i := i + 1;
        continue;
      }
      if Priority(ts[i]) < priority {
        priority := Priority(ts[i]);
        op := i;
      }
      i := i + 1;
    }
  }

  /** Position i of a range that starts at p is outside all parentheses opened in the range. */
  ghost predicate TopLevel(ts: seq<Token>, pairs: seq<nat>, p: nat, i: nat)
    requires Forward(ts, pairs) && i < |ts|
  {
    p <= i && ts[i] != LB && (forall l {:trigger pairs[l]} :: p <= l < i && ts[l] == LB ==> pairs[l] < i)
  }

  /** An operator that can be split at. */
  predicate Splits(t: Token) { IsOperator(t) && Priority(t) < NO_PRIORITY }

  /** What a scan up to i has found: the first of the weakest top-level operators so far. */
  ghost predicate Found(ts: seq<Token>, pairs: seq<nat>, p: nat, i: nat, q: nat, best: int, priority: nat)
    requires Forward(ts, pairs) && q < |ts|
  {
    && (best == -1 ==> priority == NO_PRIORITY)
    && (best != -1 ==> p <= best < i && best <= q && TopLevel(ts, pairs, p, best)
                       && Splits(ts[best]) && Priority(ts[best]) == priority)
    && (forall k :: p <= k < i && k <= q && TopLevel(ts, pairs, p, k) && Splits(ts[k]) ==>
          priority <= Priority(ts[k]) && (k < best ==> priority < Priority(ts[k])))
    && (forall l {:trigger pairs[l]} :: p <= l < i && l <= q && ts[l] == LB ==> pairs[l] < i)
  }

  lemma FoundPastParen(ts: seq<Token>, pairs: seq<nat>, p: nat, i: nat, q: nat, best: int, priority: nat)
    requires Jumps(ts, pairs) && q < |ts| && p <= i <= q && Found(ts, pairs, p, i, q, best, priority)
    requires ts[i] == LB
    ensures i < pairs[i] && Found(ts, pairs, p, pairs[i] + 1, q, best, priority)
  {
    var j := pairs[i] + 1;
    forall k | p <= k < j && k <= q && TopLevel(ts, pairs, p, k) && Splits(ts[k])
      ensures k < i
    {
    }
  }

  lemma FoundTaken(ts: seq<Token>, pairs: seq<nat>, p: nat, i: nat, q: nat, best: int, priority: nat)
    requires Forward(ts, pairs) && q < |ts| && p <= i <= q && Found(ts, pairs, p, i, q, best, priority)
    requires ts[i] != LB && IsOperator(ts[i]) && Priority(ts[i]) < priority
    ensures Found(ts, pairs, p, i + 1, q, i, Priority(ts[i]))
  {
    assert TopLevel(ts, pairs, p, i);
  }

  lemma FoundPassed(ts: seq<Token>, pairs: seq<nat>, p: nat, i: nat, q: nat, best: int, priority: nat)
    requires Forward(ts, pairs) && q < |ts| && p <= i <= q && Found(ts, pairs, p, i, q, best, priority)
    requires ts[i] != LB && (IsOperator(ts[i]) ==> Priority(ts[i]) >= priority)
    ensures Found(ts, pairs, p, i + 1, q, best, priority)
  {
  }

  lemma FoundNext(ts: seq<Token>, pairs: seq<nat>, p: nat, i: nat, q: nat, best: int, priority: nat)
    requires Jumps(ts, pairs) && q < |ts| && p <= i <= q && Found(ts, pairs, p, i, q, best, priority)
    ensures Found(ts, pairs, p, NextPosition(ts, pairs, i), q,
                  if Improves(ts[i], priority) then i else best,
                  if Improves(ts[i], priority) then Priority(ts[i]) else priority)
  {
    if ts[i] == LB {
      FoundPastParen(ts, pairs, p, i, q, best, priority);
    } else if Improves(ts[i], priority) {
      FoundTaken(ts, pairs, p, i, q, best, priority);
    } else {
      FoundPassed(ts, pairs, p, i, q, best, priority);
    }
  }

  /** The scan from i ends with this operator. */
  lemma {:induction false} MainFromFound(ts: seq<Token>, pairs: seq<nat>, p: nat, i: nat, q: nat, best: int, priority: nat)
    returns (end: nat, op: int, least: nat)
    requires Jumps(ts, pairs) && q < |ts| && p <= i && Found(ts, pairs, p, i, q, best, priority)
    ensures q < end && op == MainFrom(ts, pairs, i, q, best, priority) && Found(ts, pairs, p, end, q, op, least)
    decreases q + 1 - i
  {
    if i > q {
      return i, best, priority;
    }
    FoundNext(ts, pairs, p, i, q, best, priority);
    end, op, least := MainFromFound(ts, pairs, p, NextPosition(ts, pairs, i), q,
                                    if Improves(ts[i], priority) then i else best,
                                    if Improves(ts[i], priority) then Priority(ts[i]) else priority);
  }

  /** The operator found is the leftmost among the weakest top-level operators; there is none only
      if no top-level operator can be split at. */
  lemma MainOperatorMeaning(ts: seq<Token>, pairs: seq<nat>, p: nat, q: nat)
    requires Jumps(ts, pairs) && q < |ts|
    ensures var op := MainOperator(ts, pairs, p, q);
            if op == -1
            then forall k :: p <= k <= q && TopLevel(ts, pairs, p, k) ==> !Splits(ts[k])
            else
              && p <= op <= q && TopLevel(ts, pairs, p, op) && Splits(ts[op])
              && (forall k :: p <= k <= q && TopLevel(ts, pairs, p, k) && Splits(ts[k]) ==>
                    Priority(ts[op]) <= Priority(ts[k]) && (k < op ==> Priority(ts[op]) < Priority(ts[k])))
  {
    var end, op, least := MainFromFound(ts, pairs, p, p, q, -1, NO_PRIORITY);
  }
}
