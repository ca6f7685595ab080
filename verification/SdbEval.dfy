/** The debugger's expression evaluator: recursion turned into a stack of staged frames. */
module SdbEval {
  import opened Options
  import opened SdbTokens

  /** Failed stands for every way of not returning: a panic, or a trap on an overflowing division. */
  datatype Outcome = Failed | Val(v: Word)

  /** The words in memory; an address without an entry holds 0. */
  datatype Memory = Memory(words: map<Word, Word>)

  function Load(mem: Memory, address: Word): Word {
    if address in mem.words then mem.words[address] else 0
  }

  function Bool(b: bool): Word { if b then 1 else 0 }

  /** A word read as a two's complement number, and back. */
  function Signed(x: Word): int { if x < WORD / 2 then x else x - WORD }
  function Wrap(x: int): Word { x % WORD }

  /** Division that truncates towards zero. */
  function Quotient(a: int, b: int): int
    requires b != 0
  {
    if a >= 0 then a / b else -((-a) / b)
  }

  function Unary(t: Token, mem: Memory, v: Word): Outcome {
    match t
    case Negative => Val(Wrap(-(v as int)))
    case Deref => Val(Load(mem, v))
    case Not => Val(Bool(v == 0))
    case _ => Failed
  }

  function Binary(t: Token, a: Word, b: Word): Outcome {
    match t
    case Plus => Val(Wrap(a + b))
    case Minus => Val(Wrap(a - b))
    case Times => Val(Wrap(a * b))
    case Divide =>
      if b == 0 || (Signed(a) == -(WORD / 2) && Signed(b) == -1) then Failed
      else Val(Wrap(Quotient(Signed(a), Signed(b))))
    case Eq => Val(Bool(a == b))
    case NotEq => Val(Bool(a != b))
    case Lt => Val(Bool(a < b))
    case Le => Val(Bool(a <= b))
    case Gt => Val(Bool(a > b))
    case Ge => Val(Bool(a >= b))
    case And => Val(Bool(a != 0 && b != 0))
    case Or => Val(Bool(a != 0 || b != 0))
    case _ => Failed
  }

  predicate Enclosed(ts: seq<Token>, pairs: seq<nat>, p: nat, q: nat)
    requires |pairs| == |ts| && p < |ts| && q < |ts|
  {
    ts[p] == LB && ts[q] == RB && pairs[p] == q
  }

  /** A range without an operator: only its first token counts, and one that is no operand leaves
      the last value unchanged. */
  function Leaf(t: Token, last: Word): Outcome {
    match t
    case Num(v) => Val(v)
    case Reg(Some(v)) => Val(v)
    case Reg(None) => Failed
    case _ => Val(last)
  }

  function Apply(t: Token, mem: Memory, o: Outcome): Outcome {
    if o.Failed? then Failed else Unary(t, mem, o.v)
  }

  function Combine(t: Token, l: Outcome, r: Outcome): Outcome {
    if l.Failed? || r.Failed? then Failed else Binary(t, l.v, r.v)
  }

  /** The recursive evaluator of ts[p..q], where last is the value computed before. */
  function RecEval(ts: seq<Token>, pairs: seq<nat>, mem: Memory, p: nat, q: int, last: Word): Outcome
    requires |pairs| == |ts| && q < |ts|
    decreases q + 1 - p, 1
  {
    if p > q then Failed
    else if Enclosed(ts, pairs, p, q) then RecEval(ts, pairs, mem, p + 1, q - 1, last)
    else
      var op := MainOperator(ts, pairs, p, q);
      if op == -1 then Leaf(ts[p], last) else EvalSplit(ts, pairs, mem, p, q, op, last)
  }

  /** The range split at op: tokens before a unary operator are ignored, and the value of a left
      operand is the last value for the right one. */
  function EvalSplit(ts: seq<Token>, pairs: seq<nat>, mem: Memory, p: nat, q: nat, op: nat, last: Word): Outcome
    requires |pairs| == |ts| && p <= op <= q < |ts|
    decreases q + 1 - p, 0
  {
    if IsUnary(ts[op]) then Apply(ts[op], mem, RecEval(ts, pairs, mem, op + 1, q, last))
    else
      var l := RecEval(ts, pairs, mem, p, op - 1, last);
      if l.Failed? then Failed else Combine(ts[op], l, RecEval(ts, pairs, mem, op + 1, q, l.v))
  }

  // ----- the stack -----

  datatype Stage = Start | Operand | Left | Right
  datatype Frame = Frame(p: nat, q: int, stage: Stage, left: Word, op: int)

  function Width(f: Frame): int { f.q + 1 - f.p }

  predicate FrameOk(ts: seq<Token>, f: Frame) {
    && f.q < |ts| && Width(f) >= 0
    && (f.stage != Start ==> f.p <= f.op <= f.q && IsOperator(ts[f.op]))
  }

  /** Ranges shrink strictly from the bottom of the stack to its top. */
  predicate StackOk(ts: seq<Token>, stack: seq<Frame>) {
    && (forall k :: 0 <= k < |stack| ==> FrameOk(ts, stack[k]))
    && (forall k :: 0 <= k < |stack| ==> Width(stack[k]) + k <= |ts|)
  }

  lemma StackBound(ts: seq<Token>, stack: seq<Frame>)
    requires StackOk(ts, stack)
    ensures |stack| <= |ts| + 1
  {
    if stack != [] {
      assert FrameOk(ts, stack[|stack| - 1]);
    }
  }

  /** What one frame makes of the value it finds in the result register. */
  ghost function Finish(ts: seq<Token>, pairs: seq<nat>, mem: Memory, f: Frame, v: Word): Outcome
    requires |pairs| == |ts| && FrameOk(ts, f)
  {
    match f.stage
    case Start => RecEval(ts, pairs, mem, f.p, f.q, v)
    case Operand => Unary(ts[f.op], mem, v)
    case Left => Combine(ts[f.op], Val(v), RecEval(ts, pairs, mem, f.op + 1, f.q, v))
    case Right => Binary(ts[f.op], f.left, v)
  }

  /** What the whole stack makes of it. */
  ghost function Resume(ts: seq<Token>, pairs: seq<nat>, mem: Memory, stack: seq<Frame>, o: Outcome): Outcome
    requires |pairs| == |ts| && StackOk(ts, stack)
    decreases |stack|
  {
    if o.Failed? || stack == [] then o
    else
      var n := |stack| - 1;
      Resume(ts, pairs, mem, stack[..n], Finish(ts, pairs, mem, stack[n], o.v))
  }

  /** Steps a frame can still cause. */
  ghost function Work(f: Frame): nat
    requires Width(f) >= 0 && (f.stage == Left ==> f.op <= f.q)
  {
    match f.stage
    case Start => 4 * Width(f) + 1
    case Left => 4 * (f.q - f.op) + 3
    case _ => 1
  }

  ghost function TotalWork(ts: seq<Token>, stack: seq<Frame>): nat
    requires StackOk(ts, stack)
    decreases |stack|
  {
    if stack == [] then 0
    else TotalWork(ts, stack[..|stack| - 1]) + Work(stack[|stack| - 1])
  }

  /** Pushing a frame adds its work, and hands its value down to the frames below. */
  lemma Pushed(ts: seq<Token>, pairs: seq<nat>, mem: Memory, rest: seq<Frame>, f: Frame, o: Outcome)
    requires |pairs| == |ts| && StackOk(ts, rest) && FrameOk(ts, f) && Width(f) + |rest| <= |ts|
    ensures StackOk(ts, rest + [f])
    ensures TotalWork(ts, rest + [f]) == TotalWork(ts, rest) + Work(f)
    ensures Resume(ts, pairs, mem, rest + [f], o) ==
            if o.Failed? then o else Resume(ts, pairs, mem, rest, Finish(ts, pairs, mem, f, o.v))
  {
    var one := rest + [f];
    assert one[..|one| - 1] == rest;
  }

  /** What one iteration does to the stack, the result register and the error flag: less work is
      left, and the answer the stack stands for is the same. */
  ghost predicate Advances(ts: seq<Token>, pairs: seq<nat>, mem: Memory,
                           stack: seq<Frame>, result: Word, next: seq<Frame>, o: Outcome)
    requires |pairs| == |ts| && StackOk(ts, stack)
  {
    && StackOk(ts, next)
    && (o.Val? ==> TotalWork(ts, next) < TotalWork(ts, stack))
    && Resume(ts, pairs, mem, next, o) == Resume(ts, pairs, mem, stack, Val(result))
  }

  /** Finishing the top frame. */
  lemma Popped(ts: seq<Token>, pairs: seq<nat>, mem: Memory, stack: seq<Frame>, result: Word)
    requires |pairs| == |ts| && StackOk(ts, stack) && stack != []
    ensures Advances(ts, pairs, mem, stack, result, stack[..|stack| - 1],
                     Finish(ts, pairs, mem, stack[|stack| - 1], result))
  {
    var n := |stack| - 1;
    assert StackOk(ts, stack[..n]);
  }

  /** Replacing the top frame by one with less work and the same outcome. */
  lemma Replaced(ts: seq<Token>, pairs: seq<nat>, mem: Memory, stack: seq<Frame>, result: Word, f: Frame)
    requires |pairs| == |ts| && StackOk(ts, stack) && stack != []
    requires FrameOk(ts, f) && Width(f) <= Width(stack[|stack| - 1]) && Work(f) < Work(stack[|stack| - 1])
    requires Finish(ts, pairs, mem, f, result) == Finish(ts, pairs, mem, stack[|stack| - 1], result)
    ensures Advances(ts, pairs, mem, stack, result, stack[..|stack| - 1] + [f], Val(result))
  {
    var n := |stack| - 1;
    assert stack == stack[..n] + [stack[n]];
    Pushed(ts, pairs, mem, stack[..n], f, Val(result));
    Pushed(ts, pairs, mem, stack[..n], stack[n], Val(result));
  }

  /** Replacing the top frame by one that waits for a smaller range pushed above it. */
  lemma Suspended(ts: seq<Token>, pairs: seq<nat>, mem: Memory, stack: seq<Frame>, result: Word, f: Frame, child: Frame)
    requires |pairs| == |ts| && StackOk(ts, stack) && stack != []
    requires FrameOk(ts, f) && Width(f) == Width(stack[|stack| - 1])
    requires FrameOk(ts, child) && Width(child) < Width(f)
    requires Work(f) + Work(child) < Work(stack[|stack| - 1])
    requires Finish(ts, pairs, mem, stack[|stack| - 1], result) ==
             match Finish(ts, pairs, mem, child, result)
             case Failed => Failed
             case Val(v) => Finish(ts, pairs, mem, f, v)
    ensures Advances(ts, pairs, mem, stack, result, stack[..|stack| - 1] + [f] + [child], Val(result))
  {
    var n := |stack| - 1;
    assert stack == stack[..n] + [stack[n]];
    Pushed(ts, pairs, mem, stack[..n], stack[n], Val(result));
    Pushed(ts, pairs, mem, stack[..n], f, Finish(ts, pairs, mem, child, result));
    Pushed(ts, pairs, mem, stack[..n] + [f], child, Val(result));
  }

  /** What one iteration does to the stack. */
  datatype Action = Pop | Replace(top: Frame) | Push(top: Frame, child: Frame)

  function Applied(stack: seq<Frame>, act: Action): seq<Frame>
    requires stack != []
  {
    match act
    case Pop => stack[..|stack| - 1]
    case Replace(f) => stack[..|stack| - 1] + [f]
    case Push(f, child) => stack[..|stack| - 1] + [f] + [child]
  }

  /** The first visit of the top frame f. */
  method Begin(ts: seq<Token>, pairs: seq<nat>, mem: Memory, ghost stack: seq<Frame>, f: Frame, result: Word)
    returns (act: Action, o: Outcome)
    requires Forward(ts, pairs) && StackOk(ts, stack) && stack != [] && stack[|stack| - 1] == f && f.stage == Start
    ensures Advances(ts, pairs, mem, stack, result, Applied(stack, act), o)
  {
    o := Val(result);
    if f.p > f.q {
      Popped(ts, pairs, mem, stack, result);
      return Pop, Failed;
    }
    if Enclosed(ts, pairs, f.p, f.q) {
      var g := f.(p := f.p + 1, q := f.q - 1);
      Replaced(ts, pairs, mem, stack, result, g);
      return Replace(g), o;
    }
    var op := FindMainOperator(ts, pairs, f.p, f.q);
    if op == -1 {
      Popped(ts, pairs, mem, stack, result);
      return Pop, Leaf(ts[f.p], result);
    }
    assert RecEval(ts, pairs, mem, f.p, f.q, result) == EvalSplit(ts, pairs, mem, f.p, f.q, op, result);
    if IsUnary(ts[op]) {
      var g, child := f.(op := op, stage := Operand), Frame(op + 1, f.q, Start, 0, -1);
      Suspended(ts, pairs, mem, stack, result, g, child);
      act := Push(g, child);
    } else {
      var g, child := f.(op := op, stage := Left), Frame(f.p, op - 1, Start, 0, -1);
      Suspended(ts, pairs, mem, stack, result, g, child);
      act := Push(g, child);
    }
  }

  /** Every later visit: the value of the operand just finished is in the result register. */
  method Continue(ts: seq<Token>, pairs: seq<nat>, mem: Memory, ghost stack: seq<Frame>, f: Frame, result: Word)
    returns (act: Action, o: Outcome)
    requires |pairs| == |ts| && StackOk(ts, stack) && stack != [] && stack[|stack| - 1] == f && f.stage != Start
    ensures Advances(ts, pairs, mem, stack, result, Applied(stack, act), o)
  {
    match f.stage
    case Operand =>
      Popped(ts, pairs, mem, stack, result);
      act, o := Pop, Unary(ts[f.op], mem, result);
    case Left =>
      var g, child := f.(left := result, stage := Right), Frame(f.op + 1, f.q, Start, 0, -1);
      Suspended(ts, pairs, mem, stack, result, g, child);
      act, o := Push(g, child), Val(result);
    case Right =>
      Popped(ts, pairs, mem, stack, result);
      act, o := Pop, Binary(ts[f.op], f.left, result);
  }

  /** Carries out an action on the frame array, of which the first sp frames are the stack. */
  method Act(frames: array<Frame>, sp: nat, act: Action) returns (sp': nat)
    requires 0 < sp <= frames.Length && (act.Push? ==> sp < frames.Length)
    modifies frames
    ensures sp' <= frames.Length && frames[..sp'] == Applied(old(frames[..sp]), act)
  {
    match act
    case Pop =>
      sp' := sp - 1;
    case Replace(f) =>
      frames[sp - 1] := f;
      sp' := sp;
    case Push(f, child) =>
      frames[sp - 1] := f;
      frames[sp] := child;
      sp' := sp + 1;
  }

  /** The stack machine computes what the recursion computes and always stops.  Its frames live in an
      array, and one frame per token and one more is always enough. */
  method Eval(ts: seq<Token>, pairs: seq<nat>, mem: Memory, p: nat, q: int, frames: array<Frame>) returns (o: Outcome)
    requires Forward(ts, pairs) && p <= q + 1 <= |ts|
    requires frames.Length >= |ts| + 1
    modifies frames
    ensures o == RecEval(ts, pairs, mem, p, q, 0)
  {
    o := Val(0);
    var f := Frame(p, q, Start, 0, -1);
    frames[0] := f;
    var sp: nat := 1;
    Pushed(ts, pairs, mem, [], f, o);
    assert frames[..sp] == [] + [f];
    while sp > 0 && o.Val?
      invariant sp <= frames.Length && StackOk(ts, frames[..sp])
      invariant Resume(ts, pairs, mem, frames[..sp], o) == RecEval(ts, pairs, mem, p, q, 0)
      decreases o.Val?, TotalWork(ts, frames[..sp])
    {
      var act;
      ghost var stack := frames[..sp];
      if frames[sp - 1].stage == Start {
        act, o := Begin(ts, pairs, mem, stack, frames[sp - 1], o.v);
      } else {
        act, o := Continue(ts, pairs, mem, stack, frames[sp - 1], o.v);
      }
      StackBound(ts, Applied(stack, act));
      sp := Act(frames, sp, act);
    }
  }
}
