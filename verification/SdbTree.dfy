/** Syntax trees of the debugger's expressions and their values: once as the machine computes them, in
    words, and once on the integers. */
module SdbTree {
  import opened Options
  import opened SdbTokens
  import opened SdbEval

  datatype Syntax =
    | Atom(t: Token)
    | Paren(e: Syntax)
    | Prefix(t: Token, e: Syntax)
    | Infix(t: Token, l: Syntax, r: Syntax)

  predicate IsOperand(t: Token) { t.Num? || t.Reg? }

  /** The value of a tree. */
  function Value(s: Syntax, mem: Memory): Outcome {
    match s
    case Atom(t) => Leaf(t, 0)
    case Paren(e) => Value(e, mem)
    case Prefix(t, e) => Apply(t, mem, Value(e, mem))
    case Infix(t, l, r) => Combine(t, Value(l, mem), Value(r, mem))
  }

  // ----- the value on the integers -----

  const MODULUS: int := 0x1_0000_0000

  function Truth(b: bool): int { if b then 1 else 0 }
  function Abs(x: int): nat { if x < 0 then -x else x }

  /** The number nearest to 0 that is x modulo 2^32. */
  function Centred(x: int): int { (x + MODULUS / 2) % MODULUS - MODULUS / 2 }

  /** The quotient without its fraction, if there is one in range. */
  function Divided(x: int, y: int): Option<int> {
    var a, b := Centred(x), Centred(y);
    if b == 0 || (a == -MODULUS / 2 && b == -1) then None
    else Some(if (a < 0) == (b < 0) then Abs(a) / Abs(b) else -(Abs(a) / Abs(b)))
  }

  /** What two integers make: sums and products are not reduced, comparisons are of the numbers
      modulo 2^32. */
  function Result(t: Token, x: int, y: int): Option<int> {
    var p, q := x % MODULUS, y % MODULUS;
    match t
    case Plus => Some(x + y)
    case Minus => Some(x - y)
    case Times => Some(x * y)
    case Divide => Divided(x, y)
    case Eq => Some(Truth((x - y) % MODULUS == 0))
    case NotEq => Some(Truth((x - y) % MODULUS != 0))
    case Lt => Some(Truth(p < q))
    case Le => Some(Truth(p <= q))
    case Gt => Some(Truth(q < p))
    case Ge => Some(Truth(q <= p))
    case And => Some(Truth(p > 0 && q > 0))
    case Or => Some(Truth(p > 0 || q > 0))
    case _ => None
  }

  function Combined(t: Token, x: Option<int>, y: Option<int>): Option<int> {
    if x.None? || y.None? then None else Result(t, x.value, y.value)
  }

  /** What a unary operator makes of an integer. */
  function Applied(t: Token, x: Option<int>, mem: Memory): Option<int> {
    if x.None? then None
    else if t.Negative? then Some(-x.value)
    else if t.Deref? then
      if x.value % MODULUS in mem.words then Some(mem.words[x.value % MODULUS]) else Some(0)
    else if t.Not? then Some(Truth(x.value % MODULUS == 0))
    else None
  }

  /** The value of a tree on the integers; None if it has none. */
  function Meaning(s: Syntax, mem: Memory): Option<int> {
    match s
    case Atom(Num(v)) => Some(v)
    case Atom(Reg(Some(v))) => Some(v)
    case Atom(_) => None
    case Paren(e) => Meaning(e, mem)
    case Prefix(t, e) => Applied(t, Meaning(e, mem), mem)
    case Infix(t, l, r) => Combined(t, Meaning(l, mem), Meaning(r, mem))
  }

  predicate Proper(s: Syntax) {
    match s
    case Atom(t) => IsOperand(t)
    case Paren(e) => Proper(e)
    case Prefix(_, e) => Proper(e)
    case Infix(_, l, r) => Proper(l) && Proper(r)
  }

  /** An integer as a word. */
  function AsWord(o: Option<int>): Outcome {
    if o.None? then Failed else Val(o.value % MODULUS)
  }

  /** Computing in words throughout gives the value on the integers modulo 2^32, and fails exactly if
      there is none. */
  lemma {:induction false} ValueIsMeaning(s: Syntax, mem: Memory)
    requires Proper(s)
    ensures Value(s, mem) == AsWord(Meaning(s, mem))
  {
    match s
    case Atom(_) =>
    case Paren(e) => ValueIsMeaning(e, mem);
    case Prefix(t, e) =>
      ValueIsMeaning(e, mem);
      ApplyIsWord(t, Meaning(e, mem), mem);
    case Infix(t, l, r) =>
      ValueIsMeaning(l, mem);
      ValueIsMeaning(r, mem);
      CombineIsWord(t, Meaning(l, mem), Meaning(r, mem));
  }

  lemma ApplyIsWord(t: Token, x: Option<int>, mem: Memory)
    ensures Apply(t, mem, AsWord(x)) == AsWord(Applied(t, x, mem))
  {
    if x.Some? {
      UnaryIsMeaning(t, x.value, mem);
    }
  }

  lemma CombineIsWord(t: Token, x: Option<int>, y: Option<int>)
    ensures Combine(t, AsWord(x), AsWord(y)) == AsWord(Combined(t, x, y))
  {
    if x.Some? && y.Some? {
      BinaryIsResult(t, x.value, y.value);
    }
  }

  lemma Remainder(x: int) returns (k: int)
    ensures x == MODULUS * k + x % MODULUS
  {
    k := x / MODULUS;
  }

  /** Numbers that differ by a multiple of 2^32 are the same word. */
  lemma SameWord(x: int, y: int, k: int)
    requires x == y + MODULUS * k
    ensures x % MODULUS == y % MODULUS
  {
  }

  lemma UnaryIsMeaning(t: Token, x: int, mem: Memory)
    ensures t.Negative? ==> Unary(t, mem, x % MODULUS) == Val(-x % MODULUS)
    ensures t.Deref? ==> Unary(t, mem, x % MODULUS) == Val(Load(mem, x % MODULUS))
    ensures t.Not? ==> Unary(t, mem, x % MODULUS) == Val(Truth(x % MODULUS == 0))
    ensures !t.Negative? && !t.Deref? && !t.Not? ==> Unary(t, mem, x % MODULUS) == Failed
  {
    var k := Remainder(x);
    SameWord(-(x % MODULUS), -x, k);
  }

  lemma BinaryIsResult(t: Token, x: int, y: int)
    ensures Binary(t, x % MODULUS, y % MODULUS) == AsWord(Result(t, x, y))
  {
    match t
    case Plus => SumIsWord(x, y);
    case Minus => SumIsWord(x, y);
    case Times => ProductIsWord(x, y);
    case Divide => QuotientIsWord(x, y);
    case Eq => SameIsWord(x, y);
    case NotEq => SameIsWord(x, y);
    case _ =>
  }

  lemma SumIsWord(x: int, y: int)
    ensures (x % MODULUS + y % MODULUS) % MODULUS == (x + y) % MODULUS
    ensures (x % MODULUS - y % MODULUS) % MODULUS == (x - y) % MODULUS
  {
    var k := Remainder(x);
    var l := Remainder(y);
    SameWord(x + y, x % MODULUS + y % MODULUS, k + l);
    SameWord(x - y, x % MODULUS - y % MODULUS, k - l);
  }

  lemma ProductIsWord(x: int, y: int)
    ensures (x % MODULUS) * (y % MODULUS) % MODULUS == x * y % MODULUS
  {
    var k := Remainder(x);
    var l := Remainder(y);
    ProductSplit(x, y, k, l, x % MODULUS, y % MODULUS, MODULUS);
    SameWord(x * y, (x % MODULUS) * (y % MODULUS), k * y + l * (x % MODULUS));
  }

  lemma ProductSplit(x: int, y: int, k: int, l: int, a: int, b: int, m: int)
    requires x == m * k + a && y == m * l + b
    ensures x * y == a * b + m * (k * y + l * a)
  {
    calc {
      x * y;
      (m * k + a) * y;
      m * k * y + a * y;
      m * k * y + a * (m * l + b);
      m * k * y + m * (l * a) + a * b;
      { assert m * k * y == m * (k * y); }
      a * b + m * (k * y + l * a);
    }
  }

  lemma SameIsWord(x: int, y: int)
    ensures (x - y) % MODULUS == 0 <==> x % MODULUS == y % MODULUS
  {
    var k := Remainder(x);
    var l := Remainder(y);
    SameWord(x - y, x % MODULUS - y % MODULUS, k - l);
  }

  lemma SignedIsCentred(x: int)
    ensures Signed(x % MODULUS) == Centred(x)
  {
    var k := Remainder(x);
    SameWord(x + MODULUS / 2, x % MODULUS + MODULUS / 2, k);
  }

  lemma QuotientIsWord(x: int, y: int)
    ensures Binary(Divide, x % MODULUS, y % MODULUS) == AsWord(Divided(x, y))
  {
    SignedIsCentred(x);
    SignedIsCentred(y);
    if Centred(y) != 0 {
      QuotientBySigns(Centred(x), Centred(y));
    }
  }

  lemma QuotientBySigns(a: int, b: int)
    requires b != 0
    ensures Quotient(a, b) == if (a < 0) == (b < 0) then Abs(a) / Abs(b) else -(Abs(a) / Abs(b))
  {
    if b < 0 {
      NegativeDivisor(Abs(a), Abs(b));
    }
  }

  lemma NegativeDivisor(a: int, b: int)
    requires a >= 0 && b > 0
    ensures a / -b == -(a / b)
  {
  }

  /** Division is truncated: the dividend is the quotient times the divisor and a remainder that is
      smaller than the divisor and has the sign of the dividend. */
  lemma DivisionLaws(a: Word, b: Word)
    ensures Binary(Divide, a, b) == Failed <==> b == 0 || (a == 0x8000_0000 && b == 0xFFFF_FFFF)
    ensures Binary(Divide, a, b).Val? ==>
              var q := Signed(Binary(Divide, a, b).v);
              var r := Signed(a) - q * Signed(b);
              Abs(r) < Abs(Signed(b)) && (r != 0 ==> (r < 0 <==> Signed(a) < 0))
  {
    if Binary(Divide, a, b).Val? {
      QuotientBySigns(Signed(a), Signed(b));
      QuotientInRange(Signed(a), Signed(b));
      SignedBack(Quotient(Signed(a), Signed(b)));
      RemainderOf(Signed(a), Signed(b), Abs(Signed(a)), Abs(Signed(b)));
    }
  }

  lemma QuotientInRange(a: int, b: int)
    requires b != 0 && -(MODULUS / 2) <= a < MODULUS / 2 && !(a == -(MODULUS / 2) && b == -1)
    ensures -(MODULUS / 2) <= Quotient(a, b) < MODULUS / 2
  {
    QuotientBySigns(a, b);
    Shrinks(Abs(a), Abs(b));
  }

  lemma Shrinks(a: nat, b: nat)
    requires b > 0
    ensures 0 <= a / b <= a && (b > 1 && a > 0 ==> a / b < a)
  {
    ShrinksBy(a, b, a / b, a % b);
  }

  lemma ShrinksBy(a: nat, b: nat, k: nat, m: nat)
    requires b > 0 && a == k * b + m
    ensures k <= a && (b > 1 && a > 0 ==> k < a)
  {
    assert k * b == k + k * (b - 1);
    if b > 1 && k > 0 {
      assert k * (b - 1) >= k;
    }
  }

  lemma SignedBack(x: int)
    requires -(MODULUS / 2) <= x < MODULUS / 2
    ensures Signed(Wrap(x)) == x
  {
  }

  lemma RemainderOf(a: int, b: int, p: nat, q: nat)
    requires b != 0 && p == Abs(a) && q == Abs(b)
    ensures var r := a - Quotient(a, b) * b; Abs(r) < q && (r != 0 ==> (r < 0 <==> a < 0))
  {
    QuotientBySigns(a, b);
    var k, m := p / q, p % q;
    assert p == k * q + m;
    assert Quotient(a, b) * b == if a < 0 then -(k * q) else k * q;
  }
}
