/** Bitwise operations on natural numbers, defined bit by bit, and what they mean in arithmetic.
    Machine words are naturals below a power of two. */
module Bits {

  /** One more than the largest word, and than the largest double word. */
  const W: nat := 0x1_0000_0000
  const D: nat := 0x1_0000_0000_0000_0000

  function Pow2(k: nat): (p: nat)
    ensures p >= 1
  {
    if k == 0 then 1 else 2 * Pow2(k - 1)
  }

  function And(x: nat, y: nat): nat {
    if x == 0 || y == 0 then 0 else 2 * And(x / 2, y / 2) + (if x % 2 == 1 && y % 2 == 1 then 1 else 0)
  }

  function Or(x: nat, y: nat): nat
    decreases x + y
  {
    if x == 0 then y else if y == 0 then x
    else 2 * Or(x / 2, y / 2) + (if x % 2 == 1 || y % 2 == 1 then 1 else 0)
  }

  function Xor(x: nat, y: nat): nat
    decreases x + y
  {
    if x == 0 then y else if y == 0 then x
    else 2 * Xor(x / 2, y / 2) + (if x % 2 != y % 2 then 1 else 0)
  }

  /** Number of binary digits. */
  function BitLen(x: nat): nat {
    if x == 0 then 0 else 1 + BitLen(x / 2)
  }

  /** Number of trailing zero digits. */
  function TrailingZeros(x: nat): nat
    requires x > 0
  {
    if x % 2 == 1 then 0 else 1 + TrailingZeros(x / 2)
  }

  // ----- arithmetic -----

  lemma MulLe(a: int, b: int, c: nat)
    requires a <= b
    ensures a * c <= b * c
  {
  }

  /** Quotient and remainder are unique. */
  lemma DivModUnique(n: int, d: int, q: int, r: int)
    requires 0 <= r < d && n == q * d + r
    ensures n / d == q && n % d == r
  {
    var q', r' := n / d, n % d;
    assert n == q' * d + r';
    assert (q - q') * d == r' - r;
    if q < q' {
      MulLe(q - q', -1, d);
    } else if q > q' {
      MulLe(1, q - q', d);
    }
  }

  lemma {:induction false} Pow2Add(a: nat, b: nat)
    ensures Pow2(a + b) == Pow2(a) * Pow2(b)
  {
    if a > 0 {
      Pow2Add(a - 1, b);
      assert Pow2(a) * Pow2(b) == 2 * (Pow2(a - 1) * Pow2(b));
    }
  }

  lemma {:induction false} Pow2Le(a: nat, b: nat)
    requires a <= b
    ensures Pow2(a) <= Pow2(b)
    decreases b - a
  {
    if a < b {
      Pow2Le(a + 1, b);
    }
  }

  /** Dropping or keeping the low k + 1 digits, one digit at a time. */
  lemma PeelDigit(x: nat, k: nat)
    ensures x / Pow2(k + 1) == (x / 2) / Pow2(k)
    ensures x % Pow2(k + 1) == 2 * ((x / 2) % Pow2(k)) + x % 2
  {
    var p := Pow2(k);
    var q, r := (x / 2) / p, (x / 2) % p;
    assert x / 2 == q * p + r;
    assert x == q * (2 * p) + (2 * r + x % 2);
    DivModUnique(x, 2 * p, q, 2 * r + x % 2);
  }

  lemma {:induction false} BitLenBounds(x: nat)
    requires x > 0
    ensures BitLen(x) >= 1
    ensures Pow2(BitLen(x) - 1) <= x < Pow2(BitLen(x))
  {
    if x > 1 {
      BitLenBounds(x / 2);
    } else {
      assert BitLen(1) == 1 && Pow2(1) == 2;
    }
  }

  lemma {:induction false} BitLenUnique(x: nat, k: nat)
    requires k >= 1 && Pow2(k - 1) <= x < Pow2(k)
    ensures BitLen(x) == k
  {
    if k > 1 {
      BitLenUnique(x / 2, k - 1);
    } else {
      assert BitLen(1) == 1 && Pow2(1) == 2;
    }
  }

  // ----- bitwise operations in arithmetic -----

  lemma {:induction false} AndLowMask(x: nat, k: nat)
    ensures And(x, Pow2(k) - 1) == x % Pow2(k)
  {
    if k > 0 {
      AndLowMask(x / 2, k - 1);
      PeelDigit(x, k - 1);
      AndOdd(x, Pow2(k - 1) - 1);
    }
  }

  lemma AndOdd(x: nat, y: nat)
    ensures And(x, 2 * y + 1) == 2 * And(x / 2, y) + x % 2
  {
    assert (2 * y + 1) / 2 == y && (2 * y + 1) % 2 == 1;
  }

  lemma AndEven(x: nat, y: nat)
    ensures And(x, 2 * y) == 2 * And(x / 2, y)
  {
    assert (2 * y) / 2 == y && (2 * y) % 2 == 0;
  }

  /** Shifting by one digit at a time. */
  function Shl(x: nat, k: nat): nat {
    if k == 0 then x else 2 * Shl(x, k - 1)
  }

  function Shr(x: nat, k: nat): nat
    decreases k
  {
    if k == 0 then x else Shr(x / 2, k - 1)
  }

  lemma {:induction false} ShlIsMul(x: nat, k: nat)
    ensures Shl(x, k) == x * Pow2(k)
  {
    if k > 0 {
      ShlIsMul(x, k - 1);
      assert x * (2 * Pow2(k - 1)) == 2 * (x * Pow2(k - 1));
    }
  }

  lemma {:induction false} ShrIsDiv(x: nat, k: nat)
    ensures Shr(x, k) == x / Pow2(k)
    decreases k
  {
    if k > 0 {
      ShrIsDiv(x / 2, k - 1);
      PeelDigit(x, k - 1);
    }
  }

  /** A mask with k zero digits at the bottom looks at the rest only. */
  lemma {:induction false} AndHighMask(x: nat, m: nat, k: nat)
    ensures And(x, Shl(m, k)) == Shl(And(Shr(x, k), m), k)
    decreases k
  {
    if k > 0 {
      AndHighMask(x / 2, m, k - 1);
      AndEven(x, Shl(m, k - 1));
    }
  }

  /** Masking a field of b digits that starts at digit k. */
  lemma AndField(x: nat, k: nat, b: nat)
    ensures And(x, Shl(Pow2(b) - 1, k)) == Shl(Shr(x, k) % Pow2(b), k)
  {
    AndHighMask(x, Pow2(b) - 1, k);
    AndLowMask(Shr(x, k), b);
  }

  lemma {:induction false} ShrShl(x: nat, k: nat)
    ensures Shr(Shl(x, k), k) == x
  {
    if k > 0 {
      assert Shl(x, k) / 2 == Shl(x, k - 1);
      ShrShl(x, k - 1);
    }
  }

  lemma {:induction false} AndComm(x: nat, y: nat)
    ensures And(x, y) == And(y, x)
  {
    if x != 0 && y != 0 {
      AndComm(x / 2, y / 2);
    }
  }

  /** Or of disjoint digit ranges is addition. */
  lemma {:induction false} OrDisjoint(a: nat, b: nat, k: nat)
    requires b < Pow2(k)
    ensures Or(a * Pow2(k), b) == a * Pow2(k) + b
  {
    if k > 0 {
      var y := a * Pow2(k - 1);
      assert a * Pow2(k) == 2 * y;
      OrDisjoint(a, b / 2, k - 1);
      OrZero(y);
      OrZero(b / 2);
    } else {
      OrZero(a);
    }
  }

  lemma OrZero(x: nat)
    ensures Or(x, 0) == x && Or(0, x) == x
  {
  }

  lemma {:induction false} OrComm(x: nat, y: nat)
    ensures Or(x, y) == Or(y, x)
    decreases x + y
  {
    if x != 0 && y != 0 {
      OrComm(x / 2, y / 2);
    }
  }

  lemma XorPeel(x: nat, y: nat)
    ensures Xor(x, y) == 2 * Xor(x / 2, y / 2) + (if x % 2 != y % 2 then 1 else 0)
  {
    if x == 0 || y == 0 {
      XorZero(x / 2);
    }
  }

  /** Complement is subtraction from all ones. */
  lemma {:induction false} XorOnes(x: nat, k: nat)
    requires x < Pow2(k)
    ensures Xor(x, Pow2(k) - 1) == Pow2(k) - 1 - x
  {
    if k > 0 {
      var p := Pow2(k - 1);
      XorOnes(x / 2, k - 1);
      XorPeel(x, 2 * p - 1);
      assert (2 * p - 1) / 2 == p - 1 && (2 * p - 1) % 2 == 1;
    }
  }

  lemma XorZero(x: nat)
    ensures Xor(x, 0) == x
  {
  }

  lemma {:induction false} TrailingZerosFactor(x: nat)
    requires x > 0
    ensures x % Pow2(TrailingZeros(x)) == 0 && (x / Pow2(TrailingZeros(x))) % 2 == 1
    ensures Pow2(TrailingZeros(x)) <= x
  {
    if x % 2 == 0 {
      TrailingZerosFactor(x / 2);
      PeelDigit(x, TrailingZeros(x / 2));
    }
  }

  /** x & (x - 1) clears the lowest one, so it is zero exactly for powers of two. */
  lemma {:induction false} PowerOfTwoTest(x: nat)
    requires x > 0
    ensures And(x, x - 1) == 0 <==> x == Pow2(TrailingZeros(x))
  {
    if x % 2 == 0 {
      PowerOfTwoTest(x / 2);
      assert (x - 1) / 2 == x / 2 - 1;
    } else if x > 1 {
      assert And(x, x - 1) == 2 * And(x / 2, x / 2);
      AndSelf(x / 2);
    }
  }

  lemma {:induction false} AndSelf(x: nat)
    ensures And(x, x) == x
  {
    if x != 0 {
      AndSelf(x / 2);
    }
  }
}
