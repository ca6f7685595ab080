/** Counting leading and trailing zero bits without branches. */
module Int64Count {
  import opened Bits

  type U32 = x: nat | x < W
  type U64 = x: nat | x < D

  lemma Pow2Small()
    ensures Pow2(1) == 2 && Pow2(2) == 4 && Pow2(4) == 16 && Pow2(8) == 0x100 && Pow2(16) == 0x1_0000
  {
    assert Pow2(4) == 16;
    Pow2Add(4, 4);
    Pow2Add(8, 8);
  }

  lemma Pow2Word()
    ensures Pow2(31) == 0x8000_0000 && Pow2(32) == W
  {
    Pow2Small();
    Pow2Add(16, 16);
    assert Pow2(32) == 2 * Pow2(31);
  }

  lemma Pow2Dword()
    ensures Pow2(63) == 0x8000_0000_0000_0000 && Pow2(64) == D
  {
    Pow2Word();
    Pow2Add(32, 32);
    assert Pow2(64) == 2 * Pow2(63);
  }

  /** All ones if the condition holds, else zero: the C idiom -(cond). */
  function Mask32(cond: bool): U32 { if cond then W - 1 else 0 }

  lemma MaskSelects(x: U32, cond: bool)
    ensures And(x, Mask32(cond)) == if cond then x else 0
  {
    Pow2Word();
    AndLowMask(x, 32);
  }

  /** Choosing one of two words by masks. */
  lemma SelectWord(x: U32, y: U32, cond: bool)
    ensures Or(And(x, Mask32(!cond)), And(y, Mask32(cond))) == if cond then y else x
    ensures Or(And(y, Mask32(cond)), And(x, Mask32(!cond))) == if cond then y else x
    ensures And(32, Mask32(cond)) == if cond then 32 else 0
  {
    MaskSelects(x, !cond);
    MaskSelects(y, cond);
    MaskSelects(32, cond);
    OrZero(x);
    OrZero(y);
  }

  // ----- leading zeros -----

  /** One halving step: testing the upper k of 2k bits, and what moving them down does. */
  lemma {:induction false} UpperHalf(x: nat, k: nat)
    requires k > 0 && x < Pow2(2 * k)
    ensures And(x, Shl(Pow2(k) - 1, k)) == 0 <==> x < Pow2(k)
    ensures x >= Pow2(k) ==> Shr(x, k) < Pow2(k) && BitLen(Shr(x, k)) == BitLen(x) - k
  {
    var p := Pow2(k);
    Pow2Add(k, k);
    ShrIsDiv(x, k);
    var h := x / p;
    assert x == h * p + x % p;
    assert h < p by { if h >= p { MulLe(p, h, p); } }
    AndHighMask(x, p - 1, k);
    AndLowMask(h, k);
    DivModUnique(h, p, 0, h);
    ShlIsMul(h, k);
    if x < p {
      DivModUnique(x, p, 0, x);
    } else {
      assert h > 0;
      BitLenShift(x, k);
    }
  }

  lemma {:induction false} BitLenShift(x: nat, k: nat)
    requires Shr(x, k) > 0
    ensures BitLen(Shr(x, k)) == BitLen(x) - k
    decreases k
  {
    if k > 0 {
      if x == 0 {
        ShrZero(k);
      }
      BitLenShift(x / 2, k - 1);
    }
  }

  lemma {:induction false} ShrZero(k: nat)
    ensures Shr(0, k) == 0
  {
    if k > 0 {
      ShrZero(k - 1);
    }
  }

  /** If the upper k of 2k bits are zero, skips k zeros; else moves the upper bits down. */
  method ClzStep(x: nat, k: nat, mask: nat) returns (y: nat, t: nat)
    requires k > 0 && x < Pow2(2 * k) && mask == Shl(Pow2(k) - 1, k)
    ensures y < Pow2(k)
    ensures t + k - BitLen(y) == 2 * k - BitLen(x)
  {
    UpperHalf(x, k);
    t := if And(x, mask) == 0 then k else 0;
    y := Shr(x, k - t);
  }

  lemma ClzMasks()
    ensures Shl(Pow2(16) - 1, 16) == 0xFFFF_0000 && Shl(Pow2(8) - 1, 8) == 0xFF00
    ensures Shl(Pow2(4) - 1, 4) == 0xF0 && Shl(Pow2(2) - 1, 2) == 0xC
  {
    Pow2Small();
    ShlIsMul(0xFFFF, 16);
    ShlIsMul(0xFF, 8);
    ShlIsMul(0xF, 4);
    ShlIsMul(3, 2);
  }

  /** The number of leading zeros of a 32-bit word; 32 for zero. */
  method Clz32(a: U32) returns (r: nat)
    ensures r == 32 - BitLen(a)
  {
    Pow2Small();
    Pow2Word();
    ClzMasks();
    var x, t := ClzStep(a, 16, 0xFFFF_0000);
    r := t;
    x, t := ClzStep(x, 8, 0xFF00);
    r := r + t;
    x, t := ClzStep(x, 4, 0xF0);
    r := r + t;
    x, t := ClzStep(x, 2, 0xC);
    r := r + t;
    ClzLast(x);
    r := r + And((2 - x) % W, Mask32(And(x, 2) == 0));
  }

  lemma ClzLast(x: nat)
    requires x < 4
    ensures And((2 - x) % W, Mask32(And(x, 2) == 0)) == 2 - BitLen(x)
  {
    LastTwo(x);
    MaskSelects((2 - x) % W, And(x, 2) == 0);
  }

  lemma LastTwo(x: nat)
    requires x < 4
    ensures And(x, 2) == 0 <==> x < 2
    ensures BitLen(x) == if x == 0 then 0 else if x == 1 then 1 else 2
    ensures And(x, 1) == 0 <==> x == 0 || x == 2
  {
    assert And(0, 2) == 0 && And(1, 2) == 0 && And(2, 2) == 2 && And(3, 2) == 2;
    assert And(0, 1) == 0 && And(1, 1) == 1 && And(2, 1) == 0 && And(3, 1) == 1;
    assert BitLen(0) == 0 && BitLen(1) == 1 && BitLen(2) == 2 && BitLen(3) == 2;
  }

  /** The number of leading zeros of a 64-bit word. */
  method Clz64(hi: U32, lo: U32) returns (r: nat)
    ensures r == 64 - BitLen(hi * W + lo)
  {
    var f := Mask32(hi == 0);
    SelectWord(hi, lo, hi == 0);
    r := Clz32(Or(And(hi, Mask32(hi != 0)), And(lo, f)));
    r := r + And(32, f);
    if hi != 0 {
      BitLenOfPair(hi, lo);
    }
  }

  lemma BitLenOfPair(hi: U32, lo: U32)
    requires hi > 0
    ensures BitLen(hi * W + lo) == 32 + BitLen(hi)
  {
    var n := hi * W + lo;
    HighWord(hi, lo);
    BitLenShift(n, 32);
  }

  lemma HighWord(hi: U32, lo: U32)
    ensures Shr(hi * W + lo, 32) == hi
    ensures (hi * W + lo) % Pow2(32) == lo && lo % Pow2(32) == lo
  {
    Pow2Word();
    ShrIsDiv(hi * W + lo, 32);
    DivModUnique(hi * W + lo, W, hi, lo);
    DivModUnique(lo, W, 0, lo);
  }

  // ----- trailing zeros -----

  /** One halving step from below. */
  lemma {:induction false} LowerHalf(x: nat, k: nat)
    ensures And(x, Pow2(k) - 1) == 0 <==> x % Pow2(k) == 0
    ensures x > 0 && x % Pow2(k) == 0 ==>
              Shr(x, k) > 0 && TrailingZeros(x) == k + TrailingZeros(Shr(x, k))
    ensures x > 0 && x % Pow2(k) != 0 ==> TrailingZeros(x) < k
    decreases k
  {
    AndLowMask(x, k);
    if k > 0 {
      LowerHalf(x / 2, k - 1);
      PeelDigit(x, k - 1);
    }
  }

  /** The state of the count: `x` is what is left after skipping `r` zeros, and fewer than `w`
      more are to come, except when the word was zero. */
  ghost predicate Counting(a: nat, x: nat, r: nat, w: nat) {
    if a == 0 then x == 0 && r == 32 - w
    else x > 0 && TrailingZeros(a) == r + TrailingZeros(x) && TrailingZeros(x) < w
  }

  /** If the lower k bits are zero, skips them. */
  method CtzStep(ghost a: nat, x: nat, r: nat, k: nat, mask: nat) returns (y: nat, r': nat)
    requires Counting(a, x, r, 2 * k) && mask == Pow2(k) - 1
    ensures Counting(a, y, r', k)
  {
    LowerHalf(x, k);
    var t := if And(x, mask) == 0 then k else 0;
    if x == 0 {
      ShrZero(k);
    }
    y := Shr(x, t);
    r' := r + t;
  }

  /** The number of trailing zeros of a 32-bit word; 32 for zero. */
  method Ctz32(a: U32) returns (r: nat)
    ensures a > 0 ==> r == TrailingZeros(a)
    ensures a == 0 ==> r == 32
  {
    Pow2Small();
    if a > 0 {
      BelowWord(a);
    }
    var x: nat;
    x, r := CtzStep(a, a, 0, 16, 0xFFFF);
    x, r := CtzStep(a, x, r, 8, 0xFF);
    x, r := CtzStep(a, x, r, 4, 0xF);
    x, r := CtzStep(a, x, r, 2, 0x3);
    CtzLast(x);
    x := And(x, 3);
    r := r + And((2 - Shr(x, 1)) % W, Mask32(And(x, 1) == 0));
  }

  lemma CtzLast(x: nat)
    ensures var y := And(x, 3);
            var c := And((2 - Shr(y, 1)) % W, Mask32(And(y, 1) == 0));
            if x == 0 then c == 2 else TrailingZeros(x) < 2 ==> c == TrailingZeros(x)
  {
    var y := And(x, 3);
    assert Pow2(2) == 4;
    AndLowMask(x, 2);
    LastTwo(y);
    ShrOne(y);
    MaskSelects((2 - y / 2) % W, And(y, 1) == 0);
    if x > 0 {
      FirstTwoZeros(x);
    }
  }

  lemma ShrOne(x: nat)
    ensures Shr(x, 1) == x / 2
  {
  }

  lemma FirstTwoZeros(x: nat)
    requires x > 0
    ensures TrailingZeros(x) < 2 ==> TrailingZeros(x) == (if x % 2 == 1 then 0 else 1) && x % 4 != 0
  {
  }

  lemma BelowWord(a: U32)
    requires a > 0
    ensures TrailingZeros(a) < 32
  {
    Pow2Word();
    TrailingZerosFactor(a);
    if TrailingZeros(a) >= 32 {
      Pow2Le(32, TrailingZeros(a));
    }
  }

  /** The number of trailing zeros of a 64-bit word. */
  method Ctz64(hi: U32, lo: U32) returns (r: nat)
    ensures hi * W + lo > 0 ==> r == TrailingZeros(hi * W + lo)
    ensures hi == 0 && lo == 0 ==> r == 64
  {
    var f := Mask32(lo == 0);
    SelectWord(lo, hi, lo == 0);
    r := Ctz32(Or(And(hi, f), And(lo, Mask32(lo != 0))));
    r := r + And(32, f);
    TrailingZerosOfPair(hi, lo);
  }

  lemma TrailingZerosOfPair(hi: U32, lo: U32)
    ensures lo > 0 ==> TrailingZeros(hi * W + lo) == TrailingZeros(lo)
    ensures lo == 0 && hi > 0 ==> TrailingZeros(hi * W + lo) == 32 + TrailingZeros(hi)
  {
    var n := hi * W + lo;
    Pow2Word();
    if lo > 0 {
      ShlIsMul(hi, 32);
      TrailingZerosBelow(hi, lo, 32);
    } else {
      HighWord(hi, lo);
      LowerHalf(n, 32);
    }
  }

  lemma {:induction false} TrailingZerosBelow(m: nat, lo: nat, k: nat)
    requires 0 < lo < Pow2(k)
    ensures TrailingZeros(Shl(m, k) + lo) == TrailingZeros(lo)
  {
    if lo % 2 == 0 {
      assert (Shl(m, k) + lo) / 2 == Shl(m, k - 1) + lo / 2;
      TrailingZerosBelow(m, lo / 2, k - 1);
    }
  }
}
