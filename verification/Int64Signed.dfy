/** Signed division by way of unsigned division, and double-word multiplication. */
module Int64Signed {
  import opened Bits
  import opened Int64Count
  import opened Int64Div

  /** The two's complement reading of a 64-bit pattern. */
  function Signed(x: U64): int { if x >= HALF then x - D else x }

  const MIN64: int := -0x8000_0000_0000_0000

  /** Cutting an integer to 64 bits. */
  function Wrap64(x: int): U64 { x % D }

  function Opp(x: int): int { -x }

  function Abs(x: int): nat { if x < 0 then -x else x }

  /** C division: truncation toward zero. */
  function TruncDiv(a: int, b: int): int
    requires b != 0
  {
    if (a < 0) == (b < 0) then Abs(a) / Abs(b) else -(Abs(a) / Abs(b))
  }

  function TruncMod(a: int, b: int): int
    requires b != 0
  {
    if a < 0 then -(Abs(a) % Abs(b)) else Abs(a) % Abs(b)
  }

  /** Truncated division is characterised by: a = q * b + r, |r| < |b|, and r has the sign of a. */
  lemma TruncLaws(a: int, b: int)
    requires b != 0
    ensures a == TruncDiv(a, b) * b + TruncMod(a, b)
    ensures Abs(TruncMod(a, b)) < Abs(b)
    ensures (a >= 0 ==> TruncMod(a, b) >= 0) && (a <= 0 ==> TruncMod(a, b) <= 0)
  {
    var q, r := Abs(a) / Abs(b), Abs(a) % Abs(b);
    DivModBack(Abs(a), Abs(b));
    SignedProduct(q, b, Abs(b));
  }

  lemma SignedProduct(q: int, b: int, m: int)
    requires m == b || m == -b
    ensures m == b ==> q * m == q * b && (-q) * b == -(q * m)
    ensures m == -b ==> q * m == -(q * b) && (-q) * b == q * m
  {
  }

  /** The sign of a pattern as a mask, and conditional negation (x ^ s) - s. */
  function SignOf(x: U64): U64 { if x >= HALF then D - 1 else 0 }

  function NegateIf(x: U64, s: U64): U64 { (Xor(x, s) - s) % D }

  lemma NegateIfMeaning(x: U64, neg: bool)
    ensures NegateIf(x, if neg then D - 1 else 0) == if neg then Wrap64(Opp(x)) else x
  {
    Pow2Dword();
    if neg {
      XorOnes(x, 64);
    } else {
      XorZero(x);
      DivModUnique(x, D, 0, x);
    }
  }

  lemma AbsPattern(x: U64)
    ensures NegateIf(x, SignOf(x)) == Abs(Signed(x))
  {
    NegateIfMeaning(x, x >= HALF);
    if x >= HALF {
      DivModUnique(Opp(x), D, -1, D - x);
    }
  }

  lemma XorSigns(a: U64, b: U64)
    ensures Xor(SignOf(a), SignOf(b)) == if (a >= HALF) == (b >= HALF) then 0 else D - 1
  {
    Pow2Dword();
    XorZero(SignOf(a));
    XorOnes(SignOf(a), 64);
  }

  /** Signed quotient, wrapped to 64 bits.  The only quotient that wraps is INT64_MIN / -1. */
  method DivDi(a: U64, b: U64) returns (q: U64)
    requires b > 0
    ensures q == TruncDiv(Signed(a), Signed(b)) % D
  {
    var sa, sb := SignOf(a), SignOf(b);
    AbsPattern(a);
    AbsPattern(b);
    var ua, ub := NegateIf(a, sa), NegateIf(b, sb);
    XorSigns(a, b);
    var s := Xor(sa, sb);
    var uq, urem := UDivMod(ua, ub);
    NegateIfMeaning(uq, (a >= HALF) != (b >= HALF));
    q := NegateIf(uq, s);
    DivModUnique(uq, D, 0, uq);
  }

  /** Signed remainder; it never wraps. */
  method ModDi(a: U64, b: U64) returns (r: U64)
    requires b > 0
    ensures Signed(r) == TruncMod(Signed(a), Signed(b))
  {
    var s := SignOf(b);
    AbsPattern(b);
    var ub := NegateIf(b, s);
    s := SignOf(a);
    AbsPattern(a);
    var ua := NegateIf(a, s);
    var uq, ur := UDivMod(ua, ub);
    NegateIfMeaning(ur, a >= HALF);
    r := NegateIf(ur, s);
    SmallPattern(ur, a >= HALF);
  }

  lemma SmallPattern(x: U64, neg: bool)
    requires x < HALF
    ensures neg ==> Signed(Wrap64(Opp(x))) == Opp(x)
    ensures Signed(x) == x
  {
    if x > 0 {
      DivModUnique(Opp(x), D, -1, D - x);
    }
  }

  /** Signed quotient and remainder together: the remainder is a - q * b in 64 bits. */
  method DivModDi(a: U64, b: U64) returns (q: U64, r: U64)
    requires b > 0
    ensures q == TruncDiv(Signed(a), Signed(b)) % D
    ensures Signed(r) == TruncMod(Signed(a), Signed(b))
  {
    q := DivDi(a, b);
    r := (a - (q * b) % D) % D;
    RemainderPattern(a, b, q, r);
  }

  /** Equal modulo 2^64. */
  ghost predicate Congruent(x: int, y: int) { exists k: int :: x == y + k * D }

  lemma CongruentMod(x: int)
    ensures Congruent(x % D, x)
  {
    assert x % D == x + (-(x / D)) * D;
  }

  lemma CongruentMul(x: int, y: int, z: int)
    requires Congruent(x, y)
    ensures Congruent(x * z, y * z) && Congruent(z * x, z * y)
  {
    var k :| x == y + k * D;
    assert x * z == y * z + (k * z) * D;
    assert z * x == z * y + (k * z) * D;
  }

  lemma CongruentSmall(x: int, y: int)
    requires Congruent(x, y) && MIN64 <= x < HALF && MIN64 <= y < HALF
    ensures x == y
  {
    var k :| x == y + k * D;
    if k > 0 { MulLe(1, k, D); } else if k < 0 { MulLe(k, -1, D); }
  }

  lemma SignedCongruent(x: U64)
    ensures Congruent(Signed(x), x) && Congruent(x, Signed(x)) && MIN64 <= Signed(x) < HALF
  {
    if x >= HALF {
      assert Signed(x) == x + (-1) * D;
      assert x == Signed(x) + 1 * D;
    } else {
      assert Signed(x) == x + 0 * D && x == Signed(x) + 0 * D;
    }
  }

  lemma CongruentTrans(x: int, y: int, z: int)
    requires Congruent(x, y) && Congruent(y, z)
    ensures Congruent(x, z)
  {
    var k :| x == y + k * D;
    var l :| y == z + l * D;
    assert x == z + (k + l) * D;
  }

  lemma CongruentSub(x: int, y: int, u: int, v: int)
    requires Congruent(x, y) && Congruent(u, v)
    ensures Congruent(x - u, y - v)
  {
    var k :| x == y + k * D;
    var l :| u == v + l * D;
    assert x - u == (y - v) + (k - l) * D;
  }

  lemma RemainderPattern(a: U64, b: U64, q: U64, r: U64)
    requires b > 0 && q == TruncDiv(Signed(a), Signed(b)) % D
    requires r == (a - (q * b) % D) % D
    ensures Signed(r) == TruncMod(Signed(a), Signed(b))
  {
    var sa, sb := Signed(a), Signed(b);
    var t, m := TruncDiv(sa, sb), TruncMod(sa, sb);
    TruncLaws(sa, sb);
    SignedCongruent(a);
    SignedCongruent(b);
    SignedCongruent(r);
    // q * b is congruent to t * sb
    CongruentMod(t);
    CongruentMul(q, t, b);
    CongruentMul(b, sb, t);
    CongruentTrans(q * b, t * b, t * sb);
    CongruentMod(q * b);
    CongruentTrans((q * b) % D, q * b, t * sb);
    // hence a - q * b is congruent to the remainder
    CongruentSub(a, sa, (q * b) % D, t * sb);
    CongruentMod(a - (q * b) % D);
    CongruentTrans(r, a - (q * b) % D, sa - t * sb);
    CongruentTrans(Signed(r), r, m);
    CongruentSmall(Signed(r), m);
  }

  // ----- multiplication -----

  /** The low word of a product of words. */
  function MulLow(x: U32, y: U32): U32 { (x * y) % W }

  /** State of the shift-and-add loop: the sum so far plus what is left to add is the product. */
  ghost predicate MulInv(w: nat, x: nat, v: nat, product: nat) {
    Congruent(w + x * v, product)
  }

  lemma MulStepOdd(w: nat, x: nat, v: nat, product: nat, w2: nat, x2: nat)
    requires MulInv(w, x, v, product) && v % 2 == 1
    requires Congruent(w2, w + x) && Congruent(x2, 2 * x)
    ensures MulInv(w2, x2, v / 2, product)
  {
    var h := v / 2;
    CongruentMul(x2, 2 * x, h);
    assert x * v == x + (2 * x) * h by { assert v == 2 * h + 1; }
    CongruentAdd(w2, w + x, x2 * h, (2 * x) * h);
    CongruentTrans(w2 + x2 * h, (w + x) + (2 * x) * h, product);
  }

  lemma MulStepEven(w: nat, x: nat, v: nat, product: nat, x2: nat)
    requires MulInv(w, x, v, product) && v % 2 == 0
    requires Congruent(x2, 2 * x)
    ensures MulInv(w, x2, v / 2, product)
  {
    var h := v / 2;
    CongruentMul(x2, 2 * x, h);
    assert x * v == (2 * x) * h by { assert v == 2 * h; }
    CongruentRefl(w);
    CongruentAdd(w, w, x2 * h, (2 * x) * h);
    CongruentTrans(w + x2 * h, w + (2 * x) * h, product);
  }

  lemma CongruentAdd(x: int, y: int, u: int, v: int)
    requires Congruent(x, y) && Congruent(u, v)
    ensures Congruent(x + u, y + v)
  {
    var k :| x == y + k * D;
    var l :| u == v + l * D;
    assert x + u == (y + v) + (k + l) * D;
  }

  lemma CongruentRefl(x: int)
    ensures Congruent(x, x)
  {
    assert x == x + 0 * D;
  }

  /** Adding two double words half by half, the carry found by comparing the low sum. */
  lemma AddHalves(xh: U32, xl: U32, yh: U32, yl: U32)
    ensures var l := (xl + yl) % W;
            var carry := if l < xl then 1 else 0;
            var h := (carry + (yh + xh) % W) % W;
            Congruent(h * W + l, (xh * W + xl) + (yh * W + yl))
  {
    var l := (xl + yl) % W;
    var carry := if l < xl then 1 else 0;
    assert xl + yl == carry * W + l;
    var t := carry + (yh + xh) % W;
    var h := t % W;
    var k := t / W + (yh + xh) / W;
    assert yh + xh + carry == k * W + h;
    assert h * W + l == (xh * W + xl) + (yh * W + yl) + (0 - k) * D;
  }

  /** Doubling a double word: the top bit of the low half moves into the high half. */
  lemma DoubleHalves(xh: U32, xl: U32)
    ensures var h := Or(Shr(xl, 31), Shl(xh, 1) % W);
            var l := Shl(xl, 1) % W;
            h < W && Congruent(h * W + l, 2 * (xh * W + xl))
  {
    ShiftPair(xh, xl, 0);
    OrComm(Shr(xl, 31), Shl(xh, 1) % W);
    OrZero(Shl(xl, 1) % W);
    var h, l := Or(Shl(xh, 1) % W, Shr(xl, 31)), Shl(xl, 1) % W;
    assert h * W + l == 2 * (xh * W + xl) + (0 - Shr(xh, 31) as int) * D;
  }

  /** One round of the multiplication loop. */
  method MulRound(wh0: U32, wl0: U32, tmp0: U32, ul0: U32, vl0: U32, ghost product: nat)
    returns (wh: U32, wl: U32, tmp: U32, ul: U32, vl: U32)
    requires MulInv(wh0 * W + wl0, tmp0 * W + ul0, vl0, product)
    ensures MulInv(wh * W + wl, tmp * W + ul, vl, product) && vl == vl0 / 2
  {
    LowBit(vl0);
    if And(vl0, 1) != 0 {
      wh, wl := AddPair(wh0, wl0, tmp0, ul0);
    } else {
      wh, wl := wh0, wl0;
    }
    tmp, ul := DoublePair(tmp0, ul0);
    vl := Shr(vl0, 1);
    if vl0 % 2 == 1 {
      MulStepOdd(wh0 * W + wl0, tmp0 * W + ul0, vl0, product, wh * W + wl, tmp * W + ul);
    } else {
      MulStepEven(wh0 * W + wl0, tmp0 * W + ul0, vl0, product, tmp * W + ul);
    }
  }

  /** w += tmp:u, half by half. */
  method AddPair(wh0: U32, wl0: U32, tmp0: U32, ul0: U32) returns (wh: U32, wl: U32)
    ensures Congruent(wh * W + wl, (wh0 * W + wl0) + (tmp0 * W + ul0))
  {
    AddHalves(wh0, wl0, tmp0, ul0);
    var newLow := (wl0 + ul0) % W;
    var carry := if newLow < wl0 then 1 else 0;
    wl := newLow;
    wh := (carry + (tmp0 + wh0) % W) % W;
  }

  /** tmp:u doubled, the top bit of u moving up. */
  method DoublePair(tmp0: U32, ul0: U32) returns (tmp: U32, ul: U32)
    ensures Congruent(tmp * W + ul, 2 * (tmp0 * W + ul0))
  {
    DoubleHalves(tmp0, ul0);
    var msb := Shr(ul0, 31);
    ul := Shl(ul0, 1) % W;
    tmp := Or(msb, Shl(tmp0, 1) % W);
  }

  lemma LowBit(x: nat)
    ensures And(x, 1) == x % 2 && Shr(x, 1) == x / 2
  {
    assert Pow2(1) == 2;
    AndLowMask(x, 1);
    ShrOne(x);
  }

  /** 32 x 32 to 64 bit product by shift and add. */
  method MulWords(u: U32, v: U32, ghost product: nat) returns (wh: U32, wl: U32)
    requires product == u * v
    ensures Congruent(wh * W + wl, product)
  {
    var ul: U32, vl: U32, tmp: U32 := u, v, 0;
    wl, wh := 0, 0;
    CongruentRefl(product);
    while true
      invariant MulInv(wh * W + wl, tmp * W + ul, vl, product)
      decreases vl
    {
      wh, wl, tmp, ul, vl := MulRound(wh, wl, tmp, ul, vl, product);
      if vl == 0 {
        break;
      }
    }
    assert (tmp * W + ul) * 0 == 0;
  }

  /** Adding to the high half adds a multiple of 2^32. */
  lemma AddHigh(wh: U32, wl: U32, x: nat)
    ensures Congruent((wh + x % W) % W * W + wl, (wh * W + wl) + x * W)
  {
    var t := wh + x % W;
    assert t == t / W * W + t % W && x == x / W * W + x % W;
    assert t % W * W + wl == (wh * W + wl) + x * W + (0 - (t / W + x / W)) * D;
  }

  lemma CrossTerms(uh: nat, ul: nat, vh: nat, vl: nat)
    ensures (uh * W + ul) * (vh * W + vl)
            == ul * vl + (vl * uh) * W + (ul * vh) * W + (uh * vh) * D
  {
    calc {
      (uh * W + ul) * (vh * W + vl);
      uh * W * (vh * W + vl) + ul * (vh * W + vl);
      { assert uh * W * (vh * W + vl) == uh * W * (vh * W) + uh * W * vl; }
      uh * W * (vh * W) + uh * W * vl + ul * (vh * W) + ul * vl;
    }
  }

  /** The low 64 bits of the product of two 64-bit patterns. */
  method Mul64(u: U64, v: U64) returns (w: U64)
    ensures w == Wrap64(u * v)
  {
    var uh: U32, ul: U32 := u / W, u % W;
    var vh: U32, vl: U32 := v / W, v % W;
    ghost var low: nat, a: nat, b: nat := ul * vl, vl * uh, ul * vh;
    var wh, wl := MulWords(ul, vl, low);
    ghost var w0 := wh * W + wl;
    if uh != 0 {
      AddHigh(wh, wl, a);
      wh := (wh + MulLow(vl, uh)) % W;
    } else {
      CongruentRefl(w0);
    }
    ghost var w1 := wh * W + wl;
    if vh != 0 {
      AddHigh(wh, wl, b);
      wh := (wh + MulLow(ul, vh)) % W;
    } else {
      CongruentRefl(w1);
    }
    w := wh * W + wl;
    CrossTerms(uh, ul, vh, vl);
    SumUp(low, a, b, uh * vh, w0, w1, w, u * v);
  }

  lemma SumUp(low: int, a: int, b: int, top: int, w0: int, w1: int, w: U64, product: int)
    requires Congruent(w0, low) && Congruent(w1, w0 + a * W) && Congruent(w, w1 + b * W)
    requires product == low + a * W + b * W + top * D
    ensures w == Wrap64(product)
  {
    CongruentRefl(a * W);
    CongruentRefl(b * W);
    CongruentAdd(w0, low, a * W, a * W);
    CongruentTrans(w1, w0 + a * W, low + a * W);
    CongruentAdd(w1, low + a * W, b * W, b * W);
    CongruentTrans(w, w1 + b * W, low + a * W + b * W);
    var k :| w == low + a * W + b * W + k * D;
    DivModUnique(product, D, top - k, w);
  }
}
