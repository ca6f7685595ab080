/** 64-bit division on 32-bit halves: special cases, normalisation by leading zeros, and the
    shift-subtract loop with its delayed carry and branch-free comparison. */
module Int64Div {
  import opened Bits
  import opened Int64Count

  const HALF: nat := 0x8000_0000_0000_0000

  // ----- shifting a pair of halves -----

  /** The part of a word that a left shift keeps and the part it pushes out. */
  lemma ShiftParts(x: U32, p: nat, q: nat)
    requires p > 0 && q > 0 && p * q == W
    ensures (x * q) % W == (x % p) * q && (x * q) / W == x / p
    ensures (x % p) * q + q <= W
  {
    var h, l := x / p, x % p;
    assert x == h * p + l;
    assert x * q == h * (p * q) + l * q;
    MulLe(l + 1, p, q);
    assert (l + 1) * q == l * q + q;
    DivModUnique(x * q, W, h, l * q);
  }

  lemma SplitPowers(k: nat)
    requires 1 <= k <= 31
    ensures Pow2(k) * Pow2(32 - k) == W && Pow2(32 + k) == Pow2(k) * W
    ensures Pow2(64 - k) == Pow2(32 - k) * W
    ensures Pow2(64 - (32 + k)) == Pow2(32 - k)
  {
    Pow2Word();
    Pow2Add(k, 32 - k);
    Pow2Add(k, 32);
    Pow2Add(32 - k, 32);
  }

  lemma KeptBits(x: U32, k: nat)
    requires 1 <= k <= 31
    ensures Shl(x, 32 - k) % W == (x % Pow2(k)) * Pow2(32 - k)
    ensures (x % Pow2(k)) * Pow2(32 - k) + Pow2(32 - k) <= W
  {
    SplitPowers(k);
    ShlIsMul(x, 32 - k);
    ShiftParts(x, Pow2(k), Pow2(32 - k));
  }

  lemma DivBelow(x: nat, p: nat, q: nat)
    requires p > 0 && x < p * q
    ensures x / p < q
  {
    var h := x / p;
    assert x == h * p + x % p;
    if h >= q {
      MulLe(q, h, p);
    }
  }

  /** Joining the low bits of one word with the high bits of the next. */
  lemma FunnelShift(hi: U32, lo: U32, k: nat)
    requires 1 <= k <= 31
    ensures Or(Shl(hi, 32 - k) % W, Shr(lo, k)) == (hi % Pow2(k)) * Pow2(32 - k) + lo / Pow2(k)
    ensures (hi % Pow2(k)) * Pow2(32 - k) + lo / Pow2(k) < W
  {
    SplitPowers(k);
    KeptBits(hi, k);
    ShrIsDiv(lo, k);
    DivBelow(lo, Pow2(k), Pow2(32 - k));
    OrDisjoint(hi % Pow2(k), lo / Pow2(k), 32 - k);
  }

  /** What the loop starts from, with p = 2^sr and s = 2^(64 - sr): r holds n >> sr, and the low
      sr digits of n sit at the top of q. */
  ghost predicate Started(n: nat, sr: nat, r: nat, q: nat, low: nat)
    requires sr <= 64
  {
    low < Pow2(sr) && n == r * Pow2(sr) + low && q == low * Pow2(64 - sr)
  }

  lemma Associate(a: int, b: int, c: int)
    ensures (a * b) * c == a * (b * c)
  {
  }

  lemma LowIdentity(h: nat, l: nat, a: nat, b: nat, p: nat, q: nat, w: nat)
    requires p * q == w
    ensures (h * p + l) * w + (a * p + b) == (h * w + (l * q + a)) * p + b
  {
    calc {
      (h * w + (l * q + a)) * p + b;
      h * w * p + l * q * p + a * p + b;
      { assert l * q * p == l * (p * q); }
      h * w * p + l * w + a * p + b;
      { assert h * w * p == h * p * w; }
      (h * p + l) * w + (a * p + b);
    }
  }

  lemma LowCore(nh: nat, nl: nat, p: nat, q: nat, w: nat, rh: nat, rl: nat, qh: nat)
    requires p > 0 && p * q == w
    requires rh == nh / p && rl == (nh % p) * q + nl / p && qh == (nl % p) * q
    ensures nh * w + nl == (rh * w + rl) * p + nl % p
    ensures qh * w == (nl % p) * (q * w)
  {
    DivModBack(nh, p);
    DivModBack(nl, p);
    LowIdentity(nh / p, nh % p, nl / p, nl % p, p, q, w);
    Associate(nl % p, q, w);
  }

  /** Set-up for a shift of less than a word. */
  lemma StartLow(nh: U32, nl: U32, sr: nat)
    requires 1 <= sr <= 31
    ensures Or(Shl(nh, 32 - sr) % W, Shr(nl, sr)) < W && Shr(nh, sr) < W
    ensures Started(nh * W + nl, sr, Shr(nh, sr) * W + Or(Shl(nh, 32 - sr) % W, Shr(nl, sr)),
                    Shl(nl, 32 - sr) % W * W, nl % Pow2(sr))
  {
    FunnelShift(nh, nl, sr);
    KeptBits(nl, sr);
    ShrIsDiv(nh, sr);
    DivBelow(nh, Pow2(sr), W);
    StartLowParts(nh, nl, sr, Shr(nh, sr), Or(Shl(nh, 32 - sr) % W, Shr(nl, sr)), Shl(nl, 32 - sr) % W);
  }

  lemma StartLowParts(nh: U32, nl: U32, sr: nat, rh: nat, rl: nat, qh: nat)
    requires 1 <= sr <= 31 && rh == nh / Pow2(sr)
    requires rl == (nh % Pow2(sr)) * Pow2(32 - sr) + nl / Pow2(sr) && qh == (nl % Pow2(sr)) * Pow2(32 - sr)
    ensures Started(nh * W + nl, sr, rh * W + rl, qh * W, nl % Pow2(sr))
  {
    SplitPowers(sr);
    LowCore(nh, nl, Pow2(sr), Pow2(32 - sr), W, rh, rl, qh);
  }

  lemma DivModBack(x: nat, p: nat)
    requires p > 0
    ensures x == (x / p) * p + x % p && x % p < p
  {
  }

  lemma StartWord(nh: U32, nl: U32)
    ensures Started(nh * W + nl, 32, nh, nl * W, nl)
  {
    Pow2Word();
  }

  lemma HighIdentity(h: nat, l: nat, a: nat, b: nat, p: nat, q: nat, w: nat)
    requires p * q == w
    ensures (l * w + (a * p + b)) * q == (l * q + a) * w + b * q
    ensures (h * p + l) * w == h * (p * w) + l * w
  {
    calc {
      (l * w + (a * p + b)) * q;
      l * w * q + a * p * q + b * q;
      { Associate(a, p, q); }
      l * w * q + a * w + b * q;
      { assert l * w * q == l * q * w; }
      (l * q + a) * w + b * q;
    }
    Associate(h, p, w);
  }

  lemma HighCore(nh: nat, nl: nat, p: nat, q: nat, w: nat, rl: nat, qh: nat, ql: nat)
    requires p > 0 && p * q == w && nl < w
    requires rl == nh / p && qh == (nh % p) * q + nl / p && ql == (nl % p) * q
    ensures (nh % p) * w + nl < p * w
    ensures nh * w + nl == rl * (p * w) + ((nh % p) * w + nl)
    ensures qh * w + ql == ((nh % p) * w + nl) * q
  {
    DivModBack(nh, p);
    DivModBack(nl, p);
    HighIdentity(nh / p, nh % p, nl / p, nl % p, p, q, w);
    MulLe(nh % p + 1, p, w);
    assert (nh % p + 1) * w == (nh % p) * w + w;
  }

  /** Set-up for a shift of more than a word. */
  lemma StartHigh(nh: U32, nl: U32, k: nat)
    requires 1 <= k <= 31
    ensures Or(Shl(nh, 32 - k) % W, Shr(nl, k)) < W && Shr(nh, k) < W
    ensures Started(nh * W + nl, 32 + k, Shr(nh, k),
                    Or(Shl(nh, 32 - k) % W, Shr(nl, k)) * W + Shl(nl, 32 - k) % W, nh % Pow2(k) * W + nl)
  {
    SplitPowers(k);
    FunnelShift(nh, nl, k);
    KeptBits(nl, k);
    ShrIsDiv(nh, k);
    DivBelow(nh, Pow2(k), W);
    HighCore(nh, nl, Pow2(k), Pow2(32 - k), W, Shr(nh, k),
             Or(Shl(nh, 32 - k) % W, Shr(nl, k)), Shl(nl, 32 - k) % W);
  }

  // ----- the loop -----

  lemma OrBit(z: nat, c: nat)
    requires c <= 1
    ensures Or(2 * z, c) == 2 * z + c
  {
    assert Pow2(1) == 2;
    OrDisjoint(z, c, 1);
  }

  lemma TopBit(x: U32)
    ensures Shr(x, 31) == x / 0x8000_0000 && Shr(x, 31) <= 1
  {
    Pow2Word();
    ShrIsDiv(x, 31);
  }

  /** A word shifted left by one, with a bit coming in from below: the bit that leaves at the top
      and what stays. */
  lemma ShiftWord(x: U32, c: nat)
    requires c <= 1
    ensures Shr(x, 31) <= 1 && Or(Shl(x, 1) % W, c) < W
    ensures 2 * x + c == Shr(x, 31) * W + Or(Shl(x, 1) % W, c)
  {
    TopBit(x);
    var y := x % 0x8000_0000;
    ShlIsMul(x, 1);
    assert Pow2(1) == 2;
    assert Shl(x, 1) % W == 2 * y;
    OrBit(y, c);
  }

  /** All ones if the signed reading of `x` is negative, else zero: (int64_t)x >> 63. */
  function SignMask(x: U64): U64 { if x >= HALF then D - 1 else 0 }

  lemma SignMaskSelects(x: U64, y: U64)
    ensures And(y, SignMask(x)) == if x >= HALF then y else 0
    ensures And(SignMask(x), 1) == if x >= HALF then 1 else 0
  {
    Pow2Dword();
    assert Pow2(1) == 2;
    AndLowMask(y, 64);
    DivModUnique(y, D, 0, y);
    AndLowMask(SignMask(x), 1);
  }

  /** The bit-length bound under which the sign of d - r - 1 decides r >= d: either the divisor
      leaves room for a sign bit, or there is a single step to do and both numbers are large. */
  ghost predicate Bounded(n: nat, d: nat, sr: nat) {
    d < HALF || sr == 0 || (sr == 1 && n >= HALF)
  }

  /** State between two iterations.  With sr digits of n (the number `low`) still to be consumed,
      the digits already consumed equal (2b + carry) * d + r; the digits to come sit at the top of
      q and b sits at the bottom. */
  ghost predicate LoopInv(n: nat, d: nat, sr: nat, r: nat, q: nat, carry: nat, b: nat, low: nat)
    requires sr <= 64
  {
    && carry <= 1 && r < d && low < Pow2(sr)
    && n == ((2 * b + carry) * d + r) * Pow2(sr) + low
    && q == low * Pow2(64 - sr) + b
  }

  lemma QuotientFits(n: nat, d: nat, x: nat, r: nat, p: nat, s: nat, low: nat)
    requires n < p * s && d > 0 && p > 0 && n == (x * d + r) * p + low
    ensures x < s
  {
    MulLe(1, d, x);
    if x * d + r >= s {
      MulLe(s, x * d + r, p);
    }
  }

  /** Taking the next digit off `low`. */
  lemma DigitIdentity(y: nat, low: nat, b: nat, p: nat, s: nat, half: nat) returns (digit: nat, rest: nat)
    requires p > 0 && low < 2 * p && p * s == half && b < s
    ensures digit <= 1 && rest < p && low == digit * p + rest
    ensures y * (2 * p) + low == (2 * y + digit) * p + rest
    ensures low * s + b == digit * half + (rest * s + b) && rest * s + b < half
  {
    digit, rest := if low >= p then 1 else 0, if low >= p then low - p else low;
    assert y * (2 * p) == (2 * y) * p;
    assert low * s == digit * (p * s) + rest * s;
    MulLe(rest + 1, p, s);
    assert (rest + 1) * s == rest * s + s;
  }

  lemma SubtractIdentity(x: nat, c2: nat, d: nat, r: nat, digit: nat)
    ensures (2 * x + c2) * d + (2 * r + digit - c2 * d) == 2 * (x * d + r) + digit
  {
    assert (2 * x + c2) * d == 2 * (x * d) + c2 * d;
  }

  lemma StepCore(n: nat, d: nat, x: nat, r: nat, b: nat, low: nat, p: nat, s: nat, q: nat)
    returns (digit: nat, rest: nat)
    requires p > 0 && d > 0 && b <= x && p * s == HALF && n < (2 * p) * s
    requires low < 2 * p && n == (x * d + r) * (2 * p) + low && q == low * s + b
    ensures digit == q / HALF <= 1 && q - digit * HALF < HALF && rest < p
    ensures n == (2 * (x * d + r) + digit) * p + rest
    ensures 2 * (q - digit * HALF) == rest * (2 * s) + 2 * b
  {
    QuotientFits(n, d, x, r, 2 * p, s, low);
    digit, rest := DigitIdentity(x * d + r, low, b, p, s, HALF);
    DivModUnique(q, HALF, digit, rest * s + b);
    assert rest * (2 * s) == 2 * (rest * s);
  }

  lemma StepPowers(sr: nat)
    requires 1 <= sr <= 63
    ensures Pow2(sr) == 2 * Pow2(sr - 1) && Pow2(65 - sr) == 2 * Pow2(64 - sr)
    ensures Pow2(sr - 1) * Pow2(64 - sr) == HALF && Pow2(sr) * Pow2(64 - sr) == D
  {
    Pow2Dword();
    Pow2Add(sr - 1, 64 - sr);
    Pow2Add(sr, 64 - sr);
  }

  /** One iteration on numbers: the digit that leaves q at the top is the next digit of n. */
  lemma StepKeeps(n: nat, d: nat, sr: nat, r: nat, q: nat, carry: nat, b: nat, low: nat)
    returns (digit: nat, rest: nat)
    requires 1 <= sr <= 63 && 0 < d && n < D && LoopInv(n, d, sr, r, q, carry, b, low)
    ensures digit == q / HALF <= 1 && q - digit * HALF < HALF && rest < Pow2(sr - 1)
    ensures n == (2 * ((2 * b + carry) * d + r) + digit) * Pow2(sr - 1) + rest
    ensures 2 * (q - digit * HALF) + carry == rest * Pow2(65 - sr) + (2 * b + carry)
  {
    StepPowers(sr);
    digit, rest := StepCore(n, d, 2 * b + carry, r, b, low, Pow2(sr - 1), Pow2(64 - sr), q);
  }

  /** On every iteration the sign bit of d - r - 1 says whether r >= d. */
  lemma SignTest(n: nat, d: nat, sr: nat, r: nat, digit: nat, x: nat, rest: nat)
    requires 1 <= sr <= 63 && 0 < d < D && n < D && r < d && digit <= 1 && Bounded(n, d, sr)
    requires rest < Pow2(sr - 1)
    requires n == (2 * (x * d + r) + digit) * Pow2(sr - 1) + rest
    ensures var r' := 2 * r + digit;
            r' < D && ((d - r' - 1) % D >= HALF <==> r' >= d)
  {
    var r' := 2 * r + digit;
    if d >= HALF {
      assert Pow2(0) == 1;
      assert (2 * (x * d + r) + digit) * 1 == 2 * (x * d + r) + digit;
      if x > 0 {
        MulLe(1, x, d);
        assert false;
      }
      assert x * d == 0;
    }
    if r' >= d {
      DivModUnique(d - r' - 1, D, -1, D + d - r' - 1);
    } else {
      DivModUnique(d - r' - 1, D, 0, d - r' - 1);
    }
  }

  /** One iteration of the loop keeps the state relation. */
  lemma IterationKeeps(n: nat, d: nat, sr: nat, r: nat, q: nat, carry: nat, b: nat, low: nat, r2: nat, q2: nat, c2: nat)
    returns (rest: nat)
    requires 1 <= sr <= 63 && 0 < d && n < D && LoopInv(n, d, sr, r, q, carry, b, low)
    requires c2 == (if 2 * r + q / HALF >= d then 1 else 0)
    requires r2 == 2 * r + q / HALF - c2 * d
    requires q2 == 2 * (q - q / HALF * HALF) + carry
    ensures LoopInv(n, d, sr - 1, r2, q2, c2, 2 * b + carry, rest)
  {
    var digit;
    digit, rest := StepKeeps(n, d, sr, r, q, carry, b, low);
    SubtractIdentity(2 * b + carry, c2, d, r, digit);
  }

  /** Shifting both halves of a pair, with a bit coming in from below. */
  lemma ShiftPair(hi: U32, lo: U32, c: nat)
    requires c <= 1
    ensures var h, l := Or(Shl(hi, 1) % W, Shr(lo, 31)), Or(Shl(lo, 1) % W, c);
            h < W && l < W && 2 * (hi * W + lo) + c == Shr(hi, 31) * D + (h * W + l)
    ensures Shr(hi, 31) == (hi * W + lo) / HALF && Shr(hi, 31) <= 1
  {
    TopBit(hi);
    ShiftWord(lo, c);
    ShiftWord(hi, Shr(lo, 31));
    DivModUnique(hi * W + lo, HALF, hi / 0x8000_0000, hi % 0x8000_0000 * W + lo);
  }

  /** The branch-free comparison and subtraction. */
  lemma CompareSubtract(r: U64, d: U64)
    requires (d - r - 1) % D >= HALF <==> r >= d
    ensures var s := SignMask((d - r - 1) % D);
            && And(s, 1) == (if r >= d then 1 else 0)
            && (r - And(d, s)) % D == if r >= d then r - d else r
  {
    SignMaskSelects((d - r - 1) % D, d);
    DivModUnique(if r >= d then r - d else r, D, 0, if r >= d then r - d else r);
  }

  /** A pair of halves shifted left by one with a bit coming in from below; `out` is the bit that
      leaves at the top. */
  method ShiftLeft(hi: U32, lo: U32, c: nat) returns (h: U32, l: U32, out: nat)
    requires c <= 1
    ensures 2 * (hi * W + lo) + c == out * D + (h * W + l)
    ensures out == (hi * W + lo) / HALF && out <= 1
  {
    ShiftPair(hi, lo, c);
    h := Or(Shl(hi, 1) % W, Shr(lo, 31));
    l := Or(Shl(lo, 1) % W, c);
    out := Shr(hi, 31);
  }

  /** One iteration of the loop: shift r:q left by one with the old carry coming in, then compare
      and subtract without branching. */
  method Iterate(ghost n: U64, d: U64, ghost sr: nat, rh0: U32, rl0: U32, qh0: U32, ql0: U32, c0: nat,
                 ghost b: nat, ghost low: nat)
    returns (rh: U32, rl: U32, qh: U32, ql: U32, carry: nat, ghost low': nat)
    requires d > 0 && 1 <= sr <= 63 && Bounded(n, d, sr)
    requires LoopInv(n, d, sr, rh0 * W + rl0, qh0 * W + ql0, c0, b, low)
    ensures LoopInv(n, d, sr - 1, rh * W + rl, qh * W + ql, carry, 2 * b + c0, low')
  {
    ghost var r0, q0 := rh0 * W + rl0, qh0 * W + ql0;
    var digit, out;
    qh, ql, digit := ShiftLeft(qh0, ql0, c0);
    rh, rl, out := ShiftLeft(rh0, rl0, digit);
    Shifted(n, d, sr, r0, q0, c0, b, low, rh * W + rl, out);
    var r;
    r, carry := Subtract(rh * W + rl, d);
    low' := IterationKeeps(n, d, sr, r0, q0, c0, b, low, r, qh * W + ql, carry);
    rh, rl := r / W, r % W;
  }

  /** The shift of r never overflows, and the sign test is right afterwards. */
  lemma Shifted(n: U64, d: U64, sr: nat, r: nat, q: nat, carry: nat, b: nat, low: nat, r2: U64, out: nat)
    requires d > 0 && 1 <= sr <= 63 && Bounded(n, d, sr)
    requires LoopInv(n, d, sr, r, q, carry, b, low)
    requires 2 * r + q / HALF == out * D + r2
    ensures out == 0
    ensures (d - r2 - 1) % D >= HALF <==> r2 >= d
  {
    var digit, rest := StepKeeps(n, d, sr, r, q, carry, b, low);
    SignTest(n, d, sr, r, digit, 2 * b + carry, rest);
  }

  method Subtract(r: U64, d: U64) returns (r2: U64, carry: nat)
    requires (d - r - 1) % D >= HALF <==> r >= d
    ensures carry == (if r >= d then 1 else 0)
    ensures r2 == if r >= d then r - d else r
  {
    CompareSubtract(r, d);
    var s := SignMask((d - r - 1) % D);
    carry := And(s, 1);
    r2 := (r - And(d, s)) % D;
  }

  lemma LoopEntry(n: nat, d: nat, start: nat, r: nat, q: nat, low: nat)
    requires start <= 64 && Started(n, start, r, q, low) && r < d
    ensures LoopInv(n, d, start, r, q, 0, 0, low)
  {
    assert (2 * 0 + 0) * d == 0;
  }

  /** The shift-subtract loop. */
  method ShiftSubtract(ghost n: U64, d: U64, start: nat, rh0: U32, rl0: U32, qh0: U32, ql0: U32, ghost low0: nat)
    returns (q: U64, rem: U64)
    requires d > 0 && 1 <= start <= 63
    requires Started(n, start, rh0 * W + rl0, qh0 * W + ql0, low0)
    requires rh0 * W + rl0 < d && Bounded(n, d, start)
    ensures q == n / d && rem == n % d
  {
    var rh: U32, rl: U32, qh: U32, ql: U32 := rh0, rl0, qh0, ql0;
    var carry: nat, sr := 0, start;
    ghost var b: nat, low: nat := 0, low0;
    LoopEntry(n, d, start, rh0 * W + rl0, qh0 * W + ql0, low0);
    while sr > 0
      invariant 0 <= sr <= start
      invariant LoopInv(n, d, sr, rh * W + rl, qh * W + ql, carry, b, low)
      invariant Bounded(n, d, sr)
    {
      ghost var c0 := carry;
      rh, rl, qh, ql, carry, low := Iterate(n, d, sr, rh, rl, qh, ql, carry, b, low);
      b := 2 * b + c0;
      sr := sr - 1;
    }
    rem := rh * W + rl;
    q := LastDigit(n, d, rem, qh * W + ql, carry, b, low);
  }

  /** The delayed carry becomes the last digit of the quotient. */
  method LastDigit(ghost n: U64, ghost d: U64, ghost r: nat, q0: U64, carry: nat, ghost b: nat, ghost low: nat) returns (q: U64)
    requires d > 0 && LoopInv(n, d, 0, r, q0, carry, b, low)
    ensures q == n / d && r == n % d
  {
    FinalQuotient(n, d, r, q0, carry, b, low);
    q := Or((2 * q0) % D, carry);
  }

  lemma FinalQuotient(n: U64, d: U64, r: nat, q: nat, carry: nat, b: nat, low: nat)
    requires d > 0 && LoopInv(n, d, 0, r, q, carry, b, low)
    ensures Or((2 * q) % D, carry) == n / d < D && r == n % d
  {
    assert Pow2(0) == 1 && low == 0 && q == b;
    assert ((2 * b + carry) * d + r) * 1 == (2 * b + carry) * d + r;
    DivModUnique(n, d, 2 * b + carry, r);
    MulLe(1, d, 2 * b + carry);
    DivModUnique(2 * b, D, 0, 2 * b);
    OrBit(b, carry);
  }

  // ----- the division -----

  /** The shift count is chosen from the bit lengths so that r < d on loop entry and the sign test
      has room. */
  lemma EntryBound(n: U64, d: U64, sr: nat, r: nat, q: nat, low: nat)
    requires n > 0 && d > 0 && 1 <= sr <= 63
    requires sr == BitLen(n) - BitLen(d) + 1
    requires Started(n, sr, r, q, low)
    ensures r < d && Bounded(n, d, sr)
  {
    BitLenBounds(n);
    BitLenBounds(d);
    Pow2Add(sr, BitLen(d) - 1);
    TopFits(n, r, Pow2(sr), low, Pow2(BitLen(d) - 1));
    if d >= HALF {
      LargeIs64(d);
      AtMost64(n);
      LargeFrom64(n);
    }
  }

  lemma TopFits(n: nat, r: nat, p: nat, low: nat, t: nat)
    requires n == r * p + low && n < p * t
    ensures r < t
  {
    if r >= t {
      MulLe(t, r, p);
    }
  }

  lemma AtMost64(n: U64)
    requires n > 0
    ensures BitLen(n) <= 64
  {
    Pow2Dword();
    BitLenBounds(n);
    if BitLen(n) > 64 {
      Pow2Le(64, BitLen(n) - 1);
    }
  }

  lemma LargeIs64(d: U64)
    requires d >= HALF
    ensures BitLen(d) == 64
  {
    Pow2Dword();
    BitLenUnique(d, 64);
  }

  lemma LargeFrom64(n: U64)
    requires n > 0
    ensures BitLen(n) == 64 ==> n >= HALF
  {
    Pow2Dword();
    BitLenBounds(n);
  }

  /** r = n >> sr and q = n << (64 - sr), by halves. */
  method SetUp(nh: U32, nl: U32, sr: nat) returns (rh: U32, rl: U32, qh: U32, ql: U32, ghost low: nat)
    requires 1 <= sr <= 63
    ensures Started(nh * W + nl, sr, rh * W + rl, qh * W + ql, low)
  {
    if sr == 32 {
      ql := 0;
      qh := nl;
      rh := 0;
      rl := nh;
      low := nl;
      StartWord(nh, nl);
    } else if sr < 32 {
      StartLow(nh, nl, sr);
      ql := 0;
      qh := Shl(nl, 32 - sr) % W;
      rh := Shr(nh, sr);
      rl := Or(Shl(nh, 32 - sr) % W, Shr(nl, sr));
      low := nl % Pow2(sr);
    } else {
      StartHigh(nh, nl, sr - 32);
      ql := Shl(nl, 64 - sr) % W;
      qh := Or(Shl(nh, 64 - sr) % W, Shr(nl, sr - 32));
      rh := 0;
      rl := Shr(nh, sr - 32);
      low := nh % Pow2(sr - 32) * W + nl;
    }
  }

  /** Division by shifting, once the shift count is known. */
  method Normalised(ghost n: U64, nh: U32, nl: U32, d: U64, sr: nat) returns (q: U64, rem: U64)
    requires n == nh * W + nl && n > 0 && d > 0 && 1 <= sr <= 63
    requires sr == BitLen(n) - BitLen(d) + 1
    ensures q == n / d && rem == n % d
  {
    var rh, rl, qh, ql;
    ghost var low;
    rh, rl, qh, ql, low := SetUp(nh, nl, sr);
    EntryBound(n, d, sr, rh * W + rl, qh * W + ql, low);
    q, rem := ShiftSubtract(n, d, sr, rh, rl, qh, ql, low);
  }

  lemma SmallerParts(n: nat, d: nat)
    requires d > 0
    ensures n / d <= n && n % d < d
  {
    DivModBack(n, d);
    MulLe(1, d, n / d);
  }

  lemma SmallQuotient(n: nat, d: nat)
    requires n < d
    ensures n / d == 0 && n % d == n
  {
    DivModUnique(n, d, 0, n);
  }

  lemma ShorterIsLess(x: nat, y: nat)
    requires BitLen(x) < BitLen(y)
    ensures x < y
  {
    if x > 0 {
      BitLenBounds(x);
      BitLenBounds(y);
      Pow2Le(BitLen(x), BitLen(y) - 1);
    }
  }

  lemma WordBits(x: U32)
    ensures BitLen(x) <= 32 && (x > 0 ==> BitLen(x) >= 1)
  {
    Pow2Word();
    if x > 0 {
      BitLenBounds(x);
      if BitLen(x) > 32 {
        Pow2Le(32, BitLen(x) - 1);
      }
    }
  }

  /** A word of one bit is a power of two. */
  lemma OneBitIsPower(x: U32)
    requires x > 0 && BitLen(x) < 2
    ensures And(x, x - 1) == 0
  {
    BitLenBounds(x);
    assert Pow2(0) == 1 && Pow2(1) == 2;
    PowerOfTwoTest(x);
    assert TrailingZeros(1) == 0;
  }

  lemma NotPowerIsLong(x: U32)
    requires x > 0 && And(x, x - 1) != 0
    ensures BitLen(x) >= 2
  {
    if BitLen(x) < 2 {
      OneBitIsPower(x);
    }
  }

  /** Unsigned 32-bit subtraction of small numbers. */
  lemma Wrap32(x: int)
    requires -32 <= x <= 32
    ensures x % W == if x >= 0 then x else x + W
  {
  }

  lemma PairBits(n: U64, nh: U32, nl: U32)
    requires n == nh * W + nl && nh > 0
    ensures BitLen(n) == 32 + BitLen(nh) && 1 <= BitLen(nh) <= 32
  {
    BitLenOfPair(nh, nl);
    WordBits(nh);
  }

  /** The shift count from the leading zeros of the high halves.  The unsigned difference exceeds
      the limit exactly when the divisor is the longer number, and then it is the larger one. */
  method ByLeadingZeros(ghost n: U64, d: U64, nh: U32, nl: U32, dh: U32, ghost dl: U32, limit: nat)
    returns (q: U64, rem: U64)
    requires n == nh * W + nl && d == dh * W + dl && nh > 0 && dh > 0
    requires limit == 31 || (limit == 30 && BitLen(dh) >= 2)
    ensures q == n / d && rem == n % d
  {
    var cd := Clz32(dh);
    var cn := Clz32(nh);
    PairBits(n, nh, nl);
    PairBits(d, dh, dl);
    Wrap32(cd - cn);
    var sr := (cd - cn) % W;
    if sr > limit {
      ShorterIsLess(n, d);
      SmallQuotient(n, d);
      return 0, nh * W + nl;
    }
    q, rem := Normalised(n, nh, nl, d, sr + 1);
  }

  /** Divisor with low half zero: K X / K 0. */
  method DivByHigh(ghost n: U64, d: U64, nh: U32, nl: U32, dh: U32) returns (q: U64, rem: U64)
    requires n == nh * W + nl && d == dh * W && nh > 0 && dh > 0
    ensures q == n / d && rem == n % d
  {
    if nl == 0 {
      q, rem := DivByHighOnly(n, d, nh, dh);
      return;
    }
    if And(dh, dh - 1) == 0 {
      q, rem := DivByHighPower(n, d, nh, nl, dh);
      return;
    }
    NotPowerIsLong(dh);
    q, rem := ByLeadingZeros(n, d, nh, nl, dh, 0, 30);
  }

  /** K 0 / K 0. */
  method DivByHighOnly(ghost n: U64, d: U64, nh: U32, dh: U32) returns (q: U64, rem: U64)
    requires n == nh * W && d == dh * W && dh > 0
    ensures q == n / d && rem == n % d
  {
    HighQuotient(n, d, nh, 0, dh);
    SmallerParts(n, d);
    q, rem := nh / dh, nh % dh * W;
  }

  method DivByHighPower(ghost n: U64, d: U64, nh: U32, nl: U32, dh: U32) returns (q: U64, rem: U64)
    requires n == nh * W + nl && d == dh * W && dh > 0 && And(dh, dh - 1) == 0
    ensures q == n / d && rem == n % d
  {
    PowerOfTwoTest(dh);
    var k := Ctz32(dh);
    PowerHighQuotient(n, d, nh, nl, dh, k);
    SmallerParts(n, d);
    q, rem := Shr(nh, k), And(nh, dh - 1) * W + nl;
  }

  lemma HighIdentity2(nh: nat, nl: nat, dh: nat, q: nat, r: nat, w: nat)
    requires nh == q * dh + r && r < dh && nl < w
    ensures nh * w + nl == q * (dh * w) + (r * w + nl)
    ensures r * w + nl < dh * w
  {
    Associate(q, dh, w);
    assert (q * dh + r) * w == q * dh * w + r * w;
    MulLe(r + 1, dh, w);
    assert (r + 1) * w == r * w + w;
  }

  lemma HighQuotient(n: U64, d: U64, nh: U32, nl: U32, dh: U32)
    requires n == nh * W + nl && d == dh * W && dh > 0
    ensures n / d == nh / dh && n % d == nh % dh * W + nl
  {
    DivModBack(nh, dh);
    HighParts(nh, nl, dh, nh / dh, nh % dh, W, n, d);
  }

  lemma HighParts(nh: nat, nl: nat, dh: nat, q: nat, r: nat, w: nat, n: nat, d: nat)
    requires nh == q * dh + r && r < dh && nl < w && n == nh * w + nl && d == dh * w
    ensures d > 0 && n / d == q && n % d == r * w + nl
  {
    HighIdentity2(nh, nl, dh, q, r, w);
    DivModUnique(n, d, q, r * w + nl);
  }

  /** A power of two divisor that is a multiple of 2^32. */
  lemma PowerHighQuotient(n: U64, d: U64, nh: U32, nl: U32, dh: U32, k: nat)
    requires n == nh * W + nl && d == dh * W && dh == Pow2(k)
    ensures n / d == Shr(nh, k) && n % d == And(nh, dh - 1) * W + nl
  {
    AndLowMask(nh, k);
    ShrIsDiv(nh, k);
    HighQuotient(n, d, nh, nl, dh);
  }

  /** A power of two divisor below 2^32. */
  lemma PowerQuotient(n: U64, nh: U32, nl: U32, dl: U32, k: nat)
    requires n == nh * W + nl && 1 <= k <= 31 && dl == Pow2(k)
    ensures var qh, ql := Shr(nh, k), Or(Shl(nh, 32 - k) % W, Shr(nl, k));
            qh < W && ql < W && n / dl == qh * W + ql
    ensures n % dl == nl % dl == And(nl, dl - 1) < W
  {
    StartLow(nh, nl, k);
    AndLowMask(nl, k);
    DivModUnique(n, dl, Shr(nh, k) * W + Or(Shl(nh, 32 - k) % W, Shr(nl, k)), nl % dl);
  }

  /** One-word divisor: K X / 0 K. */
  method DivByLow(ghost n: U64, nh: U32, nl: U32, dl: U32) returns (q: U64, rem: U64)
    requires n == nh * W + nl && nh > 0 && dl > 0
    ensures q == n / dl && rem == n % dl
  {
    if And(dl, dl - 1) == 0 {
      if dl == 1 {
        return nh * W + nl, And(nl, dl - 1);
      }
      PowerOfTwoTest(dl);
      BelowWord(dl);
      var sr := Ctz32(dl);
      assert Pow2(0) == 1;
      PowerQuotient(n, nh, nl, dl, sr);
      var qh := Shr(nh, sr);
      var ql := Or(Shl(nh, 32 - sr) % W, Shr(nl, sr));
      return qh * W + ql, And(nl, dl - 1);
    }
    var cd := Clz32(dl);
    var cn := Clz32(nh);
    PairBits(n, nh, nl);
    WordBits(dl);
    NotPowerIsLong(dl);
    q, rem := Normalised(n, nh, nl, dl, 1 + 32 + cd - cn);
  }

  /** Two-word divisor with both halves non-zero: K X / K K. */
  method DivByBoth(ghost n: U64, d: U64, nh: U32, nl: U32, dh: U32, dl: U32) returns (q: U64, rem: U64)
    requires n == nh * W + nl && d == dh * W + dl && nh > 0 && dh > 0 && dl > 0
    ensures q == n / d && rem == n % d
  {
    q, rem := ByLeadingZeros(n, d, nh, nl, dh, dl, 31);
  }

  /** Unsigned division of any dividend by any non-zero divisor. */
  method UDivMod(a: U64, b: U64) returns (q: U64, rem: U64)
    requires b > 0
    ensures q == a / b && rem == a % b
  {
    var nh: U32, nl: U32 := a / W, a % W;
    var dh: U32, dl: U32 := b / W, b % W;
    if nh == 0 {
      if dh == 0 {
        return nl / dl, nl % dl;
      }
      SmallQuotient(a, b);
      return 0, nl;
    }
    if dl == 0 {
      q, rem := DivByHigh(a, b, nh, nl, dh);
    } else if dh == 0 {
      q, rem := DivByLow(a, nh, nl, dl);
    } else {
      q, rem := DivByBoth(a, b, nh, nl, dh, dl);
    }
  }
}
