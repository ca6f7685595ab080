/** Immediate operands of RV32 instructions: the decoders, and the encodings of section 2.3 of the
    RISC-V Unprivileged ISA that they invert. */
module RvImmediate {
  import opened Bits
  import opened Int64Count

  /** Bits hi down to lo of a word. */
  function Field(x: nat, hi: nat, lo: nat): (f: nat)
    requires lo <= hi
    ensures f < Pow2(hi - lo + 1)
  {
    x / Pow2(lo) % Pow2(hi - lo + 1)
  }

  /** Sign extension of a field to 64 bits. */
  function Sext(v: nat, width: nat): nat
    requires 1 <= width <= 32 && v < Pow2(width)
  {
    Pow2Dword();
    Pow2Le(width, 64);
    if v < Pow2(width - 1) then v else v + (D - Pow2(width))
  }

  /** A 64-bit left shift. */
  function Left(x: nat, k: nat): nat { x * Pow2(k) % D }

  function ImmI(x: nat): nat { Sext(Field(x, 31, 20), 12) % W }
  function ImmU(x: nat): nat { Left(Sext(Field(x, 31, 12), 20), 12) % W }
  function ImmS(x: nat): nat { ChainS(Field(x, 31, 25), Field(x, 11, 7)) }
  function ImmJ(x: nat): nat { ChainJ(Field(x, 31, 31), Field(x, 19, 12), Field(x, 20, 20), Field(x, 30, 21)) }
  function ImmB(x: nat): nat { ChainB(Field(x, 31, 31), Field(x, 7, 7), Field(x, 30, 25), Field(x, 11, 8)) }

  /** The store, jump and branch decoders, over the fields they join. */
  function ChainS(h: nat, l: nat): nat
    requires h < Pow2(7)
  {
    Or(Left(Sext(h, 7), 5), l) % W
  }

  function ChainJ(s: nat, b: nat, c: nat, d: nat): nat
    requires s < Pow2(1)
  {
    Or(Or(Or(Left(Sext(s, 1), 20), Left(b, 12)), Left(c, 11)), Left(d, 1)) % W
  }

  function ChainB(s: nat, b: nat, c: nat, d: nat): nat
    requires s < Pow2(1)
  {
    Or(Or(Or(Left(Sext(s, 1), 12), Left(b, 11)), Left(c, 5)), Left(d, 1)) % W
  }

  // ----- encodings -----

  /** An immediate as the two's complement word whose bits the instruction carries. */
  function Word(imm: int): nat { imm % W }

  ghost predicate EncodesI(x: nat, imm: int) {
    -0x800 <= imm < 0x800 && Field(x, 31, 20) == Field(Word(imm), 11, 0)
  }

  ghost predicate EncodesU(x: nat, imm: int) {
    -0x8000_0000 <= imm < 0x8000_0000 && imm % 0x1000 == 0 && Field(x, 31, 12) == Field(Word(imm), 31, 12)
  }

  ghost predicate EncodesS(x: nat, imm: int) {
    -0x800 <= imm < 0x800 && Field(x, 31, 25) == Field(Word(imm), 11, 5) && Field(x, 11, 7) == Field(Word(imm), 4, 0)
  }

  ghost predicate EncodesJ(x: nat, imm: int) {
    && -0x10_0000 <= imm < 0x10_0000 && imm % 2 == 0
    && Field(x, 31, 31) == Field(Word(imm), 20, 20) && Field(x, 30, 21) == Field(Word(imm), 10, 1)
    && Field(x, 20, 20) == Field(Word(imm), 11, 11) && Field(x, 19, 12) == Field(Word(imm), 19, 12)
  }

  ghost predicate EncodesB(x: nat, imm: int) {
    && -0x1000 <= imm < 0x1000 && imm % 2 == 0
    && Field(x, 31, 31) == Field(Word(imm), 12, 12) && Field(x, 30, 25) == Field(Word(imm), 10, 5)
    && Field(x, 11, 8) == Field(Word(imm), 4, 1) && Field(x, 7, 7) == Field(Word(imm), 11, 11)
  }

  // ----- arithmetic of fields and shifts -----

  lemma Powers()
    ensures Pow2(0) == 1 && Pow2(1) == 2 && Pow2(4) == 16 && Pow2(5) == 32 && Pow2(6) == 64 && Pow2(7) == 128
    ensures Pow2(8) == 256 && Pow2(10) == 0x400 && Pow2(11) == 0x800 && Pow2(12) == 0x1000 && Pow2(19) == 0x8_0000
    ensures Pow2(20) == 0x10_0000
  {
    assert Pow2(7) == 128 && Pow2(8) == 256;
    Pow2Add(5, 5);
    Pow2Add(6, 5);
    Pow2Add(7, 5);
    Pow2Add(12, 7);
    Pow2Add(12, 8);
  }

  lemma Regroup(above: nat, n: nat, p: nat, f: nat, below: nat)
    ensures above * (n * p) + f * p + below == (above * n + f) * p + below
  {
    assert above * (n * p) == above * n * p;
  }

  lemma QuotientDigit(x: nat, q: nat, above: nat, f: nat, below: nat, p: nat, n: nat)
    requires x == q * p + below && below < p && q == above * n + f && f < n
    ensures x / p % n == f
  {
    DivModUnique(x, p, q, below);
    DivModUnique(q, n, above, f);
  }

  /** Reading a field out of a sum. */
  lemma FieldOfSum(x: nat, above: nat, f: nat, below: nat, p: nat, n: nat, hi: nat, lo: nat)
    requires lo <= hi && p == Pow2(lo) && n == Pow2(hi - lo + 1)
    requires x == above * (n * p) + f * p + below && f < n && below < p
    ensures Field(x, hi, lo) == f
  {
    Regroup(above, n, p, f, below);
    QuotientDigit(x, above * n + f, above, f, below, p, n);
  }

  /** Or with something below the lowest one is addition. */
  lemma OrBelow(a: nat, u: nat, b: nat, k: nat, p: nat)
    requires p == Pow2(k) && b < p && u == a * p
    ensures Or(u, b) == u + b
  {
    OrDisjoint(a, b, k);
  }

  lemma LeftSmall(x: nat, k: nat, p: nat)
    requires p == Pow2(k) && x * p < D
    ensures Left(x, k) == x * p
  {
    DivModUnique(x * p, D, 0, x * p);
  }

  /** A sign bit moved to position k fills everything above. */
  lemma SignBit(s: nat, k: nat, p: nat)
    requires s <= 1 && p == Pow2(k) && k <= 32
    ensures p <= D && s < Pow2(1) && Left(Sext(s, 1), k) == s * (D - p)
  {
    Powers();
    Pow2Dword();
    Pow2Le(k, 64);
    if s == 1 {
      TopOnes(p);
    }
  }

  lemma TopOnes(p: nat)
    requires 1 <= p <= D
    ensures (D - 1) * p % D == D - p
  {
    assert (D - 1) * p == (p - 1) * D + (D - p);
    DivModUnique((D - 1) * p, D, p - 1, D - p);
  }

  // ----- branch offsets -----

  /** Pieces that do not overlap add up. */
  lemma OrChain(u: nat, b: nat, c: nat, d: nat, a1: nat, k1: nat, p1: nat, a2: nat, k2: nat, p2: nat, a3: nat, k3: nat, p3: nat)
    requires p1 == Pow2(k1) && u == a1 * p1 && b < p1
    requires p2 == Pow2(k2) && u + b == a2 * p2 && c < p2
    requires p3 == Pow2(k3) && u + b + c == a3 * p3 && d < p3
    ensures Or(Or(Or(u, b), c), d) == u + b + c + d
  {
    OrTwo(u, b, c, a1, k1, p1, a2, k2, p2);
    OrBelow(a3, u + b + c, d, k3, p3);
  }

  lemma OrTwo(u: nat, b: nat, c: nat, a1: nat, k1: nat, p1: nat, a2: nat, k2: nat, p2: nat)
    requires p1 == Pow2(k1) && u == a1 * p1 && b < p1
    requires p2 == Pow2(k2) && u + b == a2 * p2 && c < p2
    ensures Or(Or(u, b), c) == u + b + c
  {
    OrBelow(a1, u, b, k1, p1);
    OrBelow(a2, u + b, c, k2, p2);
  }

  lemma OrChainB(s: nat, u: nat, b: nat, c: nat, d: nat)
    requires s <= 1 && u == s * 0xFFFF_FFFF_FFFF_F000 && b <= 1 && c < 64 && d < 16
    ensures Or(Or(Or(u, 0x800 * b), 32 * c), 2 * d) == u + 0x800 * b + 32 * c + 2 * d
  {
    Powers();
    OrChain(u, 0x800 * b, 32 * c, 2 * d,
            s * 0xF_FFFF_FFFF_FFFF, 12, 0x1000,
            s * 0x1F_FFFF_FFFF_FFFE + b, 11, 0x800,
            s * 0x7FF_FFFF_FFFF_FF80 + 64 * b + c, 5, 32);
  }

  lemma ChainBPieces(s: nat, b: nat, c: nat, d: nat)
    requires s <= 1 && b <= 1 && c < 64 && d < 16 && s < Pow2(1)
    ensures ChainB(s, b, c, d) == Or(Or(Or(s * 0xFFFF_FFFF_FFFF_F000, 0x800 * b), 32 * c), 2 * d) % W
  {
    SignAt12(s);
    ShiftsB(b, c, d);
  }

  lemma SignAt12(s: nat)
    requires s <= 1 && s < Pow2(1)
    ensures Left(Sext(s, 1), 12) == s * 0xFFFF_FFFF_FFFF_F000
  {
    Powers();
    SignBit(s, 12, 0x1000);
  }

  lemma ShiftsB(b: nat, c: nat, d: nat)
    requires b <= 1 && c < 64 && d < 16
    ensures Left(b, 11) == 0x800 * b && Left(c, 5) == 32 * c && Left(d, 1) == 2 * d
  {
    Powers();
    LeftSmall(b, 11, 0x800);
    LeftSmall(c, 5, 32);
    LeftSmall(d, 1, 2);
  }

  lemma ChainBValue(s: nat, b: nat, c: nat, d: nat)
    requires s <= 1 && b <= 1 && c < 64 && d < 16 && s < Pow2(1)
    ensures ChainB(s, b, c, d) == s * (W - 0x1000) + 0x800 * b + 32 * c + 2 * d
  {
    ChainBPieces(s, b, c, d);
    ChainBSum(s, b, c, d);
  }

  lemma ChainBSum(s: nat, b: nat, c: nat, d: nat)
    requires s <= 1 && b <= 1 && c < 64 && d < 16
    ensures Or(Or(Or(s * 0xFFFF_FFFF_FFFF_F000, 0x800 * b), 32 * c), 2 * d) % W == s * (W - 0x1000) + 0x800 * b + 32 * c + 2 * d
  {
    var u := s * 0xFFFF_FFFF_FFFF_F000;
    OrChainB(s, u, b, c, d);
    LowWord(s, 0x1000, 0x800 * b + 32 * c + 2 * d, u);
  }

  /** Truncating a sign-extended number to 32 bits. */
  lemma LowWord(s: nat, p: nat, r: nat, u: nat)
    requires s <= 1 && r < p <= W && u == s * (D - p)
    ensures (u + r) % W == s * (W - p) + r
  {
    DivModUnique(u + r, W, s * (W - 1), s * (W - p) + r);
  }

  /** The word of a number of the range -p .. p - 1. */
  lemma WordOf(imm: int, p: int) returns (s: nat, r: nat)
    requires p <= W / 2 && -p <= imm < p
    ensures s <= 1 && r < p && imm == r - s * p && Word(imm) == s * (W - p) + r
  {
    if imm < 0 {
      s, r := 1, imm + p;
      DivModUnique(imm, W, -1, W + imm);
    } else {
      s, r := 0, imm;
      DivModUnique(imm, W, 0, imm);
    }
  }

  lemma SplitB(imm: int) returns (s: nat, b: nat, c: nat, d: nat)
    requires -0x1000 <= imm < 0x1000 && imm % 2 == 0
    ensures s <= 1 && b <= 1 && c < 64 && d < 16
    ensures Word(imm) == s * (W - 0x1000) + 0x800 * b + 32 * c + 2 * d
  {
    var r: nat;
    s, r := WordOf(imm, 0x1000);
    assert r % 2 == 0;
    var r1, r2 := r % 0x800, r % 0x800 % 32;
    b, c, d := r / 0x800, r1 / 32, r2 / 2;
    assert r == 0x800 * b + r1 && r1 == 32 * c + r2 && r2 == 2 * d;
  }

  lemma FieldsB(m: nat, s: nat, b: nat, c: nat, d: nat)
    requires s <= 1 && b <= 1 && c < 64 && d < 16
    requires m == s * (W - 0x1000) + 0x800 * b + 32 * c + 2 * d
    ensures Field(m, 12, 12) == s && Field(m, 11, 11) == b && Field(m, 10, 5) == c && Field(m, 4, 1) == d
  {
    Powers();
    FieldOfSum(m, s * 0x7_FFFF, s, 0x800 * b + 32 * c + 2 * d, 0x1000, 2, 12, 12);
    FieldOfSum(m, s * 0xF_FFFF, b, 32 * c + 2 * d, 0x800, 2, 11, 11);
    FieldOfSum(m, s * 0x1F_FFFE + b, c, 2 * d, 32, 64, 10, 5);
    FieldOfSum(m, s * 0x7FF_FF80 + 64 * b + c, d, 0, 2, 16, 4, 1);
  }

  lemma DecodesB(x: nat, imm: int)
    requires EncodesB(x, imm)
    ensures ImmB(x) == Word(imm)
  {
    Powers();
    var s, b, c, d := SplitB(imm);
    FieldsB(Word(imm), s, b, c, d);
    ChainBValue(s, b, c, d);
  }

  // ----- jump offsets -----

  lemma ChainJPieces(s: nat, b: nat, c: nat, d: nat)
    requires s <= 1 && b < 256 && c <= 1 && d < 1024 && s < Pow2(1)
    ensures ChainJ(s, b, c, d) == Or(Or(Or(s * 0xFFFF_FFFF_FFF0_0000, 0x1000 * b), 0x800 * c), 2 * d) % W
  {
    SignAt20(s);
    ShiftsJ(b, c, d);
  }

  lemma SignAt20(s: nat)
    requires s <= 1 && s < Pow2(1)
    ensures Left(Sext(s, 1), 20) == s * 0xFFFF_FFFF_FFF0_0000
  {
    Powers();
    SignBit(s, 20, 0x10_0000);
  }

  lemma ShiftsJ(b: nat, c: nat, d: nat)
    requires b < 256 && c <= 1 && d < 1024
    ensures Left(b, 12) == 0x1000 * b && Left(c, 11) == 0x800 * c && Left(d, 1) == 2 * d
  {
    Powers();
    LeftSmall(b, 12, 0x1000);
    LeftSmall(c, 11, 0x800);
    LeftSmall(d, 1, 2);
  }

  lemma OrChainJ(s: nat, u: nat, b: nat, c: nat, d: nat)
    requires s <= 1 && u == s * 0xFFFF_FFFF_FFF0_0000 && b < 256 && c <= 1 && d < 1024
    ensures Or(Or(Or(u, 0x1000 * b), 0x800 * c), 2 * d) == u + 0x1000 * b + 0x800 * c + 2 * d
  {
    Powers();
    OrChain(u, 0x1000 * b, 0x800 * c, 2 * d,
            s * 0xFFF_FFFF_FFFF, 20, 0x10_0000,
            s * 0xF_FFFF_FFFF_FF00 + b, 12, 0x1000,
            s * 0x1F_FFFF_FFFF_FE00 + 2 * b + c, 11, 0x800);
  }

  lemma ChainJValue(s: nat, b: nat, c: nat, d: nat)
    requires s <= 1 && b < 256 && c <= 1 && d < 1024 && s < Pow2(1)
    ensures ChainJ(s, b, c, d) == s * (W - 0x10_0000) + 0x1000 * b + 0x800 * c + 2 * d
  {
    ChainJPieces(s, b, c, d);
    ChainJSum(s, b, c, d);
  }

  lemma ChainJSum(s: nat, b: nat, c: nat, d: nat)
    requires s <= 1 && b < 256 && c <= 1 && d < 1024
    ensures Or(Or(Or(s * 0xFFFF_FFFF_FFF0_0000, 0x1000 * b), 0x800 * c), 2 * d) % W == s * (W - 0x10_0000) + 0x1000 * b + 0x800 * c + 2 * d
  {
    var u := s * 0xFFFF_FFFF_FFF0_0000;
    OrChainJ(s, u, b, c, d);
    LowWord(s, 0x10_0000, 0x1000 * b + 0x800 * c + 2 * d, u);
  }

  lemma SplitJ(imm: int) returns (s: nat, b: nat, c: nat, d: nat)
    requires -0x10_0000 <= imm < 0x10_0000 && imm % 2 == 0
    ensures s <= 1 && b < 256 && c <= 1 && d < 1024
    ensures Word(imm) == s * (W - 0x10_0000) + 0x1000 * b + 0x800 * c + 2 * d
  {
    var r: nat;
    s, r := WordOf(imm, 0x10_0000);
    assert r % 2 == 0;
    b, c, d := SplitLow(r);
  }

  lemma SplitLow(r: nat) returns (b: nat, c: nat, d: nat)
    requires r < 0x10_0000 && r % 2 == 0
    ensures b < 256 && c <= 1 && d < 1024 && r == 0x1000 * b + 0x800 * c + 2 * d
  {
    var r1 := r % 0x1000;
    b := r / 0x1000;
    assert r == 0x1000 * b + r1;
    var r2 := r1 % 0x800;
    c := r1 / 0x800;
    assert r1 == 0x800 * c + r2;
    d := r2 / 2;
    assert r2 == 2 * d;
  }

  lemma FieldsJ(m: nat, s: nat, b: nat, c: nat, d: nat)
    requires s <= 1 && b < 256 && c <= 1 && d < 1024
    requires m == s * (W - 0x10_0000) + 0x1000 * b + 0x800 * c + 2 * d
    ensures Field(m, 20, 20) == s && Field(m, 19, 12) == b && Field(m, 11, 11) == c && Field(m, 10, 1) == d
  {
    Powers();
    FieldOfSum(m, s * 0x7FF, s, 0x1000 * b + 0x800 * c + 2 * d, 0x10_0000, 2, 20, 20);
    FieldOfSum(m, s * 0xFFF, b, 0x800 * c + 2 * d, 0x1000, 256, 19, 12);
    FieldOfSum(m, s * 0xF_FF00 + b, c, 2 * d, 0x800, 2, 11, 11);
    FieldOfSum(m, s * 0x1F_FE00 + 2 * b + c, d, 0, 2, 1024, 10, 1);
  }

  lemma DecodesJ(x: nat, imm: int)
    requires EncodesJ(x, imm)
    ensures ImmJ(x) == Word(imm)
  {
    Powers();
    var s, b, c, d := SplitJ(imm);
    FieldsJ(Word(imm), s, b, c, d);
    ChainJValue(s, b, c, d);
  }

  // ----- the contiguous ones -----

  /** Sign extension truncated to 32 bits. */
  lemma SextWord(f: nat, width: nat, p: int, imm: int)
    requires 1 <= width <= 32 && p == Pow2(width - 1) && -p <= imm < p && f < Pow2(width)
    requires f == if imm < 0 then imm + 2 * p else imm
    ensures Sext(f, width) % W == Word(imm)
  {
    Pow2Word();
    Pow2Le(width - 1, 31);
    if imm < 0 {
      DivModUnique(Sext(f, width), W, W - 1, W + imm);
      DivModUnique(imm, W, -1, W + imm);
    }
  }

  lemma LowFields(imm: int)
    requires -0x800 <= imm < 0x800
    ensures var f := if imm < 0 then imm + 0x1000 else imm;
            Field(Word(imm), 11, 0) == f && Field(Word(imm), 11, 5) == f / 32 && Field(Word(imm), 4, 0) == f % 32
  {
    Powers();
    var s, r := WordOf(imm, 0x800);
    var f := if imm < 0 then imm + 0x1000 else imm;
    var m, above := Word(imm), s * 0xF_FFFF;
    assert m == above * 0x1000 + f;
    FieldOfSum(m, above, f, 0, 1, 0x1000, 11, 0);
    FieldOfSum(m, above, f / 32, f % 32, 32, 128, 11, 5);
    FieldOfSum(m, above * 128 + f / 32, f % 32, 0, 1, 32, 4, 0);
  }

  lemma DecodesI(x: nat, imm: int)
    requires EncodesI(x, imm)
    ensures ImmI(x) == Word(imm)
  {
    Powers();
    LowFields(imm);
    SextWord(Field(x, 31, 20), 12, 0x800, imm);
  }

  lemma ChainSValue(h: nat, l: nat)
    requires h < 128 && l < 32 && h < Pow2(7)
    ensures ChainS(h, l) == (if h < 64 then 0 else W - 0x1000) + 32 * h + l
  {
    Powers();
    var s := if h < 64 then 0 else 1;
    var u := s * 0xFFFF_FFFF_FFFF_F000 + 32 * h;
    assert Sext(h, 7) * 32 == s * 31 * D + u;
    DivModUnique(Sext(h, 7) * 32, D, s * 31, u);
    OrBelow(s * 0x7FF_FFFF_FFFF_FF80 + h, u, l, 5, 32);
    assert u + l == s * (W - 1) * W + (s * (W - 0x1000) + 32 * h + l);
    DivModUnique(u + l, W, s * (W - 1), s * (W - 0x1000) + 32 * h + l);
  }

  lemma DecodesS(x: nat, imm: int)
    requires EncodesS(x, imm)
    ensures ImmS(x) == Word(imm)
  {
    Powers();
    LowFields(imm);
    ChainSValue(Field(x, 31, 25), Field(x, 11, 7));
    SignedParts(imm);
  }

  lemma SignedParts(imm: int)
    requires -0x800 <= imm < 0x800
    ensures var f := if imm < 0 then imm + 0x1000 else imm;
            Word(imm) == (if f / 32 < 64 then 0 else W - 0x1000) + 32 * (f / 32) + f % 32
  {
    var s, r := WordOf(imm, 0x800);
  }

  lemma UpperField(imm: int)
    requires imm % 0x1000 == 0
    ensures Field(Word(imm), 31, 12) * 0x1000 == Word(imm)
  {
    Powers();
    var m := Word(imm);
    assert m % 0x1000 == 0;
    FieldOfSum(m, 0, m / 0x1000, 0, 0x1000, 0x10_0000, 31, 12);
  }

  lemma UpperValue(f: nat)
    requires f < 0x10_0000 && f < Pow2(20)
    ensures Left(Sext(f, 20), 12) % W == f * 0x1000
  {
    Powers();
    var s := if f < 0x8_0000 then 0 else 1;
    var u := s * (D - W) + f * 0x1000;
    assert Sext(f, 20) * 0x1000 == s * 0xFFF * D + u;
    DivModUnique(Sext(f, 20) * 0x1000, D, s * 0xFFF, u);
    DivModUnique(u, W, s * (W - 1), f * 0x1000);
  }

  lemma DecodesU(x: nat, imm: int)
    requires EncodesU(x, imm)
    ensures ImmU(x) == Word(imm)
  {
    Powers();
    UpperField(imm);
    UpperValue(Field(x, 31, 12));
  }
}
