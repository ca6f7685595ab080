/** Register values in replies: pairs of hexadecimal digits, least significant byte first. */
module GdbHex {
  import opened GdbPacket
  import opened Bits

  function LittleEndian(bytes: seq<Byte>): nat {
    if bytes == [] then 0 else bytes[0] + 256 * LittleEndian(bytes[1..])
  }

  /** The bytes spelled by the digit pairs at the start of a zero-terminated string. */
  function Pairs(s: seq<Byte>): seq<Byte> {
    if |s| < 2 || !IsHex(s[0]) || !IsHex(s[1]) then []
    else [16 * Nibble(s[0]) + Nibble(s[1])] + Pairs(s[2..])
  }

  function HexBytes(bytes: seq<Byte>): seq<Byte> {
    if bytes == [] then [] else [HexEncode(bytes[0] / 16), HexEncode(bytes[0] % 16)] + HexBytes(bytes[1..])
  }

  /** The n low bytes of v. */
  function Bytes(v: nat, n: nat): seq<Byte> {
    if n == 0 then [] else [v % 256] + Bytes(v / 256, n - 1)
  }

  function Pow256(n: nat): nat { if n == 0 then 1 else 256 * Pow256(n - 1) }

  lemma Spread(l: nat, weight: nat, b: nat)
    ensures (l * D + weight) * b == D * (l * b) + weight * b
  {
    assert l * D * b == D * (l * b);
  }

  lemma Carry(k: nat, value: nat, m: nat, p: nat) returns (k': nat)
    ensures (k * D + value) + (D * m + p) == k' * D + (value + p) % D
  {
    k' := k + m + (value + p) / D;
  }

  /** Adding the b-fold of a number to another, both known modulo 2^64. */
  lemma AddMultiple(k: nat, value: nat, l: nat, weight: nat, b: nat) returns (k': nat)
    ensures (k * D + value) + (l * D + weight) * b == k' * D + (value + weight * b) % D
  {
    Spread(l, weight, b);
    k' := Carry(k, value, l * b, weight * b);
  }

  /** The decoder computes the little-endian value of the pairs, in 64 bits. */
  method DecodeHexStr(s: seq<Byte>) returns (value: nat)
    ensures value == LittleEndian(Pairs(s)) % D
  {
    var rest := s;
    var weight: nat := 1;
    value := 0;
    ghost var v: nat, w: nat, k: nat, l: nat := 0, 1, 0, 0;
    while |rest| >= 2 && IsHex(rest[0]) && IsHex(rest[1])
      invariant value < D && weight < D && v == k * D + value && w == l * D + weight
      invariant v + w * LittleEndian(Pairs(rest)) == LittleEndian(Pairs(s))
      decreases |rest|
    {
      var b := DecodeHex(rest[0], rest[1]);
      PairsStep(rest, v, w);
      k := AddMultiple(k, value, l, weight, b);
      l := AddMultiple(0, 0, l, weight, 256);
      value := (value + weight * b) % D;
      weight := (0 + weight * 256) % D;
      v, w := v + w * b, 0 + w * 256;
      rest := rest[2..];
    }
    assert w * 0 == 0;
    DivModUnique(v, D, k, value);
  }

  lemma PairsStep(rest: seq<Byte>, v: nat, w: nat)
    requires |rest| >= 2 && IsHex(rest[0]) && IsHex(rest[1])
    ensures v + w * LittleEndian(Pairs(rest))
            == (v + w * DecodeHex(rest[0], rest[1])) + (0 + w * 256) * LittleEndian(Pairs(rest[2..]))
  {
    assert Pairs(rest)[1..] == Pairs(rest[2..]);
    Regroup(v, w, DecodeHex(rest[0], rest[1]), LittleEndian(Pairs(rest[2..])));
  }

  lemma Regroup(v: nat, w: nat, b: nat, more: nat)
    ensures v + w * (b + 256 * more) == (v + w * b) + (0 + w * 256) * more
  {
  }

  lemma {:induction false} PairsOfHexBytes(bytes: seq<Byte>, t: seq<Byte>)
    requires |t| < 2 || !IsHex(t[0]) || !IsHex(t[1])
    ensures Pairs(HexBytes(bytes) + t) == bytes
  {
    if bytes == [] {
      assert HexBytes(bytes) + t == t;
    } else {
      FirstPair(bytes[0], HexBytes(bytes[1..]), t);
      PairsOfHexBytes(bytes[1..], t);
    }
  }

  lemma FirstPair(b: Byte, more: seq<Byte>, t: seq<Byte>)
    ensures Pairs([HexEncode(b / 16), HexEncode(b % 16)] + more + t) == [b] + Pairs(more + t)
  {
    var s := [HexEncode(b / 16), HexEncode(b % 16)] + more + t;
    NibbleExact(s[0], b / 16);
    NibbleExact(s[1], b % 16);
    assert s[2..] == more + t;
  }

  lemma {:induction false} LittleEndianOfBytes(v: nat, n: nat)
    requires v < Pow256(n)
    ensures LittleEndian(Bytes(v, n)) == v
  {
    if n > 0 {
      LittleEndianOfBytes(v / 256, n - 1);
    }
  }

  /** Every value of n bytes is recovered from its encoded bytes, whatever follows them that is not
      another pair of digits. */
  lemma RegisterRoundTrip(v: nat, n: nat, t: seq<Byte>)
    requires v < Pow256(n) && (|t| < 2 || !IsHex(t[0]) || !IsHex(t[1]))
    ensures LittleEndian(Pairs(HexBytes(Bytes(v, n)) + t)) == v
  {
    PairsOfHexBytes(Bytes(v, n), t);
    LittleEndianOfBytes(v, n);
  }
}
