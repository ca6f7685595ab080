/** Packets of the GDB remote serial protocol as bytes: what the receiver's loop computes. */
module GdbPacket {
  import opened Options
  import opened Bits

  type Byte = x: nat | x < 256

  const HASH: Byte := 35
  const DOLLAR: Byte := 36
  const STAR: Byte := 42
  const BRACE: Byte := 125

  // ----- hexadecimal digits -----

  predicate IsDigit(c: Byte) { 48 <= c <= 57 }
  predicate IsHex(c: Byte) { IsDigit(c) || 97 <= c <= 102 || 65 <= c <= 70 }

  function Nibble(c: Byte): nat
    requires IsHex(c)
  {
    if IsDigit(c) then c - 48 else if c >= 97 then c - 97 + 10 else c - 65 + 10
  }

  function HexEncode(digit: nat): Byte
    requires digit < 16
  {
    if digit > 9 then 97 + digit - 10 else 48 + digit
  }

  /** The upper case form printed behind an outgoing packet. */
  function HexUpper(digit: nat): Byte
    requires digit < 16
  {
    if digit > 9 then 65 + digit - 10 else 48 + digit
  }

  const NOT_HEX: nat := 0xFFFF

  function DecodeHex(msb: Byte, lsb: Byte): nat {
    if !IsHex(msb) || !IsHex(lsb) then NOT_HEX else 16 * Nibble(msb) + Nibble(lsb)
  }

  /** Two digits decode to a byte exactly when they are the two digits of that byte, in either case. */
  lemma DecodeHexExact(msb: Byte, lsb: Byte, b: Byte)
    ensures DecodeHex(msb, lsb) == b <==>
            msb in {HexEncode(b / 16), HexUpper(b / 16)} && lsb in {HexEncode(b % 16), HexUpper(b % 16)}
  {
    if IsHex(msb) && IsHex(lsb) {
      NibbleExact(msb, b / 16);
      NibbleExact(lsb, b % 16);
    }
  }

  lemma NibbleExact(c: Byte, digit: nat)
    requires digit < 16
    ensures IsHex(c) && Nibble(c) == digit <==> c == HexEncode(digit) || c == HexUpper(digit)
  {
  }

  // ----- receiving -----

  /** c ^ 0x20 */
  function Flip(c: Byte): (f: Byte)
    ensures f != c
  {
    if c / 32 % 2 == 1 then c - 32 else c + 32
  }

  lemma FlipTwice(c: Byte)
    ensures Flip(Flip(c)) == c
  {
  }

  lemma FlipIsXor(c: Byte)
    ensures Flip(c) == Xor(c, 0x20)
  {
    var b4 := c / 2 / 2 / 2 / 2;
    var d := if b4 / 2 % 2 == 1 then -1 else 1;
    XorPeel(b4 / 2, 1);
    XorZero(b4 / 2 / 2);
    XorDouble(b4, 1, d);
    XorDouble(c / 2 / 2 / 2, 2, 2 * d);
    XorDouble(c / 2 / 2, 4, 4 * d);
    XorDouble(c / 2, 8, 8 * d);
    XorDouble(c, 16, 16 * d);
    assert b4 / 2 == c / 32;
  }

  lemma XorDouble(x: nat, y: nat, d: int)
    requires Xor(x / 2, y) == x / 2 + d
    ensures Xor(x, 2 * y) == x + 2 * d
  {
    XorPeel(x, 2 * y);
    assert (2 * y) / 2 == y && (2 * y) % 2 == 0;
  }

  /** What may follow a '*' as a repeat count. */
  predicate IsCount(c: Byte) { 29 <= c <= 126 && c != DOLLAR && c != HASH }

  function Repeat(c: Byte, n: nat): (s: seq<Byte>)
    ensures |s| == n && (forall k :: 0 <= k < n ==> s[k] == c)
  {
    if n == 0 then [] else [c] + Repeat(c, n - 1)
  }

  /** Reading past the end of the stream gives the byte 255 of a narrowed EOF. */
  function At(s: seq<Byte>, k: nat): Byte { if k < |s| then s[k] else 255 }

  datatype Packet = Packet(payload: seq<Byte>, sumOk: bool, rest: seq<Byte>)

  function Drop(s: seq<Byte>, n: nat): seq<Byte> { if n <= |s| then s[n..] else [] }

  /** Inside a packet: out received so far, the checksum, and whether the next byte is escaped. */
  function Body(s: seq<Byte>, out: seq<Byte>, sum: Byte, escape: bool): Option<Packet>
    decreases |s|
  {
    if s == [] then None
    else if s[0] == DOLLAR then Body(s[1..], [], 0, false)
    else if s[0] == HASH then Some(Packet(out, sum == DecodeHex(At(s, 1), At(s, 2)), Drop(s, 3)))
    else if s[0] == BRACE then Body(s[1..], out, (sum + s[0]) % 256, true)
    else if s[0] == STAR && out != [] && |s| > 1 && IsCount(s[1]) then
      Body(s[2..], out + Repeat(out[|out| - 1], s[1] - 29), (sum + s[0] + s[1]) % 256, escape)
    else
      Body(s[1..], out + [if escape then Flip(s[0]) else s[0]], (sum + s[0]) % 256, false)
  }

  /** From anywhere in the stream: skip to the start of a packet. */
  function Receive(s: seq<Byte>): Option<Packet>
    decreases |s|
  {
    if s == [] then None
    else if s[0] == DOLLAR then Body(s[1..], [], 0, false)
    else Receive(s[1..])
  }

  /** A larger buffer with the same beginning. */
  method Grow(a: array<Byte>, size: nat) returns (b: array<Byte>)
    requires size >= a.Length
    ensures fresh(b) && b.Length == size && b[..a.Length] == a[..]
  {
    b := new Byte[size](_ => 0);
    for k := 0 to a.Length
      invariant b[..k] == a[..k]
    {
      b[k] := a[k];
    }
    assert a[..] == a[..a.Length];
  }

  /** Writes n copies of c from position i on. */
  method Fill(a: array<Byte>, i: nat, c: Byte, n: nat)
    requires i + n <= a.Length
    modifies a
    ensures a[..i + n] == old(a[..i]) + Repeat(c, n)
  {
    for k := 0 to n
      invariant a[..i] == old(a[..i])
      invariant forall j :: i <= j < i + k ==> a[j] == c
    {
      a[i + k] := c;
    }
  }

  /** Appends a run of n copies of the last byte; the buffer is doubled if they do not fit. */
  method AddRun(a: array<Byte>, i: nat, n: nat) returns (b: array<Byte>)
    requires 0 < i <= a.Length && a.Length >= 4096 && n <= 97
    modifies a
    ensures (b == a || fresh(b)) && b.Length >= 4096 && i + n <= b.Length
    ensures b[..i + n] == old(a[..i]) + Repeat(old(a[i - 1]), n)
  {
    b := a;
    if i + n > a.Length {
      b := Grow(a, a.Length * 2);
      assert b[..a.Length][..i] == b[..i] && b[..a.Length][i - 1] == b[i - 1];
    }
    Fill(b, i, b[i - 1], n);
  }

  /** Appends one byte; the buffer is doubled if it is full. */
  method AddByte(a: array<Byte>, i: nat, c: Byte) returns (b: array<Byte>)
    requires i <= a.Length && a.Length >= 4096
    modifies a
    ensures (b == a || fresh(b)) && b.Length >= 4096 && i < b.Length
    ensures b[..i + 1] == old(a[..i]) + [c]
  {
    b := a;
    if i == a.Length {
      b := Grow(a, a.Length * 2);
    }
    b[i] := c;
  }

  /** Writes the zero behind the payload; a full buffer gets one byte more. */
  method Terminate(a: array<Byte>, i: nat) returns (b: array<Byte>)
    requires i <= a.Length
    modifies a
    ensures (b == a || fresh(b)) && i < b.Length && b[i] == 0 && b[..i] == old(a[..i])
  {
    b := a;
    if i == a.Length {
      b := Grow(a, a.Length + 1);
    }
    b[i] := 0;
  }

  /** Fast-forwards to the start of a packet; what follows the '$' is left. */
  method SkipToPacket(input: seq<Byte>) returns (rest: seq<Byte>, eof: bool)
    ensures eof ==> Receive(input).None?
    ensures !eof ==> Receive(input) == Body(rest, [], 0, false)
  {
    rest := input;
    while rest != [] && rest[0] != DOLLAR
      invariant Receive(rest) == Receive(input)
      decreases |rest|
    {
      rest := rest[1..];
    }
    eof := rest == [];
    if !eof {
      rest := rest[1..];
    }
  }

  /** Receives one packet into a buffer that is doubled when full.  Every access stays inside it, and
      the payload is followed by a terminating zero. */
  method RecvPacket(input: seq<Byte>) returns (reply: array<Byte>, size: nat, sumOk: bool, rest: seq<Byte>, eof: bool)
    ensures eof <==> Receive(input).None?
    ensures !eof ==> size < reply.Length && reply[size] == 0
    ensures !eof ==> Receive(input) == Some(Packet(reply[..size], sumOk, rest))
  {
    var i: nat, sum: Byte, escape := 0, 0, false;
    reply := new Byte[4096](_ => 0);
    size, sumOk := 0, false;
    rest, eof := SkipToPacket(input);
    if eof {
      return;
    }
    eof := true;
    while rest != []
      invariant fresh(reply) && i <= reply.Length && reply.Length >= 4096
      invariant Body(rest, reply[..i], sum, escape) == Receive(input)
      decreases |rest|
    {
      var c := rest[0];
      if c == DOLLAR {
        i, sum, escape, rest := 0, 0, false, rest[1..];
      } else if c == HASH {
        sumOk := sum == DecodeHex(At(rest, 1), At(rest, 2));
        reply := Terminate(reply, i);
        size, rest, eof := i, Drop(rest, 3), false;
        return;
      } else if c == BRACE {
        sum, escape, rest := (sum + c) % 256, true, rest[1..];
      } else if c == STAR && i > 0 && |rest| > 1 && IsCount(rest[1]) {
        reply := AddRun(reply, i, rest[1] - 29);
        i, sum, rest := i + (rest[1] - 29), (sum + c + rest[1]) % 256, rest[2..];
      } else {
        reply := AddByte(reply, i, if escape then Flip(c) else c);
        i, sum, escape, rest := i + 1, (sum + c) % 256, false, rest[1..];
      }
    }
  }
}
