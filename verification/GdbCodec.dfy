/** Encoding packets, and the proof that the receiver undoes every legal encoding. */
module GdbCodec {
  import opened Options
  import opened GdbPacket

  /** One piece of an encoded payload: a byte as it is, an escaped byte, or up to 97 repetitions of the
      byte before it, but not 6 or 7 of them, whose count bytes would be '#' and '$'.  How a payload is cut into pieces is up to the sender. */
  datatype Item = Plain(b: Byte) | Escaped(b: Byte) | Run(n: nat)

  predicate Special(c: Byte) { c == HASH || c == DOLLAR || c == BRACE || c == STAR }

  predicate LegalItem(item: Item, started: bool) {
    match item
    case Plain(b) => !Special(b)
    case Escaped(b) => !Special(Flip(b))
    case Run(n) => started && n <= 97 && n != 6 && n != 7
  }

  predicate Legal(items: seq<Item>, started: bool) {
    items == [] || (LegalItem(items[0], started) && Legal(items[1..], true))
  }

  function ItemBytes(item: Item): seq<Byte>
    requires item.Run? ==> item.n <= 97
  {
    match item
    case Plain(b) => [b]
    case Escaped(b) => [BRACE, Flip(b)]
    case Run(n) => [STAR, n + 29]
  }

  function Encoded(items: seq<Item>, started: bool): seq<Byte>
    requires Legal(items, started)
  {
    if items == [] then [] else ItemBytes(items[0]) + Encoded(items[1..], true)
  }

  /** What the items stand for, after out. */
  function ExpandItem(item: Item, out: seq<Byte>): seq<Byte>
    requires LegalItem(item, out != [])
  {
    match item
    case Plain(b) => out + [b]
    case Escaped(b) => out + [b]
    case Run(n) => out + Repeat(out[|out| - 1], n)
  }

  function Expand(items: seq<Item>, out: seq<Byte>): seq<Byte>
    requires Legal(items, out != [])
    decreases |items|
  {
    if items == [] then out else Expand(items[1..], ExpandItem(items[0], out))
  }

  /** The checksum of the bytes between '$' and '#'. */
  function Sum(s: seq<Byte>): nat {
    if s == [] then 0 else s[0] + Sum(s[1..])
  }

  lemma {:induction false} SumAppend(s: seq<Byte>, t: seq<Byte>)
    ensures Sum(s + t) == Sum(s) + Sum(t)
  {
    if s == [] {
      assert s + t == t;
    } else {
      SumAppend(s[1..], t);
      assert (s + t)[1..] == s[1..] + t;
    }
  }

  lemma SumNext(s: seq<Byte>, i: nat)
    requires i < |s|
    ensures Sum(s[..i + 1]) == Sum(s[..i]) + s[i]
  {
    assert s[..i + 1] == s[..i] + [s[i]];
    SumAppend(s[..i], [s[i]]);
    assert [s[i]][1..] == [];
  }

  lemma AddMod(a: int, b: int, c: int)
    ensures ((a + b) % 256 + c) % 256 == (a + b + c) % 256
  {
  }

  /** The running checksum, as the receiver keeps it. */
  function Tally(sum: Byte, w: seq<Byte>): Byte
    decreases w
  {
    if w == [] then sum else Tally((sum + w[0]) % 256, w[1..])
  }

  lemma {:induction false} TallyIsSum(sum: Byte, w: seq<Byte>)
    ensures Tally(sum, w) == (sum + Sum(w)) % 256
    decreases w
  {
    if w != [] {
      TallyIsSum((sum + w[0]) % 256, w[1..]);
      AddMod(sum, w[0], Sum(w[1..]));
    }
  }

  lemma {:induction false} TallyAppend(sum: Byte, w: seq<Byte>, more: seq<Byte>)
    ensures Tally(sum, w + more) == Tally(Tally(sum, w), more)
    decreases w
  {
    if w == [] {
      assert w + more == more;
    } else {
      TallyAppend((sum + w[0]) % 256, w[1..], more);
      assert (w + more)[1..] == w[1..] + more;
    }
  }

  lemma TallyItem(sum: Byte, item: Item)
    requires item.Run? ==> item.n <= 97
    ensures var w := ItemBytes(item);
            Tally(sum, w) == if item.Plain? then (sum + w[0]) % 256 else ((sum + w[0]) % 256 + w[1]) % 256
  {
    var w := ItemBytes(item);
    var one: Byte := (sum + w[0]) % 256;
    if item.Plain? {
      assert w[1..] == [];
    } else {
      assert w[1..] == [w[1]] && [w[1]][1..] == [];
      assert Tally(one, [w[1]]) == Tally((one + w[1]) % 256, []);
    }
  }

  /** The receiver over one item. */
  lemma BodyItem(item: Item, t: seq<Byte>, out: seq<Byte>, sum: Byte)
    requires LegalItem(item, out != [])
    ensures Body(ItemBytes(item) + t, out, sum, false)
            == Body(t, ExpandItem(item, out), Tally(sum, ItemBytes(item)), false)
  {
    TallyItem(sum, item);
    match item
    case Plain(b) =>
      assert ([b] + t)[1..] == t;
    case Escaped(b) => BodyEscaped(b, t, out, sum);
    case Run(n) => BodyRun(n, t, out, sum);
  }

  lemma BodyEscaped(b: Byte, t: seq<Byte>, out: seq<Byte>, sum: Byte)
    requires !Special(Flip(b))
    ensures Body([BRACE, Flip(b)] + t, out, sum, false)
            == Body(t, out + [b], ((sum + BRACE) % 256 + Flip(b)) % 256, false)
  {
    var s := [BRACE, Flip(b)] + t;
    FlipTwice(b);
    assert s[1..] == [Flip(b)] + t && s[1..][1..] == t;
    assert Body(s, out, sum, false) == Body([Flip(b)] + t, out, (sum + BRACE) % 256, true);
  }

  lemma BodyRun(n: nat, t: seq<Byte>, out: seq<Byte>, sum: Byte)
    requires n <= 97 && n != 6 && n != 7 && out != []
    ensures Body([STAR, n + 29] + t, out, sum, false)
            == Body(t, out + Repeat(out[|out| - 1], n), ((sum + STAR) % 256 + (n + 29)) % 256, false)
  {
    AddMod(sum, STAR, n + 29);
    assert ([STAR, n + 29] + t)[2..] == t;
  }

  lemma BodyFirst(items: seq<Item>, t: seq<Byte>, out: seq<Byte>, sum: Byte)
    requires Legal(items, out != []) && items != []
    ensures Body(Encoded(items, out != []) + t, out, sum, false)
            == Body(Encoded(items[1..], true) + t, ExpandItem(items[0], out), Tally(sum, ItemBytes(items[0])), false)
  {
    var w, more := ItemBytes(items[0]), Encoded(items[1..], true);
    assert (w + more) + t == w + (more + t);
    BodyItem(items[0], more + t, out, sum);
  }

  lemma {:induction false} BodyItems(items: seq<Item>, t: seq<Byte>, out: seq<Byte>, sum: Byte)
    requires Legal(items, out != [])
    ensures Body(Encoded(items, out != []) + t, out, sum, false)
            == Body(t, Expand(items, out), Tally(sum, Encoded(items, out != [])), false)
    decreases |items|
  {
    if items == [] {
      assert Encoded(items, out != []) + t == t;
    } else {
      var w := ItemBytes(items[0]);
      BodyFirst(items, t, out, sum);
      BodyItems(items[1..], t, ExpandItem(items[0], out), Tally(sum, w));
      TallyAppend(sum, w, Encoded(items[1..], true));
    }
  }

  /** A pending escape waits for the next data byte: neither another '}' nor a run uses it up. */
  lemma EscapeWaits(n: nat, b: Byte, t: seq<Byte>, out: seq<Byte>, sum: Byte)
    requires out != [] && n <= 97 && n != 6 && n != 7 && !Special(b)
    ensures Body([BRACE, BRACE, STAR, n + 29, b] + t, out, sum, false)
            == Body(t, out + Repeat(out[|out| - 1], n) + [Flip(b)], Tally(sum, [BRACE, BRACE, STAR, n + 29, b]), false)
  {
    var w := [BRACE, BRACE, STAR, n + 29, b];
    var s := w + t;
    assert s[1..] == [BRACE, STAR, n + 29, b] + t && s[1..][1..] == [STAR, n + 29, b] + t;
    assert s[1..][1..][2..] == [b] + t && s[1..][1..][2..][1..] == t;
    var two: Byte := (sum + BRACE) % 256;
    var more: Byte := (two + BRACE) % 256;
    assert Body(s, out, sum, false) == Body([STAR, n + 29, b] + t, out, more, true);
    var grown := out + Repeat(out[|out| - 1], n);
    assert Body([STAR, n + 29, b] + t, out, more, true) == Body([b] + t, grown, (more + STAR + n + 29) % 256, true);
    TallyRun(sum, n, b);
  }

  lemma TallyCons(sum: Byte, c: Byte, w: seq<Byte>)
    ensures Tally(sum, [c] + w) == Tally((sum + c) % 256, w)
  {
    assert ([c] + w)[1..] == w;
  }

  lemma TallyRun(sum: Byte, n: nat, b: Byte)
    requires n <= 97
    ensures Tally(sum, [BRACE, BRACE, STAR, n + 29, b])
            == (((((sum + BRACE) % 256 + BRACE) % 256 + STAR + n + 29) % 256) + b) % 256
  {
    var one: Byte := (sum + BRACE) % 256;
    var two: Byte := (one + BRACE) % 256;
    TallyCons(sum, BRACE, [BRACE, STAR, n + 29, b]);
    TallyCons(one, BRACE, [STAR, n + 29, b]);
    assert [BRACE] + [BRACE, STAR, n + 29, b] == [BRACE, BRACE, STAR, n + 29, b];
    assert [BRACE] + [STAR, n + 29, b] == [BRACE, STAR, n + 29, b];
    assert [STAR] + [n + 29, b] == [STAR, n + 29, b] && [n + 29] + [b] == [n + 29, b];
    TallyCons(two, STAR, [n + 29, b]);
    TallyCons((two + STAR) % 256, n + 29, [b]);
    TallyCons(((two + STAR) % 256 + n + 29) % 256, b, []);
    assert [b] + [] == [b];
    AddMod(two, STAR, n + 29);
  }

  /** A stream that ends before both checksum digits gives a bad checksum. */
  lemma MissingDigits(s: seq<Byte>, out: seq<Byte>, sum: Byte, escape: bool)
    requires s != [] && s[0] == HASH && |s| < 3
    ensures Body(s, out, sum, escape) == Some(Packet(out, false, []))
  {
  }

  /** A '$' is seen whatever precedes it, as long as no '#' does: the receiver then starts afresh. */
  lemma {:induction false} BodyRestart(prefix: seq<Byte>, t: seq<Byte>, out: seq<Byte>, sum: Byte, escape: bool)
    requires HASH !in prefix
    ensures Body(prefix + [DOLLAR] + t, out, sum, escape) == Body(t, [], 0, false)
    decreases |prefix|
  {
    var s := prefix + [DOLLAR] + t;
    if prefix == [] {
      assert s[1..] == t;
      return;
    }
    var c := prefix[0];
    assert s[1..] == prefix[1..] + [DOLLAR] + t;
    if c == DOLLAR {
      BodyRestart(prefix[1..], t, [], 0, false);
    } else if c == BRACE {
      BodyRestart(prefix[1..], t, out, (sum + c) % 256, true);
    } else if c == STAR && out != [] && IsCount(s[1]) {
      assert s[2..] == prefix[2..] + [DOLLAR] + t;
      BodyRestart(prefix[2..], t, out + Repeat(out[|out| - 1], s[1] - 29), (sum + c + s[1]) % 256, escape);
    } else {
      assert c != HASH;
      BodyRestart(prefix[1..], t, out + [if escape then Flip(c) else c], (sum + c) % 256, false);
    }
  }

  lemma {:induction false} ReceiveRestart(prefix: seq<Byte>, t: seq<Byte>)
    requires HASH !in prefix
    ensures Receive(prefix + [DOLLAR] + t) == Body(t, [], 0, false)
    decreases |prefix|
  {
    var s := prefix + [DOLLAR] + t;
    if prefix == [] {
      assert s[1..] == t;
    } else {
      assert s[1..] == prefix[1..] + [DOLLAR] + t;
      if prefix[0] == DOLLAR {
        BodyRestart(prefix[1..], t, [], 0, false);
      } else {
        ReceiveRestart(prefix[1..], t);
      }
    }
  }

  /** A packet with the checksum digits h and l. */
  function Framed(items: seq<Item>, h: Byte, l: Byte): seq<Byte>
    requires Legal(items, false)
  {
    [DOLLAR] + Encoded(items, false) + [HASH, h, l]
  }

  /** Whatever legal encoding the sender chose, and whatever the line carried before, the receiver
      returns the payload, leaves the rest of the stream untouched, and accepts the checksum exactly
      when its digits spell the sum of the encoded bytes. */
  lemma DecodeUndoesEncode(prefix: seq<Byte>, items: seq<Item>, h: Byte, l: Byte, rest: seq<Byte>)
    requires HASH !in prefix && Legal(items, false)
    ensures Receive(prefix + Framed(items, h, l) + rest)
            == Some(Packet(Expand(items, []), Sum(Encoded(items, false)) % 256 == DecodeHex(h, l), rest))
  {
    var w, t := Encoded(items, false), [HASH, h, l] + rest;
    assert prefix + Framed(items, h, l) + rest == prefix + [DOLLAR] + (w + t);
    ReceiveRestart(prefix, w + t);
    BodyItems(items, t, [], 0);
    TallyIsSum(0, w);
    assert t[3..] == rest;
  }

  /** Every payload has a legal encoding: escape the four special bytes. */
  function EscapeSpecial(payload: seq<Byte>): seq<Item> {
    if payload == [] then []
    else [if Special(payload[0]) then Escaped(payload[0]) else Plain(payload[0])] + EscapeSpecial(payload[1..])
  }

  lemma {:induction false} EscapeSpecialExpands(payload: seq<Byte>, out: seq<Byte>)
    ensures Legal(EscapeSpecial(payload), out != [])
    ensures Expand(EscapeSpecial(payload), out) == out + payload
    decreases payload
  {
    if payload != [] {
      var items := EscapeSpecial(payload);
      assert items[1..] == EscapeSpecial(payload[1..]);
      EscapeSpecialExpands(payload[1..], out + [payload[0]]);
      assert out + [payload[0]] + payload[1..] == out + payload;
    } else {
      assert out + payload == out;
    }
  }

  /** The round trip for an arbitrary payload, with the checksum in either case of letters. */
  lemma PayloadRoundTrip(prefix: seq<Byte>, payload: seq<Byte>, rest: seq<Byte>, upper: bool)
    requires HASH !in prefix
    ensures Legal(EscapeSpecial(payload), false)
    ensures var items := EscapeSpecial(payload);
            var sum := Sum(Encoded(items, false)) % 256;
            var h := if upper then HexUpper(sum / 16) else HexEncode(sum / 16);
            var l := if upper then HexUpper(sum % 16) else HexEncode(sum % 16);
            Receive(prefix + Framed(items, h, l) + rest) == Some(Packet(payload, true, rest))
  {
    EscapeSpecialExpands(payload, []);
    var items := EscapeSpecial(payload);
    var sum := Sum(Encoded(items, false)) % 256;
    var h := if upper then HexUpper(sum / 16) else HexEncode(sum / 16);
    var l := if upper then HexUpper(sum % 16) else HexEncode(sum % 16);
    DecodeUndoesEncode(prefix, items, h, l, rest);
    DecodeHexExact(h, l, sum);
    assert [] + payload == payload;
  }

  // ----- sending -----

  /** Outgoing packets are framed without any escaping. */
  function RawFrame(command: seq<Byte>): seq<Byte> {
    var sum := Sum(command) % 256;
    [DOLLAR] + command + [HASH, HexUpper(sum / 16), HexUpper(sum % 16)]
  }

  method SendPacket(command: seq<Byte>) returns (out: seq<Byte>)
    ensures out == RawFrame(command)
  {
    var sum: Byte := 0;
    for i := 0 to |command|
      invariant sum == Sum(command[..i]) % 256
    {
      SumNext(command, i);
      AddMod(Sum(command[..i]), 0, command[i]);
      sum := (sum + command[i]) % 256;
    }
    assert command[..|command|] == command;
    out := [DOLLAR] + command + [HASH, HexUpper(sum / 16), HexUpper(sum % 16)];
  }

  /** A '*' that is not the first byte and stands before a count is taken for a run. */
  ghost predicate NoRun(command: seq<Byte>, started: bool) {
    forall i :: 0 <= i < |command| - 1 && command[i] == STAR && (i > 0 || started) ==> !IsCount(command[i + 1])
  }

  predicate Framing(c: Byte) { c == HASH || c == DOLLAR || c == BRACE }

  lemma NoRunRest(command: seq<Byte>, started: bool)
    requires NoRun(command, started) && command != []
    ensures NoRun(command[1..], true)
  {
    var w := command[1..];
    forall i | 0 <= i < |w| - 1 && w[i] == STAR
      ensures !IsCount(w[i + 1])
    {
      assert command[i + 1] == STAR;
    }
  }

  /** A byte that does not start a run and is no framing byte is taken as it is. */
  lemma RawByte(w: seq<Byte>, t: seq<Byte>, out: seq<Byte>, sum: Byte, escape: bool)
    requires w != [] && NoRun(w, out != []) && t != [] && t[0] == HASH && !Framing(w[0])
    ensures Body(w + t, out, sum, escape)
            == Body(w[1..] + t, out + [if escape then Flip(w[0]) else w[0]], (sum + w[0]) % 256, false)
  {
    var s := w + t;
    assert s[1..] == w[1..] + t;
    assert s[1] == if |w| > 1 then w[1] else HASH;
  }

  lemma {:induction false} RawBody(w: seq<Byte>, t: seq<Byte>, out: seq<Byte>, sum: Byte)
    requires NoRun(w, out != []) && t != [] && t[0] == HASH && (forall c :: c in w ==> !Framing(c))
    ensures Body(w + t, out, sum, false) == Body(t, out + w, Tally(sum, w), false)
    decreases w
  {
    if w == [] {
      assert w + t == t && out + w == out;
    } else {
      RawByte(w, t, out, sum, false);
      NoRunRest(w, out != []);
      RawBody(w[1..], t, out + [w[0]], (sum + w[0]) % 256);
      assert out + [w[0]] + w[1..] == out + w;
    }
  }

  /** A run starts at position k, after out. */
  predicate RunAt(w: seq<Byte>, k: nat, out: seq<Byte>) {
    out != [] && k + 1 < |w| && w[k] == STAR && IsCount(w[k + 1])
  }

  /** The receiver at position k of w, which is followed by the end of the packet. */
  lemma NextByte(w: seq<Byte>, t: seq<Byte>, k: nat, out: seq<Byte>, sum: Byte, escape: bool)
    requires k < |w| && t != [] && t[0] == HASH
    ensures var r, rest := Body(w[k..] + t, out, sum, escape), w[k + 1..] + t;
            if w[k] == DOLLAR then r == Body(rest, [], 0, false)
            else if w[k] == HASH then r.Some? && r.value.payload == out
            else if w[k] == BRACE then r == Body(rest, out, (sum + w[k]) % 256, true)
            else if RunAt(w, k, out) then
              r == Body(w[k + 2..] + t, out + Repeat(out[|out| - 1], w[k + 1] - 29), (sum + w[k] + w[k + 1]) % 256, escape)
            else r == Body(rest, out + [if escape then Flip(w[k]) else w[k]], (sum + w[k]) % 256, false)
  {
    var s := w[k..] + t;
    assert s[0] == w[k] && s[1..] == w[k + 1..] + t;
    assert s[1] == if k + 1 < |w| then w[k + 1] else HASH;
    if k + 1 < |w| {
      assert s[2..] == w[k + 2..] + t;
    }
  }

  predicate ArrivesAs(r: Option<Packet>, w: seq<Byte>) { r.Some? && r.value.payload == w }

  lemma AtEnd(w: seq<Byte>, t: seq<Byte>, out: seq<Byte>, sum: Byte, escape: bool)
    requires t != [] && t[0] == HASH
    ensures Body(w[|w|..] + t, out, sum, escape).Some? && Body(w[|w|..] + t, out, sum, escape).value.payload == out
  {
    assert w[|w|..] + t == t;
  }

  /** What was received up to position k of w either is no beginning of w, or is too short.  Position
      p, not before the last byte that was received, shows that not only '*' follows. */
  predicate Behind(w: seq<Byte>, k: nat, out: seq<Byte>, p: nat) {
    out <= w ==> |out| < k && |out| <= p + 1 && p <= k && (p == |w| || (p < |w| && w[p] != STAR))
  }

  /** A run does not make up for what is missing: to do so it would repeat '*' up to its own count. */
  lemma RunBehind(w: seq<Byte>, k: nat, out: seq<Byte>, p: nat) returns (p': nat)
    requires Behind(w, k, out, p) && RunAt(w, k, out)
    ensures Behind(w, k + 2, out + Repeat(out[|out| - 1], w[k + 1] - 29), p')
  {
    var last, n: nat := out[|out| - 1], w[k + 1] - 29;
    var more := out + Repeat(last, n);
    p' := if last == STAR then p else |more| - 1;
    if more <= w {
      assert out <= w;
      assert forall i :: |out| - 1 <= i < |more| ==> more[i] == last && w[i] == more[i];
    }
  }

  /** Whoever is behind stays behind. */
  lemma {:induction false} BehindDiffers(w: seq<Byte>, t: seq<Byte>, k: nat, out: seq<Byte>, sum: Byte, escape: bool, p: nat)
    requires k <= |w| && t != [] && t[0] == HASH && Behind(w, k, out, p)
    ensures !ArrivesAs(Body(w[k..] + t, out, sum, escape), w)
    decreases |w| - k
  {
    if k == |w| {
      AtEnd(w, t, out, sum, escape);
    } else {
      var c := w[k];
      NextByte(w, t, k, out, sum, escape);
      if c == DOLLAR {
        BehindDiffers(w, t, k + 1, [], 0, false, k);
      } else if c == BRACE {
        BehindDiffers(w, t, k + 1, out, (sum + c) % 256, true, k);
      } else if c != HASH {
        if RunAt(w, k, out) {
          var p' := RunBehind(w, k, out, p);
          BehindDiffers(w, t, k + 2, out + Repeat(out[|out| - 1], w[k + 1] - 29), (sum + c + w[k + 1]) % 256, escape, p');
        } else {
          var p' := if c != STAR then k else if out == [] then p else k + 1;
          BehindDiffers(w, t, k + 1, out + [if escape then Flip(c) else c], (sum + c) % 256, false, p');
        }
      }
    }
  }

  /** Only '*' was received, and more of them than were read: every further pair is taken for a run
      of 13 more, so the receiver never falls back. */
  lemma {:induction false} AheadDiffers(w: seq<Byte>, t: seq<Byte>, k: nat, out: seq<Byte>, sum: Byte, escape: bool)
    requires k <= |w| && t != [] && t[0] == HASH
    requires |out| >= k + 2 && (forall i :: 0 <= i < |out| ==> out[i] == STAR)
    ensures !ArrivesAs(Body(w[k..] + t, out, sum, escape), w)
    decreases |w| - k
  {
    if k == |w| {
      AtEnd(w, t, out, sum, escape);
    } else if out <= w {
      assert w[k] == out[k] && w[k + 1] == out[k + 1];
      NextByte(w, t, k, out, sum, escape);
      AheadDiffers(w, t, k + 2, out + Repeat(STAR, 13), (sum + STAR + STAR) % 256, escape);
    } else {
      BehindDiffers(w, t, k, out, sum, escape, 0);
    }
  }

  /** The first run: only three '*' at the start get ahead by it. */
  lemma FirstRun(w: seq<Byte>, t: seq<Byte>, k: nat, sum: Byte)
    requires 0 < k < |w| && t != [] && t[0] == HASH && RunAt(w, k, w[..k])
    requires k >= 2 && w[k - 1] == STAR ==> !IsCount(w[k])
    ensures !ArrivesAs(Body(w[k..] + t, w[..k], sum, false), w)
  {
    var last, n: nat := w[k - 1], w[k + 1] - 29;
    var out := w[..k] + Repeat(last, n);
    NextByte(w, t, k, w[..k], sum, false);
    if out <= w && n >= 2 {
      assert w[k] == out[k] == last && w[k + 1] == out[k + 1] == last;
      assert k == 1;
      AheadDiffers(w, t, k + 2, out, (sum + w[k] + w[k + 1]) % 256, false);
    } else {
      BehindDiffers(w, t, k + 2, out, (sum + w[k] + w[k + 1]) % 256, false, k + 1);
    }
  }

  /** Nothing in w from position k on is taken for anything but itself. */
  ghost predicate RawFrom(w: seq<Byte>, k: nat) {
    && (forall i :: k <= i < |w| ==> !Framing(w[i]))
    && (forall i :: k <= i < |w| - 1 && i > 0 && w[i] == STAR ==> !IsCount(w[i + 1]))
  }

  /** A command that arrives as it was sent is read byte by byte to its end. */
  lemma {:induction false} InStep(w: seq<Byte>, t: seq<Byte>, k: nat, sum: Byte)
    requires k <= |w| && t != [] && t[0] == HASH
    requires 2 <= k < |w| && w[k - 1] == STAR ==> !IsCount(w[k])
    ensures ArrivesAs(Body(w[k..] + t, w[..k], sum, false), w) ==> RawFrom(w, k)
    decreases |w| - k
  {
    if k < |w| {
      var c, out := w[k], w[..k];
      NextByte(w, t, k, out, sum, false);
      if c == DOLLAR {
        BehindDiffers(w, t, k + 1, [], 0, false, k);
      } else if c == BRACE {
        BehindDiffers(w, t, k + 1, out, (sum + c) % 256, true, k);
      } else if c != HASH {
        if RunAt(w, k, out) {
          FirstRun(w, t, k, sum);
        } else {
          assert out + [c] == w[..k + 1];
          InStep(w, t, k + 1, (sum + c) % 256);
        }
      }
    }
  }

  /** A command arrives as it was sent if and only if it contains none of '#', '$' and '}', and no '*'
      that would be taken for a run. */
  lemma RawExact(prefix: seq<Byte>, command: seq<Byte>, rest: seq<Byte>)
    requires HASH !in prefix
    ensures Receive(prefix + RawFrame(command) + rest) == Some(Packet(command, true, rest))
            <==> NoRun(command, false) && forall c :: c in command ==> !Framing(c)
  {
    var sum := Sum(command) % 256;
    var h, l := HexUpper(sum / 16), HexUpper(sum % 16);
    var t := [HASH, h, l] + rest;
    assert prefix + RawFrame(command) + rest == prefix + [DOLLAR] + (command + t);
    ReceiveRestart(prefix, command + t);
    RawArrives(command, h, l, rest);
    assert command[0..] == command && command[..0] == [];
    InStep(command, t, 0, 0);
  }

  lemma RawArrives(command: seq<Byte>, h: Byte, l: Byte, rest: seq<Byte>)
    requires h == HexUpper(Sum(command) % 256 / 16) && l == HexUpper(Sum(command) % 256 % 16)
    ensures NoRun(command, false) && (forall c :: c in command ==> !Framing(c)) ==>
              Body(command + ([HASH, h, l] + rest), [], 0, false) == Some(Packet(command, true, rest))
  {
    if NoRun(command, false) && forall c :: c in command ==> !Framing(c) {
      var t := [HASH, h, l] + rest;
      RawBody(command, t, [], 0);
      TallyIsSum(0, command);
      DecodeHexExact(h, l, Sum(command) % 256);
      assert [] + command == command && t[3..] == rest;
    }
  }

  /** What is taken for a run is expanded: x, '*' and the byte n + 29 arrive as x and n more x, for
      every n up to 97 but 6 and 7. */
  lemma RunIsExpanded(prefix: seq<Byte>, x: Byte, n: nat, rest: seq<Byte>)
    requires HASH !in prefix && !Special(x) && n <= 97 && n != 6 && n != 7
    ensures Receive(prefix + RawFrame([x, STAR, n + 29]) + rest) == Some(Packet([x] + Repeat(x, n), true, rest))
  {
    var count: Byte := n + 29;
    var items, w := [Plain(x), Run(n)], [x, STAR, count];
    assert items[1..] == [Run(n)] && items[1..][1..] == [];
    assert Encoded([Run(n)], true) == [STAR, count] + Encoded([Run(n)][1..], true) == [STAR, count];
    assert Encoded(items, false) == [x] + [STAR, count] == w;
    var sum := Sum(w) % 256;
    DecodeUndoesEncode(prefix, items, HexUpper(sum / 16), HexUpper(sum % 16), rest);
    DecodeHexExact(HexUpper(sum / 16), HexUpper(sum % 16), sum);
    assert ExpandItem(Plain(x), []) == [x] && ExpandItem(Run(n), [x]) == [x] + Repeat(x, n);
    assert Expand(items, []) == Expand([Run(n)], [x]) == Expand([], [x] + Repeat(x, n));
  }

  /** Before any other byte the '*' is a byte like others. */
  lemma NoCountNoRun(prefix: seq<Byte>, x: Byte, b: Byte, rest: seq<Byte>)
    requires HASH !in prefix && !Special(x) && (b < 29 || b > 126)
    ensures Receive(prefix + RawFrame([x, STAR, b]) + rest) == Some(Packet([x, STAR, b], true, rest))
  {
    RawExact(prefix, [x, STAR, b], rest);
  }

  // ----- acknowledgement -----

  const PLUS: Byte := 43
  const MINUS: Byte := 45

  lemma {:induction false} ReceiveConsumes(s: seq<Byte>)
    requires Receive(s).Some?
    ensures |Receive(s).value.rest| < |s|
    decreases |s|
  {
    if s[0] == DOLLAR {
      BodyConsumes(s[1..], [], 0, false);
    } else {
      ReceiveConsumes(s[1..]);
    }
  }

  lemma {:induction false} BodyConsumes(s: seq<Byte>, out: seq<Byte>, sum: Byte, escape: bool)
    requires Body(s, out, sum, escape).Some?
    ensures |Body(s, out, sum, escape).value.rest| < |s|
    decreases |s|
  {
    if s[0] == DOLLAR {
      BodyConsumes(s[1..], [], 0, false);
    } else if s[0] == HASH {
    } else if s[0] == BRACE {
      BodyConsumes(s[1..], out, (sum + s[0]) % 256, true);
    } else if s[0] == STAR && out != [] && |s| > 1 && IsCount(s[1]) {
      BodyConsumes(s[2..], out + Repeat(out[|out| - 1], s[1] - 29), (sum + s[0] + s[1]) % 256, escape);
    } else {
      BodyConsumes(s[1..], out + [if escape then Flip(s[0]) else s[0]], (sum + s[0]) % 256, false);
    }
  }

  /** The first packet with a good checksum, and how many bad ones come before it. */
  datatype Reception = Good(packet: Packet, bad: nat) | Lost(bad: nat)

  function FirstGood(s: seq<Byte>): Reception
    decreases |s|
  {
    if Receive(s).None? then Lost(0)
    else if Receive(s).value.sumOk then Good(Receive(s).value, 0)
    else
      ReceiveConsumes(s);
      var r := FirstGood(Receive(s).value.rest);
      r.(bad := r.bad + 1)
  }

  /** With acknowledgement on, the first packet of the stream whose checksum is good is returned; each
      bad one before it is answered by '-', the good one by '+'.  With it off, the first packet is. */
  method GdbRecv(input: seq<Byte>, ack: bool) returns (payload: seq<Byte>, answers: seq<Byte>, eof: bool)
    ensures ack ==>
              match FirstGood(input)
              case Good(p, bad) => !eof && payload == p.payload && answers == Repeat(MINUS, bad) + [PLUS]
              case Lost(bad) => eof && answers == Repeat(MINUS, bad)
    ensures !ack ==> answers == [] && eof == Receive(input).None? && (!eof ==> payload == Receive(input).value.payload)
  {
    var stream := input;
    payload, answers := [], [];
    while true
      invariant answers == Repeat(MINUS, |answers|) && (!ack ==> stream == input && answers == [])
      invariant FirstGood(input) == FirstGood(stream).(bad := FirstGood(stream).bad + |answers|)
      decreases |stream|
    {
      var reply, size, sumOk, rest, none := RecvPacket(stream);
      eof := none;
      if eof {
        return;
      }
      ReceiveConsumes(stream);
      payload := reply[..size];
      if !ack {
        return;
      }
      if sumOk {
        answers := answers + [PLUS];
        return;
      }
      answers := answers + [MINUS];
      assert answers == Repeat(MINUS, |answers|);
      stream := rest;
    }
  }
}
