/** Instruction patterns: strings of 0, 1 and ?, turned into a key, a mask and a shift. */
module InstPattern {
  import opened Options
  import opened Bits
  import opened Int64Count

  predicate IsDigit(c: char) { c == '0' || c == '1' || c == '?' }
  predicate IsPattern(s: string) { forall k :: 0 <= k < |s| ==> IsDigit(s[k]) }

  function Front(s: string): string requires s != "" { s[..|s| - 1] }
  function Last(s: string): char requires s != "" { s[|s| - 1] }

  /** Spaces only group the digits. */
  function Strip(s: string): string {
    if s == "" then "" else if Last(s) == ' ' then Strip(Front(s)) else Strip(Front(s)) + [Last(s)]
  }

  /** The word x matches, digit by digit; the last digit is bit 0. */
  predicate Matches(s: string, x: nat) {
    s == "" || ((Last(s) == '?' || (x % 2 == 1) == (Last(s) == '1')) && Matches(Front(s), x / 2))
  }

  // ----- what the decoding loop accumulates -----

  function Key(s: string): nat {
    if s == "" then 0 else 2 * Key(Front(s)) + (if Last(s) == '1' then 1 else 0)
  }

  function Mask(s: string): nat {
    if s == "" then 0 else 2 * Mask(Front(s)) + (if Last(s) == '?' then 0 else 1)
  }

  /** Number of wildcards at the end. */
  function Wild(s: string): (n: nat)
    ensures n <= |s|
  {
    if s == "" || Last(s) != '?' then 0 else Wild(Front(s)) + 1
  }

  lemma {:induction false} KeyBound(s: string)
    ensures Key(s) < Pow2(|s|) && Mask(s) < Pow2(|s|)
  {
    if s != "" {
      KeyBound(Front(s));
    }
  }

  lemma AndPeel(x: nat, m: nat, b: nat)
    requires b <= 1
    ensures And(x, 2 * m + b) == 2 * And(x / 2, m) + (if x % 2 == 1 && b == 1 then 1 else 0)
  {
    assert (2 * m + b) / 2 == m && (2 * m + b) % 2 == b;
  }

  /** Comparing under the mask compares digit by digit. */
  lemma {:induction false} MaskedEqual(s: string, x: nat)
    requires IsPattern(s)
    ensures And(x, Mask(s)) == Key(s) <==> Matches(s, x)
  {
    if s != "" {
      MaskedEqual(Front(s), x / 2);
      AndPeel(x, Mask(Front(s)), if Last(s) == '?' then 0 else 1);
    }
  }

  /** Wildcards at the end leave zeros at the bottom of key and mask. */
  lemma {:induction false} WildZeros(s: string)
    requires IsPattern(s)
    ensures Key(s) == Shl(Shr(Key(s), Wild(s)), Wild(s))
    ensures Mask(s) == Shl(Shr(Mask(s), Wild(s)), Wild(s))
  {
    if s != "" && Last(s) == '?' {
      WildZeros(Front(s));
      ShiftBack(Key(Front(s)), Wild(Front(s)));
      ShiftBack(Mask(Front(s)), Wild(Front(s)));
    }
  }

  lemma ShiftBack(x: nat, n: nat)
    requires x == Shl(Shr(x, n), n)
    ensures 2 * x == Shl(Shr(2 * x, n + 1), n + 1)
  {
    assert (2 * x) / 2 == x;
  }

  lemma {:induction false} ShlInjective(a: nat, b: nat, k: nat)
    ensures Shl(a, k) == Shl(b, k) <==> a == b
  {
    if k > 0 {
      ShlInjective(a, b, k - 1);
    }
  }

  /** The test of the instruction table decides the match, for every word. */
  lemma TestDecides(s: string, x: nat)
    requires IsPattern(s)
    ensures And(Shr(x, Wild(s)), Shr(Mask(s), Wild(s))) == Shr(Key(s), Wild(s)) <==> Matches(s, x)
  {
    var n, m, k := Wild(s), Shr(Mask(s), Wild(s)), Shr(Key(s), Wild(s));
    WildZeros(s);
    AndHighMask(x, m, n);
    ShlInjective(And(Shr(x, n), m), k, n);
    MaskedEqual(s, x);
  }

  lemma {:induction false} StripDigits(s: string)
    requires forall k :: 0 <= k < |s| ==> s[k] == ' ' || IsDigit(s[k])
    ensures IsPattern(Strip(s)) && |Strip(s)| <= |s|
  {
    if s != "" {
      StripDigits(Front(s));
    }
  }

  lemma StripNext(str: string, i: nat)
    requires i < |str|
    ensures Strip(str[..i + 1]) == if str[i] == ' ' then Strip(str[..i]) else Strip(str[..i]) + [str[i]]
  {
    assert Front(str[..i + 1]) == str[..i] && Last(str[..i + 1]) == str[i];
  }

  lemma SnocParts(s: string, c: char)
    ensures Front(s + [c]) == s && Last(s + [c]) == c
  {
  }

  /** (x << 1) | b in 64 bits. */
  lemma ShiftIn(x: nat, b: nat, n: nat)
    requires b <= 1 && x < Pow2(n) && n < 64
    ensures Or(Shl(x, 1) % D, b) == 2 * x + b
  {
    Pow2Dword();
    Pow2Le(n, 63);
    assert Shl(x, 1) == 2 * Shl(x, 0) == 2 * x;
    DivModUnique(2 * x, D, 0, 2 * x);
    assert Pow2(1) == 2;
    OrDisjoint(x, b, 1);
  }

  datatype Test = Test(key: nat, mask: nat, shift: nat)

  predicate Passes(t: Test, x: nat) { And(Shr(x, t.shift), t.mask) == t.key }

  predicate LegalText(str: string) {
    |str| < 64 && (forall k :: 0 <= k < |str| ==> str[k] == ' ' || IsDigit(str[k]))
  }

  /** The accumulators stand for the digits read so far. */
  predicate Accumulated(s: string, key: nat, mask: nat, shift: nat) {
    key == Key(s) && mask == Mask(s) && shift == Wild(s)
  }

  /** One character that is not a space. */
  method Accumulate(ghost s: string, c: char, key0: nat, mask0: nat, shift0: nat) returns (key: nat, mask: nat, shift: nat)
    requires IsDigit(c) && |s| < 64 && Accumulated(s, key0, mask0, shift0)
    ensures Accumulated(s + [c], key, mask, shift)
  {
    KeyBound(s);
    SnocParts(s, c);
    ShiftIn(key0, if c == '1' then 1 else 0, |s|);
    ShiftIn(mask0, if c == '?' then 0 else 1, |s|);
    key := Or(Shl(key0, 1) % D, if c == '1' then 1 else 0);
    mask := Or(Shl(mask0, 1) % D, if c == '?' then 0 else 1);
    shift := if c == '?' then shift0 + 1 else 0;
  }

  ghost predicate Decides(t: Test, s: string) {
    forall x: nat :: Passes(t, x) <==> Matches(s, x)
  }

  lemma FinishedTest(s: string, key: nat, mask: nat, shift: nat)
    requires IsPattern(s) && Accumulated(s, key, mask, shift)
    ensures Decides(Test(Shr(key, shift), Shr(mask, shift), shift), s)
  {
    forall x: nat
      ensures Passes(Test(Shr(key, shift), Shr(mask, shift), shift), x) <==> Matches(s, x)
    {
      TestDecides(s, x);
    }
  }

  /** Builds the test of a pattern; None stands for the panic on illegal characters and on patterns of
      64 or more characters. */
  method PatternDecode(str: string) returns (r: Option<Test>)
    ensures r.Some? <==> LegalText(str)
    ensures r.Some? ==> Decides(r.value, Strip(str))
  {
    var key: nat, mask: nat, shift: nat := 0, 0, 0;
    var i: nat := 0;
    while i < 64 && i < |str|
      invariant i <= 64 && i <= |str|
      invariant forall k :: 0 <= k < i ==> str[k] == ' ' || IsDigit(str[k])
      invariant Accumulated(Strip(str[..i]), key, mask, shift)
    {
      StripNext(str, i);
      if str[i] != ' ' {
        if !IsDigit(str[i]) {
          return None;
        }
        StripDigits(str[..i]);
        key, mask, shift := Accumulate(Strip(str[..i]), str[i], key, mask, shift);
      }
      i := i + 1;
    }
    if i == 64 {
      return None;
    }
    assert str[..i] == str;
    StripDigits(str);
    FinishedTest(Strip(str), key, mask, shift);
    r := Some(Test(Shr(key, shift), Shr(mask, shift), shift));
  }

  // ----- patterns made of fields -----

  /** A field below another one: the low digits belong to the second. */
  lemma {:induction false} MatchesAppend(s: string, t: string, x: nat)
    ensures Matches(s + t, x) <==> Matches(t, x) && Matches(s, Shr(x, |t|))
    decreases |t|
  {
    if t == "" {
      assert s + t == s;
    } else {
      assert Front(s + t) == s + Front(t) && Last(s + t) == Last(t);
      MatchesAppend(s, Front(t), x / 2);
    }
  }
}
